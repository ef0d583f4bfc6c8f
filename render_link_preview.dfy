/**
 * `RenderLinkPreview` (components/RenderLinkPreview.tsx): the link card of a LINK token. The hostname
 * comes from the `getDisplayUrl` it is given; the button says `Visit Tweet` for Twitter hosts; the
 * favicon falls back to a bundled image; the media block appears only with a media url.
 */
module RenderLinkPreview {
  import opened Wrappers
  import opened Strings
  import opened Records
  import opened Url
  import TokenPreviewSpecial

  /** The bundled `fallbackLinkImage.svg`. */
  const FallbackImage := "fallbackLinkImage.svg"

  /** The media image; clicking it opens the image modal with the same source and alt text. */
  datatype Media = Media(src: string, alt: string)

  datatype LinkView = LinkView(favicon: string, hostname: string, href: Option<string>, buttonText: string,
                               title: Option<string>, dataText: Option<string>, media: Option<Media>)

  /** `token.metaData?.faviconUrl || fallback`, and the fallback alone once the image has failed. */
  function Favicon(metaData: Option<MetaDataContent>, faviconError: bool): string {
    if !faviconError && metaData.Some? && metaData.value.faviconUrl != "" then metaData.value.faviconUrl
    else FallbackImage
  }

  function Render(getDisplayUrl: string -> UrlParts, token: Attachment, faviconError: bool): LinkView {
    var hostname := getDisplayUrl(OrElse(token.content.url, "")).hostname;
    var md := token.metaData;
    LinkView(
      Favicon(md, faviconError),
      hostname,
      token.content.url,
      if Contains(hostname, "twitter.com") then "Visit Tweet" else "Visit Link",
      if md.Some? then Some(md.value.title) else None,
      if md.Some? then Some(md.value.dataText) else None,
      if md.Some? && md.value.mediaUrl != "" then Some(Media(md.value.mediaUrl, hostname + " Preview")) else None)
  }

  /** The hostname is that of `url || ""`; the label is `Visit Tweet` exactly when it contains `twitter.com`. */
  lemma LabelChoice(getDisplayUrl: string -> UrlParts, token: Attachment, faviconError: bool)
    ensures var v := Render(getDisplayUrl, token, faviconError);
      && v.hostname == getDisplayUrl(OrElse(token.content.url, "")).hostname
      && (v.buttonText == "Visit Tweet" <==> Contains(v.hostname, "twitter.com"))
      && (v.buttonText != "Visit Tweet" ==> v.buttonText == "Visit Link")
  {
  }

  /** The favicon is the metadata's when it has one and no error occurred, and the fallback otherwise. */
  lemma FaviconChoice(getDisplayUrl: string -> UrlParts, token: Attachment, faviconError: bool)
    ensures var v := Render(getDisplayUrl, token, faviconError);
      && (faviconError ==> v.favicon == FallbackImage)
      && (!faviconError && token.metaData.Some? && token.metaData.value.faviconUrl != "" ==>
            v.favicon == token.metaData.value.faviconUrl)
      && (v.favicon != FallbackImage ==> !faviconError && token.metaData.Some? && v.favicon == token.metaData.value.faviconUrl)
  {
  }

  /** The media block is there exactly with a non-empty media url, shown and opened with alt `<hostname> Preview`. */
  lemma MediaBlock(getDisplayUrl: string -> UrlParts, token: Attachment, faviconError: bool)
    ensures var v := Render(getDisplayUrl, token, faviconError);
      && (v.media.Some? <==> token.metaData.Some? && token.metaData.value.mediaUrl != "")
      && (v.media.Some? ==> v.media.value == Media(token.metaData.value.mediaUrl, v.hostname + " Preview"))
  {
  }

  /** With the `getDisplayUrl` of the special preview, a url that does not parse is shown as it is. */
  lemma UnparsedUrlShownRaw(parse: Parser, token: Attachment, faviconError: bool)
    requires parse(OrElse(token.content.url, "")).None?
    ensures Render(u => TokenPreviewSpecial.DisplayUrl(parse, u), token, faviconError).hostname == OrElse(token.content.url, "")
  {
  }

  /** A Twitter status link gets the `Visit Tweet` label. */
  lemma TweetLabel(getDisplayUrl: string -> UrlParts, token: Attachment, faviconError: bool)
    requires getDisplayUrl(OrElse(token.content.url, "")).hostname == "mobile.twitter.com"
    ensures Render(getDisplayUrl, token, faviconError).buttonText == "Visit Tweet"
  {
    var h := "mobile.twitter.com";
    assert OccursAt(h, "twitter.com", 7) by { assert h[7..18] == "twitter.com"; }
  }
}
