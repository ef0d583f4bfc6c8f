/**
 * `TokenPreviewSpecial` (components/TokenPreviewSpecial.tsx): the preview under a special bubble. It
 * computes the seven file flags of `TokenPreview` on `url || ""`, adds an eighth, `isLink`, and draws
 * the link card before the file blocks. `new URL` enters as a parser parameter.
 */
module TokenPreviewSpecial {
  import opened Wrappers
  import opened Strings
  import opened Url
  import opened TokenPreview

  /** The props: an attachment spread with its url and name, whose `type` is the attachment type. */
  datatype Token = Token(url: Option<string>, name: Option<string>, kind: string, s3Url: Option<string>)

  function FileFlags(t: Token): Flags {
    Classify(t.kind, OrElse(t.url, ""))
  }

  /** `isLink`: the LINK type, or no file flag and a url starting with `http`. */
  predicate IsLink(t: Token) {
    t.kind == "LINK" || (NoFlag(FileFlags(t)) && t.url.Some? && StartsWith(t.url.value, "http"))
  }

  /** `getDisplayUrl`: the parsed hostname and origin, or the raw string and `""` where parsing throws. */
  function DisplayUrl(parse: Parser, url: string): (r: UrlParts)
    ensures parse(url).None? ==> r == UrlParts(url, "")
    ensures parse(url).Some? ==> r == parse(url).value
  {
    match parse(url)
    case Some(u) => u
    case None => UrlParts(url, "")
  }

  datatype Favicon = FaviconService(hostname: string) | Globe

  /** The link card: favicon, site name, the `Visit Link` target, and the preview image (`None`: the globe). */
  datatype LinkCard = LinkCard(favicon: Favicon, hostname: string, href: string, preview: Option<string>)

  /** `renderLinkPreview`; `faviconError` is the component state the favicon's `onError` sets. */
  function LinkPreview(t: Token, parse: Parser, faviconError: bool): Option<LinkCard> {
    if !Truthy(t.url) then None
    else
      var hostname := DisplayUrl(parse, t.url.value).hostname;
      Some(LinkCard(if faviconError then Globe else FaviconService(hostname), hostname, t.url.value,
                    if Truthy(t.s3Url) then t.s3Url else None))
  }

  datatype Part = LinkPart(card: LinkCard) | FilePart(block: Block)

  function FileParts(bs: seq<Block>): (r: seq<Part>)
    ensures |r| == |bs|
    ensures forall k :: 0 <= k < |bs| ==> r[k] == FilePart(bs[k])
  {
    if bs == [] then [] else [FilePart(bs[0])] + FileParts(bs[1..])
  }

  /** The file blocks with this component's fallback texts; the fallback also needs `isLink` false. */
  function Blocks(t: Token): seq<Block> {
    var f := FileFlags(t);
    Draw(f, NoFlag(f) && !IsLink(t), t.url.GetOr(""), t.kind,
         Labels(OrElse(t.name, "Image preview"), OrElse(t.name, "PDF preview"), OrElse(t.name, "ZIP File"),
                OrElse(t.name, "CSV File"), OrElse(t.name, "Excel File"), OrElse(t.name, "Unknown File")))
  }

  /** The link card, when `isLink` holds and `renderLinkPreview` returns one, and then the file blocks. */
  function Assemble(isLink: bool, card: Option<LinkCard>, bs: seq<Block>): seq<Part> {
    (if isLink && card.Some? then [LinkPart(card.value)] else []) + FileParts(bs)
  }

  lemma AssembleParts(isLink: bool, card: Option<LinkCard>, bs: seq<Block>)
    ensures (exists p :: p in Assemble(isLink, card, bs) && p.LinkPart?) <==> isLink && card.Some?
    ensures isLink && card.Some? ==> Assemble(isLink, card, bs)[0] == LinkPart(card.value)
    ensures forall b :: b in bs ==> FilePart(b) in Assemble(isLink, card, bs)
  {
    var r := Assemble(isLink, card, bs);
    var fs := FileParts(bs);
    if isLink && card.Some? { assert r[0] == LinkPart(card.value); }
    forall b | b in bs ensures FilePart(b) in r {
      var k :| 0 <= k < |bs| && bs[k] == b;
      assert r[|r| - |fs| + k] == fs[k];
    }
  }

  /** The body of the component. */
  function Render(t: Token, parse: Parser, faviconError: bool): seq<Part> {
    Assemble(IsLink(t), LinkPreview(t, parse, faviconError), Blocks(t))
  }

  /** The link card is drawn exactly for a link token with a non-empty url, and always first. */
  lemma LinkCardIff(t: Token, parse: Parser, faviconError: bool)
    ensures (exists p :: p in Render(t, parse, faviconError) && p.LinkPart?) <==> IsLink(t) && Truthy(t.url)
    ensures IsLink(t) && Truthy(t.url) ==> Render(t, parse, faviconError)[0].LinkPart?
  {
    AssembleParts(IsLink(t), LinkPreview(t, parse, faviconError), Blocks(t));
  }

  /** Each kind of file block appears exactly when its flag holds; the fallback exactly when none of the eight does. */
  lemma FileBlocksShowFlags(t: Token, k: Kind)
    ensures (exists b :: b in Blocks(t) && KindOf(b) == k) <==> FlagOf(FileFlags(t), NoFlag(FileFlags(t)) && !IsLink(t), k)
  {
    var f := FileFlags(t);
    DrawShowsFlags(f, NoFlag(f) && !IsLink(t), t.url.GetOr(""), t.kind,
      Labels(OrElse(t.name, "Image preview"), OrElse(t.name, "PDF preview"), OrElse(t.name, "ZIP File"),
             OrElse(t.name, "CSV File"), OrElse(t.name, "Excel File"), OrElse(t.name, "Unknown File")), k);
  }

  /** The image flag draws the image, with the name or `Image preview` as its text. */
  lemma ImageBlockDrawn(t: Token)
    requires FileFlags(t).image
    ensures Image(t.url.GetOr(""), OrElse(t.name, "Image preview")) in Blocks(t)
  {
    var f := FileFlags(t);
    DrawMembers(f, NoFlag(f) && !IsLink(t), t.url.GetOr(""), t.kind,
      Labels(OrElse(t.name, "Image preview"), OrElse(t.name, "PDF preview"), OrElse(t.name, "ZIP File"),
             OrElse(t.name, "CSV File"), OrElse(t.name, "Excel File"), OrElse(t.name, "Unknown File")));
  }

  /**
   * The flags are not exclusive: a LINK token whose url ends in `.png` draws the link card and then the
   * image.
   */
  lemma LinkWithImageUrl(t: Token, parse: Parser, faviconError: bool)
    requires t.kind == "LINK" && t.url.Some? && EndsWithIgnoreCase(t.url.value, ".png")
    ensures var r := Render(t, parse, faviconError);
      r[0].LinkPart? && FilePart(Image(t.url.value, OrElse(t.name, "Image preview"))) in r
  {
    assert Truthy(t.url) by { assert |Lower(t.url.value)| >= |Lower(".png")| == 4; }
    assert FileFlags(t).image by { assert OrElse(t.url, "") == t.url.value; }
    ImageBlockDrawn(t);
    AssembleParts(IsLink(t), LinkPreview(t, parse, faviconError), Blocks(t));
  }

  /** An `.ogg` url raises both the video and the audio flag, so both players are drawn. */
  lemma OggIsVideoAndAudio(t: Token)
    requires t.url.Some? && EndsWithIgnoreCase(t.url.value, ".ogg")
    ensures Video(t.url.value, t.kind) in Blocks(t) && Audio(t.url.value, t.kind) in Blocks(t)
  {
    var f := FileFlags(t);
    assert f.video && f.audio;
    DrawMembers(f, NoFlag(f) && !IsLink(t), t.url.GetOr(""), t.kind,
      Labels(OrElse(t.name, "Image preview"), OrElse(t.name, "PDF preview"), OrElse(t.name, "ZIP File"),
             OrElse(t.name, "CSV File"), OrElse(t.name, "Excel File"), OrElse(t.name, "Unknown File")));
  }

  /** The card's preview is the stored `s3Url` when there is one, the globe otherwise; the favicon falls back to the globe after an error. */
  lemma LinkCardContents(t: Token, parse: Parser, faviconError: bool)
    requires Truthy(t.url)
    ensures var c := LinkPreview(t, parse, faviconError);
      && c.Some? && c.value.href == t.url.value
      && c.value.hostname == (if parse(t.url.value).Some? then parse(t.url.value).value.hostname else t.url.value)
      && (c.value.preview.Some? <==> Truthy(t.s3Url))
      && (c.value.preview.Some? ==> c.value.preview == t.s3Url)
      && (c.value.favicon == Globe <==> faviconError)
  {
  }
}
