/**
 * `RenderFilePreview` (components/RenderFilePreview.tsx): a chain of guarded early returns. The four
 * media previews need a url; everything else falls through to one preview box whose icon and title
 * follow the first of zip, csv and excel that holds. `formatFileSize` enters as a parameter.
 */
module RenderFilePreview {
  import opened Wrappers
  import opened Records
  import opened Icons
  import opened TokenPreview

  datatype Preview =
    | ImagePreview(url: string, alt: string)
    | VideoPreview(url: string, mime: string)
    | AudioPreview(url: string, filename: string, fileSize: string)
    | PdfPreview(url: string)
    | Box(icon: Icon, title: string, filename: string, open: Option<string>, sizeLine: Option<string>)

  /** `getPreviewBox`: the `Open …` link only with a url, the size line only with a non-empty size text. */
  function PreviewBox(icon: Icon, title: string, filename: string, url: Option<string>, fileSize: string): Preview {
    Box(icon, title, filename, if Truthy(url) then url else None,
        if fileSize != "" then Some("File size: " + fileSize) else None)
  }

  function Render(url: Option<string>, formatFileSize: Option<int> -> string, token: Attachment,
                  f: Flags, filename: string, fileExtension: string): Preview
  {
    var fileSize := formatFileSize(token.content.size);
    if f.image && Truthy(url) then ImagePreview(url.value, filename)
    else if f.video && Truthy(url) then VideoPreview(url.value, "video/" + fileExtension)
    else if f.audio && Truthy(url) then AudioPreview(url.value, filename, fileSize)
    else if f.pdf && Truthy(url) then PdfPreview(url.value)
    else if f.zip then PreviewBox(Package, "Archive", filename, url, fileSize)
    else if f.csv then PreviewBox(BarChart, "CSV", filename, url, fileSize)
    else if f.excel then PreviewBox(Bookmark, "Excel", filename, url, fileSize)
    else PreviewBox(Paperclip, "File", filename, url, fileSize)
  }

  /** First match in the order image, video, audio, pdf, each only with a url; otherwise the box. */
  lemma FirstMatch(url: Option<string>, formatFileSize: Option<int> -> string, token: Attachment,
                   f: Flags, filename: string, fileExtension: string)
    ensures var r := Render(url, formatFileSize, token, f, filename, fileExtension);
      && (r.ImagePreview? <==> Truthy(url) && f.image)
      && (r.VideoPreview? <==> Truthy(url) && !f.image && f.video)
      && (r.AudioPreview? <==> Truthy(url) && !f.image && !f.video && f.audio)
      && (r.PdfPreview? <==> Truthy(url) && !f.image && !f.video && !f.audio && f.pdf)
      && (r.Box? <==> !Truthy(url) || (!f.image && !f.video && !f.audio && !f.pdf))
  {
  }

  /** The media previews show the url: the image with the file name, the video with `video/<ext>`. */
  lemma MediaContents(url: Option<string>, formatFileSize: Option<int> -> string, token: Attachment,
                      f: Flags, filename: string, fileExtension: string)
    ensures var r := Render(url, formatFileSize, token, f, filename, fileExtension);
      && (!r.Box? ==> r.url == url.value)
      && (r.ImagePreview? ==> r.alt == filename)
      && (r.VideoPreview? ==> r.mime == "video/" + fileExtension)
      && (r.AudioPreview? ==> r.filename == filename && r.fileSize == formatFileSize(token.content.size))
  {
  }

  /** Without a url no media preview is possible: an image without a url falls through to the box. */
  lemma NoUrlFallsThrough(url: Option<string>, formatFileSize: Option<int> -> string, token: Attachment,
                          f: Flags, filename: string, fileExtension: string)
    requires !Truthy(url)
    ensures Render(url, formatFileSize, token, f, filename, fileExtension).Box?
  {
  }

  /**
   * The box shows 📦 Archive for zip, else 📊 CSV for csv, else 📑 Excel for excel, else 📎 File;
   * its `Open` link is there exactly when there is a url, and its size line exactly when the size
   * text is not empty.
   */
  lemma BoxParameters(url: Option<string>, formatFileSize: Option<int> -> string, token: Attachment,
                      f: Flags, filename: string, fileExtension: string)
    requires Render(url, formatFileSize, token, f, filename, fileExtension).Box?
    ensures var r := Render(url, formatFileSize, token, f, filename, fileExtension);
      && (f.zip ==> r.icon == Package && r.title == "Archive")
      && (!f.zip && f.csv ==> r.icon == BarChart && r.title == "CSV")
      && (!f.zip && !f.csv && f.excel ==> r.icon == Bookmark && r.title == "Excel")
      && (!f.zip && !f.csv && !f.excel ==> r.icon == Paperclip && r.title == "File")
      && r.filename == filename
      && (r.open.Some? <==> Truthy(url)) && (r.open.Some? ==> r.open == url)
      && (r.sizeLine.Some? <==> formatFileSize(token.content.size) != "")
      && (r.sizeLine.Some? ==> r.sizeLine.value == "File size: " + formatFileSize(token.content.size))
  {
  }
}
