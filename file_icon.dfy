/**
 * `getFileIcon` (utils/getFileIcon.tsx): a LINK attachment with a url shows the chain image;
 * everything else goes by the extension table, where only the audio image depends on the selection.
 */
module FileIcon {
  import opened Wrappers
  import opened Strings
  import opened Records
  import opened Icons

  /** The switch on the extension; `highlighted` picks the blue audio image. */
  function TableIcon(ext: string, highlighted: bool): Icon {
    match ext
    case "zip" => Package
    case "rar" => Package
    case "mp3" => MusicImage(highlighted)
    case "wav" => MusicImage(highlighted)
    case "ogg" => MusicImage(highlighted)
    case "mp4" => VideoImage
    case "avi" => VideoImage
    case "mkv" => VideoImage
    case "pdf" => Page
    case "doc" => Page
    case "docx" => Page
    case "xls" => BarChart
    case "xlsx" => BarChart
    case "csv" => Bookmark
    case "jpg" => PictureImage
    case "jpeg" => PictureImage
    case "png" => PictureImage
    case "gif" => PictureImage
    case "heic" => PictureImage
    case _ => Page
  }

  /** The extensions the table names. */
  function KnownExtensions(): set<string> {
    {"zip", "rar", "mp3", "wav", "ogg", "mp4", "avi", "mkv", "pdf", "doc", "docx",
     "xls", "xlsx", "csv", "jpg", "jpeg", "png", "gif", "heic"}
  }

  /** The attachment is the selected one (by content id) and no transition is running. */
  predicate Highlighted(attachment: Attachment, selected: Option<Attachment>, transitioning: bool) {
    SameContentId(selected, attachment) && !transitioning
  }

  function GetFileIcon(fileName: string, attachment: Attachment, selected: Option<Attachment>, transitioning: bool): Icon {
    if attachment.kind == Link && Truthy(attachment.content.url) then
      ChainImage(Highlighted(attachment, selected, transitioning))
    else
      TableIcon(Extension(fileName), Highlighted(attachment, selected, transitioning))
  }

  /** A LINK with a non-empty url gets the chain image whatever its name; dark exactly when highlighted. */
  lemma LinkWithUrlIsChain(fileName: string, attachment: Attachment, selected: Option<Attachment>, transitioning: bool)
    requires attachment.kind == Link && Truthy(attachment.content.url)
    ensures GetFileIcon(fileName, attachment, selected, transitioning).ChainImage?
    ensures GetFileIcon(fileName, attachment, selected, transitioning).dark <==>
      (SameContentId(selected, attachment) && !transitioning)
  {
  }

  /** A LINK without a usable url is classified by its name like any other attachment. */
  lemma LinkWithoutUrlFallsThrough(fileName: string, attachment: Attachment, other: Attachment, selected: Option<Attachment>, transitioning: bool)
    requires attachment.kind == Link && !Truthy(attachment.content.url)
    requires other.kind != Link && other.content.id == attachment.content.id
    ensures GetFileIcon(fileName, attachment, selected, transitioning) == GetFileIcon(fileName, other, selected, transitioning)
  {
  }

  /** mp3, wav and ogg give the audio image, blue exactly when highlighted. */
  lemma AudioIcon(fileName: string, attachment: Attachment, selected: Option<Attachment>, transitioning: bool)
    requires !(attachment.kind == Link && Truthy(attachment.content.url))
    requires Extension(fileName) in {"mp3", "wav", "ogg"}
    ensures GetFileIcon(fileName, attachment, selected, transitioning) ==
      MusicImage(SameContentId(selected, attachment) && !transitioning)
  {
  }

  /** Every icon other than the chain and audio images ignores the selection and the transition. */
  lemma OnlyLinkAndAudioDependOnSelection(fileName: string, attachment: Attachment,
                                          s1: Option<Attachment>, t1: bool, s2: Option<Attachment>, t2: bool)
    requires !GetFileIcon(fileName, attachment, s1, t1).ChainImage?
    requires !GetFileIcon(fileName, attachment, s1, t1).MusicImage?
    ensures GetFileIcon(fileName, attachment, s1, t1) == GetFileIcon(fileName, attachment, s2, t2)
  {
  }

  /** The extension table, entry by entry; every other extension gets the page icon. */
  lemma ExtensionTable(ext: string, h: bool)
    ensures ext in {"zip", "rar"} ==> TableIcon(ext, h) == Package
    ensures ext in {"mp4", "avi", "mkv"} ==> TableIcon(ext, h) == VideoImage
    ensures ext in {"pdf", "doc", "docx"} ==> TableIcon(ext, h) == Page
    ensures ext in {"xls", "xlsx"} ==> TableIcon(ext, h) == BarChart
    ensures ext == "csv" ==> TableIcon(ext, h) == Bookmark
    ensures ext in {"jpg", "jpeg", "png", "gif", "heic"} ==> TableIcon(ext, h) == PictureImage
    ensures ext !in KnownExtensions() ==> TableIcon(ext, h) == Page
  {
  }
}
