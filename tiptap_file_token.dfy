/**
 * The editor's file-token node view (components/TipTap/FileToken.tsx): an icon chosen by the
 * extension, the file name, and a highlighted style exactly while TipTap reports the node selected.
 */
module TipTapFileToken {
  import opened Strings
  import opened Icons
  import Bubble

  /** `renderIcon(fileExtension)`. */
  function RenderIcon(ext: string): Icon {
    match ext
    case "zip" => Package
    case "rar" => Package
    case "mp3" => Music
    case "wav" => Music
    case "ogg" => Music
    case "mp4" => Film
    case "avi" => Film
    case "mkv" => Film
    case "pdf" => Page
    case "doc" => Page
    case "docx" => Page
    case "xls" => BarChart
    case "xlsx" => BarChart
    case "csv" => Bookmark
    case _ => Page
  }

  /** The extensions the table names. */
  function KnownExtensions(): set<string> {
    {"zip", "rar", "mp3", "wav", "ogg", "mp4", "avi", "mkv", "pdf", "doc", "docx", "xls", "xlsx", "csv"}
  }

  datatype TokenView = TokenView(icon: Icon, fileName: string, highlighted: bool)

  function View(fileName: string, selected: bool): TokenView {
    TokenView(RenderIcon(Extension(fileName)), fileName, selected)
  }

  /** The table entry by entry; anything else gets the page icon, so the table is total. */
  lemma IconTable(ext: string)
    ensures ext in {"zip", "rar"} ==> RenderIcon(ext) == Package
    ensures ext in {"mp3", "wav", "ogg"} ==> RenderIcon(ext) == Music
    ensures ext in {"mp4", "avi", "mkv"} ==> RenderIcon(ext) == Film
    ensures ext in {"pdf", "doc", "docx"} ==> RenderIcon(ext) == Page
    ensures ext in {"xls", "xlsx"} ==> RenderIcon(ext) == BarChart
    ensures ext == "csv" ==> RenderIcon(ext) == Bookmark
    ensures ext !in KnownExtensions() ==> RenderIcon(ext) == Page
  {
  }

  /** The node view picks the same icon as the chat bubble of Bubble.tsx for every file name. */
  lemma SameIconAsBubble(fileName: string)
    ensures View(fileName, false).icon == Bubble.FileIcon(fileName)
  {
  }

  /** The style follows `selected` alone; the name does not matter. */
  lemma StyleOnlyFromSelected(a: string, b: string, selected: bool)
    ensures View(a, selected).highlighted == View(b, selected).highlighted == selected
  {
  }
}
