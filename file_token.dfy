/**
 * The stand-alone file token (components/FileToken.tsx): the editor's icon table with the paperclip
 * as its default, and a selection flag that each click toggles.
 */
module FileToken {
  import opened Strings
  import opened Icons
  import TipTapFileToken

  /** `renderIcon(fileExtension)`: unknown extensions get the paperclip. */
  function RenderIcon(ext: string): Icon {
    match ext
    case "zip" => Package
    case "rar" => Package
    case "mp3" => Music
    case "wav" => Music
    case "ogg" => Music
    case "mp4" => Film
    case "avi" => Film
    case "mkv" => Film
    case "pdf" => Page
    case "doc" => Page
    case "docx" => Page
    case "xls" => BarChart
    case "xlsx" => BarChart
    case "csv" => Bookmark
    case _ => Paperclip
  }

  /** The named entries are those of the editor's node view; only the default differs. */
  lemma AgreesWithTipTap(ext: string)
    ensures ext in TipTapFileToken.KnownExtensions() ==> RenderIcon(ext) == TipTapFileToken.RenderIcon(ext)
    ensures ext !in TipTapFileToken.KnownExtensions() ==> RenderIcon(ext) == Paperclip && TipTapFileToken.RenderIcon(ext) == Page
  {
  }

  class FileToken {
    const fileName: string
    var isSelected: bool

    constructor (fileName: string)
      ensures this.fileName == fileName && !isSelected
    {
      this.fileName := fileName;
      isSelected := false;
    }

    /** `handleToggleSelect`. */
    method HandleToggleSelect()
      modifies this
      ensures isSelected == !old(isSelected)
    {
      isSelected := !isSelected;
    }

    function TokenIcon(): Icon {
      RenderIcon(Extension(fileName))
    }

    /** The classes of the container and of the name. */
    function ContainerClasses(): seq<string>
      reads this
    {
      ["file-token-button"] + (if isSelected then ["selected"] else [])
    }

    function NameClasses(): seq<string>
      reads this
    {
      ["file-name"] + (if isSelected then ["selected"] else [])
    }

    /** Both the container and the name carry `selected` exactly while the token is selected. */
    lemma SelectedClassIff()
      ensures "selected" in ContainerClasses() <==> isSelected
      ensures "selected" in NameClasses() <==> isSelected
    {
      assert "file-token-button" != "selected" && "file-name" != "selected";
    }
  }

  /** Two clicks restore the selection. */
  method ToggleTwice(t: FileToken)
    modifies t
    ensures t.isSelected == old(t.isSelected)
  {
    t.HandleToggleSelect();
    t.HandleToggleSelect();
  }
}
