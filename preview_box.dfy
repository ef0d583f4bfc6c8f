/**
 * `PreviewBox` (components/TipTap/PreviewBox.tsx): the preview of a file picked in the editor. Its
 * flags look at the MIME type only, except zip and csv, which also accept a case-sensitive name suffix.
 * `URL.createObjectURL` is outside the model: the object url enters as a parameter.
 */
module PreviewBox {
  import opened Wrappers
  import opened Strings
  import opened BrowserFile
  import opened TokenPreview

  /** `fileType?.startsWith(p)`: false for a missing file. */
  predicate TypeStarts(file: Option<File>, p: string) {
    file.Some? && StartsWith(file.value.mime, p)
  }

  predicate TypeIs(file: Option<File>, mime: string) {
    file.Some? && file.value.mime == mime
  }

  /** `fileName?.endsWith(p)`: exact case, false for a missing file. */
  predicate NameEnds(file: Option<File>, p: string) {
    file.Some? && EndsWith(file.value.name, p)
  }

  function BoxFlags(file: Option<File>): Flags {
    Flags(
      TypeStarts(file, "image/"),
      TypeStarts(file, "video/"),
      TypeStarts(file, "audio/"),
      TypeIs(file, "application/pdf"),
      TypeIs(file, "application/zip") || NameEnds(file, ".zip"),
      TypeIs(file, "text/csv") || NameEnds(file, ".csv"),
      TypeIs(file, ExcelMime) || TypeIs(file, SheetMime))
  }

  /** `{x}` of an optional string renders nothing for `undefined`. */
  function Shown(s: Option<string>): string {
    s.GetOr("")
  }

  /** What `PreviewBox` draws, given the object url of the file (`""` without a file). */
  function Render(file: Option<File>, objectUrl: string): seq<Block> {
    var f := BoxFlags(file);
    var name := if file.Some? then Some(file.value.name) else None;
    var mime := if file.Some? then Some(file.value.mime) else None;
    var src := if file.Some? then objectUrl else "";
    Draw(f, NoFlag(f), src, Shown(mime),
         Labels(Shown(name) + " Preview", Shown(name) + " Preview", Shown(name), Shown(name), Shown(name), Shown(name)))
  }

  /** Each kind of block appears exactly when its flag holds; the fallback exactly when none of the seven does. */
  lemma RenderShowsFlags(file: Option<File>, objectUrl: string, k: Kind)
    ensures (exists b :: b in Render(file, objectUrl) && KindOf(b) == k) <==>
      FlagOf(BoxFlags(file), NoFlag(BoxFlags(file)), k)
  {
    var f := BoxFlags(file);
    var name := if file.Some? then Some(file.value.name) else None;
    var mime := if file.Some? then Some(file.value.mime) else None;
    var src := if file.Some? then objectUrl else "";
    DrawShowsFlags(f, NoFlag(f), src, Shown(mime),
      Labels(Shown(name) + " Preview", Shown(name) + " Preview", Shown(name), Shown(name), Shown(name), Shown(name)), k);
  }

  /** Without a file every flag is false and only the empty fallback is drawn. */
  lemma NoFileOnlyFallback(objectUrl: string)
    ensures NoFlag(BoxFlags(None))
    ensures Render(None, objectUrl) == [Fallback("", "")]
  {
    DrawNeverEmpty(BoxFlags(None), "", "", Labels(" Preview", " Preview", "", "", "", ""));
  }

  /**
   * The editor's preview is stricter than the shared one with the file name in place of the url: every
   * flag it raises, `TokenPreview` raises too for the same MIME type.
   */
  lemma StricterThanTokenPreview(file: File, k: Kind)
    ensures FlagOf(BoxFlags(Some(file)), false, k) ==> FlagOf(Classify(file.mime, file.name), false, k)
  {
    match k
    case ImageKind => StricterByMediaType(file);
    case VideoKind => StricterByMediaType(file);
    case AudioKind => StricterByMediaType(file);
    case PdfKind => StricterByMediaType(file);
    case ZipKind => StricterZip(file);
    case CsvKind => StricterCsv(file);
    case ExcelKind => StricterExcel(file);
    case FallbackKind =>
  }

  lemma StricterByMediaType(file: File)
    ensures var b := BoxFlags(Some(file)); var t := Classify(file.mime, file.name);
      (b.image ==> t.image) && (b.video ==> t.video) && (b.audio ==> t.audio) && (b.pdf ==> t.pdf)
  {
  }

  /** A `.zip` name passes the case-insensitive test too. */
  lemma StricterZip(file: File)
    ensures BoxFlags(Some(file)).zip ==> Classify(file.mime, file.name).zip
  {
    if EndsWith(file.name, ".zip") { EndsWithIgnoresCase(file.name, ".zip"); }
  }

  lemma StricterCsv(file: File)
    ensures BoxFlags(Some(file)).csv ==> Classify(file.mime, file.name).csv
  {
    if EndsWith(file.name, ".csv") { EndsWithIgnoresCase(file.name, ".csv"); }
  }

  lemma StricterExcel(file: File)
    ensures BoxFlags(Some(file)).excel ==> Classify(file.mime, file.name).excel
  {
  }

  /** The name suffix is case-sensitive: `ARCHIVE.ZIP` with no MIME type is not a zip file here. */
  lemma UpperCaseZipIsNotZip()
    ensures !BoxFlags(Some(File("ARCHIVE.ZIP", "", 0))).zip
  {
    var name := "ARCHIVE.ZIP";
    assert name[|name| - 4..] == ".ZIP" != ".zip";
  }

  /** PDF is decided by the MIME type alone: a `.pdf` name with another type is not a PDF. */
  lemma PdfOnlyByType(file: File)
    requires file.mime != "application/pdf"
    ensures !BoxFlags(Some(file)).pdf
  {
  }
}
