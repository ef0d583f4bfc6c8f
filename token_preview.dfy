/**
 * `TokenPreview` (components/TokenPreview.tsx): seven independent flags computed from the MIME type
 * and the url, and one block per flag that holds, in a fixed order, with a fallback block when none
 * holds. The flags and blocks are shared with the two other preview components.
 */
module TokenPreview {
  import opened Strings

  datatype Token = Token(url: string, fileName: string, kind: string)

  /** The seven file flags; several can hold at once. */
  datatype Flags = Flags(image: bool, video: bool, audio: bool, pdf: bool, zip: bool, csv: bool, excel: bool)

  predicate NoFlag(f: Flags) {
    !f.image && !f.video && !f.audio && !f.pdf && !f.zip && !f.csv && !f.excel
  }

  const ExcelMime := "application/vnd.ms-excel"
  const SheetMime := "application/vnd.openxmlformats-officedocument.spreadsheetml.sheet"

  predicate ImageSuffix(url: string) {
    EndsWithIgnoreCase(url, ".jpg") || EndsWithIgnoreCase(url, ".jpeg") || EndsWithIgnoreCase(url, ".png") ||
    EndsWithIgnoreCase(url, ".gif") || EndsWithIgnoreCase(url, ".bmp") || EndsWithIgnoreCase(url, ".webp")
  }

  predicate VideoSuffix(url: string) {
    EndsWithIgnoreCase(url, ".mp4") || EndsWithIgnoreCase(url, ".webm") || EndsWithIgnoreCase(url, ".ogg")
  }

  predicate AudioSuffix(url: string) {
    EndsWithIgnoreCase(url, ".mp3") || EndsWithIgnoreCase(url, ".wav") || EndsWithIgnoreCase(url, ".ogg")
  }

  /** The `isImage` … `isExcel` constants: a MIME test, or a case-insensitive suffix of the url. */
  function Classify(kind: string, url: string): Flags {
    Flags(
      StartsWith(kind, "image/") || ImageSuffix(url),
      StartsWith(kind, "video/") || VideoSuffix(url),
      StartsWith(kind, "audio/") || AudioSuffix(url),
      kind == "application/pdf" || EndsWithIgnoreCase(url, ".pdf"),
      kind == "application/zip" || EndsWithIgnoreCase(url, ".zip"),
      kind == "text/csv" || EndsWithIgnoreCase(url, ".csv"),
      kind == ExcelMime || kind == SheetMime || EndsWithIgnoreCase(url, ".xls") || EndsWithIgnoreCase(url, ".xlsx"))
  }

  /** The blocks the preview components draw; each names what it shows. */
  datatype Block =
    | Image(src: string, alt: string)
    | Video(src: string, mime: string)
    | Audio(src: string, mime: string)
    | Pdf(src: string, title: string)
    | Zip(caption: string)
    | Csv(caption: string)
    | Excel(caption: string)
    | Fallback(caption: string, mime: string)

  function When(b: bool, x: Block): seq<Block> {
    if b then [x] else []
  }

  /** The texts a component puts on its blocks. */
  datatype Labels = Labels(imageAlt: string, pdfTitle: string, zipName: string, csvName: string,
                           excelName: string, fallbackName: string)

  /**
   * The conditional blocks of a preview component, top to bottom: one per flag that holds, then the
   * fallback when `fallback` holds; `src` and `mime` are what the media elements are given.
   */
  function Draw(f: Flags, fallback: bool, src: string, mime: string, l: Labels): seq<Block> {
    When(f.image, Image(src, l.imageAlt)) +
    When(f.video, Video(src, mime)) +
    When(f.audio, Audio(src, mime)) +
    When(f.pdf, Pdf(src, l.pdfTitle)) +
    When(f.zip, Zip(l.zipName)) +
    When(f.csv, Csv(l.csvName)) +
    When(f.excel, Excel(l.excelName)) +
    When(fallback, Fallback(l.fallbackName, mime))
  }

  /** What the component may draw: the block of each flag that holds, and the fallback when asked for. */
  predicate Drawn(b: Block, f: Flags, fallback: bool, src: string, mime: string, l: Labels) {
    || (f.image && b == Image(src, l.imageAlt))
    || (f.video && b == Video(src, mime))
    || (f.audio && b == Audio(src, mime))
    || (f.pdf && b == Pdf(src, l.pdfTitle))
    || (f.zip && b == Zip(l.zipName))
    || (f.csv && b == Csv(l.csvName))
    || (f.excel && b == Excel(l.excelName))
    || (fallback && b == Fallback(l.fallbackName, mime))
  }

  lemma InWhen(b: Block, c: bool, x: Block)
    ensures b in When(c, x) <==> c && b == x
  {
  }

  lemma DrawMembers(f: Flags, fallback: bool, src: string, mime: string, l: Labels)
    ensures forall b :: b in Draw(f, fallback, src, mime, l) <==> Drawn(b, f, fallback, src, mime, l)
  {
    forall b ensures b in Draw(f, fallback, src, mime, l) <==> Drawn(b, f, fallback, src, mime, l) {
      InWhen(b, f.image, Image(src, l.imageAlt));
      InWhen(b, f.video, Video(src, mime));
      InWhen(b, f.audio, Audio(src, mime));
      InWhen(b, f.pdf, Pdf(src, l.pdfTitle));
      InWhen(b, f.zip, Zip(l.zipName));
      InWhen(b, f.csv, Csv(l.csvName));
      InWhen(b, f.excel, Excel(l.excelName));
      InWhen(b, fallback, Fallback(l.fallbackName, mime));
    }
  }

  datatype Kind = ImageKind | VideoKind | AudioKind | PdfKind | ZipKind | CsvKind | ExcelKind | FallbackKind

  function KindOf(b: Block): Kind {
    match b
    case Image(_, _) => ImageKind
    case Video(_, _) => VideoKind
    case Audio(_, _) => AudioKind
    case Pdf(_, _) => PdfKind
    case Zip(_) => ZipKind
    case Csv(_) => CsvKind
    case Excel(_) => ExcelKind
    case Fallback(_, _) => FallbackKind
  }

  /** The flag that decides whether a block of kind `k` is drawn. */
  function FlagOf(f: Flags, fallback: bool, k: Kind): bool {
    match k
    case ImageKind => f.image
    case VideoKind => f.video
    case AudioKind => f.audio
    case PdfKind => f.pdf
    case ZipKind => f.zip
    case CsvKind => f.csv
    case ExcelKind => f.excel
    case FallbackKind => fallback
  }

  /** A block of each kind is drawn exactly when its flag holds, and the fallback exactly when asked for. */
  lemma DrawShowsFlags(f: Flags, fallback: bool, src: string, mime: string, l: Labels, k: Kind)
    ensures (exists b :: b in Draw(f, fallback, src, mime, l) && KindOf(b) == k) <==> FlagOf(f, fallback, k)
  {
    DrawMembers(f, fallback, src, mime, l);
    if FlagOf(f, fallback, k) {
      var b := match k
        case ImageKind => Image(src, l.imageAlt)
        case VideoKind => Video(src, mime)
        case AudioKind => Audio(src, mime)
        case PdfKind => Pdf(src, l.pdfTitle)
        case ZipKind => Zip(l.zipName)
        case CsvKind => Csv(l.csvName)
        case ExcelKind => Excel(l.excelName)
        case FallbackKind => Fallback(l.fallbackName, mime);
      assert Drawn(b, f, fallback, src, mime, l) && KindOf(b) == k;
    }
  }

  /** With the fallback drawn exactly when no flag holds, the preview is never empty, and the fallback is then alone. */
  lemma DrawNeverEmpty(f: Flags, src: string, mime: string, l: Labels)
    ensures 1 <= |Draw(f, NoFlag(f), src, mime, l)| <= 7
    ensures NoFlag(f) <==> Draw(f, NoFlag(f), src, mime, l) == [Fallback(l.fallbackName, mime)]
  {
    var r := Draw(f, NoFlag(f), src, mime, l);
    DrawMembers(f, NoFlag(f), src, mime, l);
    if NoFlag(f) {
      assert r == [] + [] + [] + [] + [] + [] + [] + [Fallback(l.fallbackName, mime)];
    } else {
      assert exists b :: b in r && !b.Fallback? by {
        if f.image { assert Drawn(Image(src, l.imageAlt), f, false, src, mime, l); }
        else if f.video { assert Drawn(Video(src, mime), f, false, src, mime, l); }
        else if f.audio { assert Drawn(Audio(src, mime), f, false, src, mime, l); }
        else if f.pdf { assert Drawn(Pdf(src, l.pdfTitle), f, false, src, mime, l); }
        else if f.zip { assert Drawn(Zip(l.zipName), f, false, src, mime, l); }
        else if f.csv { assert Drawn(Csv(l.csvName), f, false, src, mime, l); }
        else { assert Drawn(Excel(l.excelName), f, false, src, mime, l); }
      }
    }
  }

  /** The fallback block, drawn when no flag holds, is then the only block. */
  lemma DrawFallbackIff(f: Flags, src: string, mime: string, l: Labels)
    ensures (exists b :: b in Draw(f, NoFlag(f), src, mime, l) && KindOf(b) == FallbackKind) <==> NoFlag(f)
    ensures NoFlag(f) ==> Draw(f, NoFlag(f), src, mime, l) == [Fallback(l.fallbackName, mime)]
  {
    DrawShowsFlags(f, NoFlag(f), src, mime, l, FallbackKind);
    DrawNeverEmpty(f, src, mime, l);
  }

  /** The body of `TokenPreview`. */
  function Render(t: Token): seq<Block> {
    var f := Classify(t.kind, t.url);
    Draw(f, NoFlag(f), t.url, t.kind,
         Labels(t.fileName + " Preview", t.fileName + " Preview", t.fileName, t.fileName, t.fileName, t.fileName))
  }

  /** Each kind of block appears exactly when its flag holds; the fallback exactly when none of the seven does. */
  lemma RenderShowsFlags(t: Token, k: Kind)
    ensures (exists b :: b in Render(t) && KindOf(b) == k) <==>
      FlagOf(Classify(t.kind, t.url), NoFlag(Classify(t.kind, t.url)), k)
  {
    var f := Classify(t.kind, t.url);
    DrawShowsFlags(f, NoFlag(f), t.url, t.kind,
      Labels(t.fileName + " Preview", t.fileName + " Preview", t.fileName, t.fileName, t.fileName, t.fileName), k);
  }

  /** The fallback, showing the name and the MIME type, is drawn exactly when none of the seven flags holds. */
  lemma FallbackIffNoFlag(t: Token)
    ensures (exists b :: b in Render(t) && KindOf(b) == FallbackKind) <==> NoFlag(Classify(t.kind, t.url))
    ensures NoFlag(Classify(t.kind, t.url)) ==> Render(t) == [Fallback(t.fileName, t.kind)]
  {
    DrawFallbackIff(Classify(t.kind, t.url), t.url, t.kind,
      Labels(t.fileName + " Preview", t.fileName + " Preview", t.fileName, t.fileName, t.fileName, t.fileName));
  }

  /** An `.ogg` url is both a video and an audio file, so both players are drawn. */
  lemma OggIsVideoAndAudio(t: Token)
    requires EndsWithIgnoreCase(t.url, ".ogg")
    ensures Video(t.url, t.kind) in Render(t) && Audio(t.url, t.kind) in Render(t)
  {
    var f := Classify(t.kind, t.url);
    assert f.video && f.audio;
    var l := Labels(t.fileName + " Preview", t.fileName + " Preview", t.fileName, t.fileName, t.fileName, t.fileName);
    DrawMembers(f, NoFlag(f), t.url, t.kind, l);
  }

  /** The flags are independent: an `image/…` type with a url ending in `.pdf` draws both previews. */
  lemma ImageTypeWithPdfUrl(t: Token)
    requires StartsWith(t.kind, "image/") && EndsWithIgnoreCase(t.url, ".pdf")
    ensures Image(t.url, t.fileName + " Preview") in Render(t) && Pdf(t.url, t.fileName + " Preview") in Render(t)
  {
    var f := Classify(t.kind, t.url);
    assert f.image && f.pdf;
    var l := Labels(t.fileName + " Preview", t.fileName + " Preview", t.fileName, t.fileName, t.fileName, t.fileName);
    DrawMembers(f, NoFlag(f), t.url, t.kind, l);
  }
}
