/**
 * `truncateFilename` (components/TruncateText.ts): a name whose part before the last `.` is longer
 * than ten characters keeps its first five characters, then `...`, then the extension, dot included.
 */
module TruncateText {
  import opened Wrappers
  import opened Strings

  function TruncateFilename(filename: string): string {
    match LastIndexOf(filename, '.')
    case None => filename
    case Some(d) =>
      var extension := filename[d..];
      var baseName := filename[..d];
      if |baseName| <= 10 then filename else baseName[..5] + "..." + extension
  }

  /** A name without a dot is returned as it is. */
  lemma NoDotUnchanged(filename: string)
    requires '.' !in filename
    ensures TruncateFilename(filename) == filename
  {
  }

  /** A base name (the text before the last dot) of at most ten characters leaves the name as it is. */
  lemma ShortBaseUnchanged(filename: string, d: nat)
    requires d < |filename| && filename[d] == '.' && '.' !in filename[d + 1..]
    requires d <= 10
    ensures TruncateFilename(filename) == filename
  {
    LastDot(filename, d);
  }

  /**
   * A longer base name is cut to its first five characters followed by `...` and the extension from
   * the last dot on; the extension is a suffix of the result, whose length is 8 plus the extension's and
   * so shorter than the name.
   */
  lemma LongBaseTruncated(filename: string, d: nat)
    requires d < |filename| && filename[d] == '.' && '.' !in filename[d + 1..]
    requires d > 10
    ensures TruncateFilename(filename) == filename[..5] + "..." + filename[d..]
    ensures EndsWith(TruncateFilename(filename), filename[d..])
    ensures |TruncateFilename(filename)| == 8 + |filename[d..]| < |filename|
  {
    LastDot(filename, d);
    var r := TruncateFilename(filename);
    assert filename[..d][..5] == filename[..5];
    assert r[|r| - |filename[d..]|..] == filename[d..];
  }

  /** `d` is the last dot exactly when `lastIndexOf` finds it. */
  lemma LastDot(filename: string, d: nat)
    requires d < |filename| && filename[d] == '.' && '.' !in filename[d + 1..]
    ensures LastIndexOf(filename, '.') == Some(d)
  {
    forall k | d < k < |filename| ensures filename[k] != '.' {
      assert filename[k] == filename[d + 1..][k - d - 1];
    }
    LastIndexOfUnique(filename, '.', d);
  }

  /** Truncating twice is truncating once: a truncated name has an eight-character base. */
  lemma TruncateIdempotent(filename: string)
    ensures TruncateFilename(TruncateFilename(filename)) == TruncateFilename(filename)
  {
    var r := TruncateFilename(filename);
    match LastIndexOf(filename, '.')
    case None =>
    case Some(d) =>
      if d > 10 {
        var ext := filename[d..];
        assert r == filename[..d][..5] + "..." + ext;
        assert |r| == 8 + |ext|;
        assert r[8] == ext[0] == '.';
        forall k | 8 < k < |r| ensures r[k] != '.' {
          assert r[k] == ext[k - 8] == filename[d + k - 8];
        }
        LastIndexOfUnique(r, '.', 8);
        assert r[..8] == filename[..5] + "...";
      }
  }

  /** The dot of the extension is kept, so four dots appear in a row. */
  lemma KeepsTheExtensionDot()
    ensures TruncateFilename("presentation_slides_q4.pptx") == "prese....pptx"
  {
    var f := "presentation_slides_q4.pptx";
    assert f[22] == '.' && f[23..] == "pptx";
    LongBaseTruncated(f, 22);
    assert f[..5] == "prese" && f[22..] == ".pptx";
  }
}
