/** The icons the decision tables choose between, and the extension rule they share. */
module Icons {
  import opened Strings

  datatype Icon =
    | Package                // 📦
    | Music                  // 🎵
    | Film                   // 🎥
    | Page                   // 📄
    | BarChart               // 📊
    | Bookmark               // 📑
    | Chain                  // 🔗
    | Paperclip              // 📎
    | ChainImage(dark: bool) // chain.svg when dark, whitechain.svg otherwise
    | MusicImage(blue: bool) // blueMusicIcon.svg when blue, musicIcon.svg otherwise
    | VideoImage             // videoIcon.svg
    | PictureImage           // imageIcon.svg
    /** The UTF-8 bytes of `glyph` read back as Windows-1252 text, such as `ðŸ“¦` for 📦. */
    | Misdecoded(glyph: Icon)

  /** `fileName.split(".").pop()?.toLowerCase()`. */
  function Extension(fileName: string): string {
    Lower(LastPart(fileName, '.'))
  }

  /** The extension is the lowercased text after the last `.`, or the whole lowercased name without one. */
  lemma ExtensionAfterLastDot(fileName: string)
    ensures LastIndexOf(fileName, '.').None? ==> Extension(fileName) == Lower(fileName)
    ensures LastIndexOf(fileName, '.').Some? ==>
      Extension(fileName) == Lower(fileName[LastIndexOf(fileName, '.').value + 1..])
  {
    LastPartAfterLastSep(fileName, '.');
  }
}
