# experience-fix in Dafny

This project models the logic behind the chat bubbles of the experience-fix front end. Those bubbles show a stored message together with its files and links. The project covers:

- the two content tokenizers:
  - the `<file-token>` marker scanner of the id-based bubble;
  - the `$` splitter of the special bubble;
- the icon tables, keyed by file extension;
- the MIME-type and url-suffix flags of the three preview components, and the blocks they draw;
- the first-match dispatch of the file preview;
- the label, favicon and media choices of the link card;
- the file-token chips of the editor, and their selection toggle;
- the editor's file bookkeeping:
  - the cumulative size and its unit;
  - which picked file the selection sits on;
  - the insertion of one token per file;
- `truncateFilename` and `formatTime`.

Each module follows one source file.

- **Imperative code stays imperative.** Each of these is proved equal to a recursive specification function, and each function's properties are proved as lemmas:
  - the scanning loop of `processContent`: `Bubble.ProcessContent`;
  - the `forEach` of `renderContent`: `BubbleSpecial.RenderContent`;
  - the nested loops of `onSelectionUpdate`: `TextBubble.OnSelectionUpdate`;
  - the loop of `insertFileTokens`: `TextBubble.Editor.InsertFileTokens`;
  - the `isSelected` toggle: `FileToken.FileToken`.
- **Pure code becomes functions.** This covers the switches, the flag expressions and the helpers.
- **Several flags can hold at once in the preview components.** They are therefore modelled as a `Flags` record. A block is drawn per flag that holds (`TokenPreview.Draw`). The flags are not treated as one exclusive tag.

Three behaviours a reader may not expect. The model follows the code in all three:

- `truncateFilename` keeps the dot together with the extension. So `presentation_slides_q4.pptx` becomes `prese....pptx`, with four dots.
- A marker whose id names no token leaves no literal text behind.
- The icon strings of BubbleSpecial.tsx (lines 120-141 and 160) hold the UTF-8 bytes of the emoji read as Windows-1252. So a zip file shows `ðŸ“¦` where Bubble.tsx shows 📦. The model writes each such entry as `Misdecoded(glyph)`.

## Model

| member | source | states |
|---|---|---|
| Bubble.ProcessContent | src/Bubble.tsx:115-151 | The scanning loop returns exactly `Segments(content)`. Every segment it returns is good: texts are non-empty and whitespace-collapsed; buttons are the first token with their id, active iff selected. |
| Bubble.StripParagraphTags | src/Bubble.tsx:117 | Removing `<p>`/`</p>` never lengthens the content. |
| Bubble.StripKeepsOtherCharacters | src/Bubble.tsx:117 | Every character other than `<`, `/`, `p`, `>` occurs as often after tag removal as before. |
| Bubble.StripWithoutTagsIsIdentity | src/Bubble.tsx:117 | Content without `<` is unchanged by tag removal. |
| Bubble.StripKeepsPlainPrefix | src/Bubble.tsx:117 | Text without `<` in front of the content is kept, in place and in order, whatever follows it. |
| Bubble.StripCutsTag | src/Bubble.tsx:117 | A `<p>` or `</p>` after `<`-free text is removed. The text before it stays in front, and the text after it is stripped in turn. |
| Bubble.TokenizeIsPartition | src/Bubble.tsx:119-150 | The flushed buffers and marker spans, concatenated in order, give back the pending text plus the rest of the input. |
| Bubble.StepIsPartition | src/Bubble.tsx:121-140 | One pass accounts for exactly the characters it moves past. |
| Bubble.TokenizeMarkersWellFormed | src/Bubble.tsx:121-136 | Every marker starts with `<file-token`, and its tag runs to the first `>`. Its span ends with `</file-token>`, or right after the `>` when none follows. |
| Bubble.TokenizeFindsEveryTag | src/Bubble.tsx:121-136 | No text chunk hides a marker: no `<file-token` starts strictly inside a chunk, and a chunk that starts with one has no `>` after it. So every recognisable tag is cut as a marker. |
| Bubble.TokenizeLeavesNoTagInText | src/Bubble.tsx:121-136 | The same, read off the pieces alone: inside each chunk, judged on the text from it to the end, no `<file-token` starts after its first character, and one at its start has no `>` after it. |
| Bubble.MarkerWellFormed | src/Bubble.tsx:127-136 | The marker cut at a recognised opening tag is well formed, as above. |
| Bubble.ResumeIndexCases | src/Bubble.tsx:134-136 | Scanning resumes after the first `</file-token>` past the `>`. It resumes right after the `>` exactly when no closing tag follows (the corrected behaviour). |
| Bubble.TagId | src/Bubble.tsx:129-130 | A found id is non-empty, quote-free, and occurs as `id="X"` in the tag. |
| Bubble.IdMatchFrom | src/Bubble.tsx:129-130 | The id found is the leftmost match of `id="…"`, and `None` means no position matches. |
| Bubble.TagIdFindsAnId | src/Bubble.tsx:129-130 | Whenever `id="X"` with a non-empty, quote-free X occurs, an id is found. |
| Bubble.FindToken | src/Bubble.tsx:93-95 | Returns the first token with the id, or `None` exactly when no token has it. |
| Bubble.MarkerElements | src/Bubble.tsx:130-133 | A marker yields at most one segment, a button. It yields one iff its tag has an id that some token carries. The button is the first token with that id, active iff selected. The span's own text never shows. |
| Bubble.RenderedSegmentsGood | src/Bubble.tsx:53-113 | Every rendered text is non-empty and collapsed. Every button is the first token with its id, active iff it has the selected id. |
| Bubble.AtMostOneSegmentPerPiece | src/Bubble.tsx:53-95 | Each piece yields at most one segment. Every text segment is the collapsed text of a flushed buffer. |
| Bubble.ActiveButtonsShowSelected | src/Bubble.tsx:102 | Every highlighted button shows the first token whose id is the selected id. |
| Bubble.InitialSelection | src/Bubble.tsx:38-40 | A selection exists iff there are tokens, and it is then `tokens[0]`. |
| Bubble.StepAt | src/Bubble.tsx:121-140 | Every pass of the corrected loop body moves `i` strictly forward (the termination fix). |
| BubbleAsWritten.NextIndex | src/Bubble.tsx:134-136 | As written, a pass can only move `i` back by setting it to 12, which is -1 + 13. |
| BubbleAsWritten.AgreesWhenClosed | src/Bubble.tsx:134-136 | The loop as written and the corrected pass differ only where no `</file-token>` follows the marker. |
| BubbleAsWritten.UnclosedMarkerResets | src/Bubble.tsx:134-136 | An unclosed `<file-token…>` at index ≥ 12 sends `i` back to 12. |
| BubbleAsWritten.ResetLoopHangs | src/Bubble.tsx:120-146 | Plain text up to a marker that resets `i` to 12 makes the loop run forever. |
| BubbleAsWritten.UnclosedMarkerHangs | src/Bubble.tsx:120-146 | For every `<`-free prefix of ≥ 12 characters followed by `<file-token>`, the loop never stops. |
| BubbleAsWritten.RunAsWritten | src/Bubble.tsx:120-150 | The loop as written, run with a step budget, produces segments iff it reaches the end of the content within the budget. |
| BubbleAsWritten.RunOverPlainText | src/Bubble.tsx:141-150 | As written, text with no `<` is gathered into one text segment. |
| BubbleAsWritten.AsWrittenRereadsTag | src/Bubble.tsx:127-136 | For any `<`-free `u`, `<file-token id="a">` + `u` shows the button and then `id="a">` + `u` as written. The corrected pass shows the button and then `u`. |
| BubbleAsWritten.AsWrittenShowsTagText | src/Bubble.tsx:127-136 | On `<file-token id="a">hello` with token `a`, the code as written gives the button and the text `id="a">hello`. The corrected pass gives the button and `hello`. |
| BubbleAsWritten.CycleNeverStops | src/Bubble.tsx:120 | A loop that comes back to an earlier index never stops. |
| BubbleSpecial.RenderContent | src/BubbleSpecial.tsx:80-113 | The `forEach` with its `attachmentIndex` returns exactly `Render`. The placeholder is returned iff the content is empty. |
| BubbleSpecial.RenderContents | src/BubbleSpecial.tsx:87-109 | The attachment segments are the first min(#`$`, #attachments) attachments, in order, each once. The text segments are the non-empty parts, collapsed. |
| BubbleSpecial.LayoutAttached | src/BubbleSpecial.tsx:101-109 | After `n` parts, exactly `atts[..min(n, parts-1, atts)]` have been bound. |
| BubbleSpecial.LayoutTexts | src/BubbleSpecial.tsx:89-99 | After `n` parts, the texts are the collapsed non-empty parts among them. |
| BubbleSpecial.LayoutThrows | src/BubbleSpecial.tsx:102-109 | The first `n` parts throw iff one of them binds an attachment whose rendering throws, which is a LINK that the parser rejects at line 162. |
| BubbleSpecial.RenderThrows | src/BubbleSpecial.tsx:80-113 | The render throws iff the content is non-empty and a bound LINK's `url \|\| ""` does not parse. |
| BubbleSpecial.RenderAttachment | src/BubbleSpecial.tsx:145-221 | The attachment has no view (the render throws) iff it is a LINK whose `url \|\| ""` the parser rejects. |
| BubbleSpecial.AttachmentDispatch | src/BubbleSpecial.tsx:145-221 | LINK and FILE are buttons, active iff the content ids match. The other four types map to their fixed labels, TIMESTAMP carrying `startTime`. Any other type is an empty span. |
| BubbleSpecial.LinkWithoutUrlThrows | src/BubbleSpecial.tsx:162 | A LINK without a url throws under any parser that rejects the empty string. |
| BubbleSpecial.ButtonsActiveIffSelected | src/BubbleSpecial.tsx:155-172 | Every rendered button, LINK (line 155) or FILE (line 172), is active iff its content id equals the selection's. |
| BubbleSpecial.LayoutViews | src/BubbleSpecial.tsx:106-107 | Every attachment segment carries its own attachment's view. |
| BubbleSpecial.FileIconExtendsBubble | src/BubbleSpecial.tsx:115-143 | The entry chosen is Bubble.tsx's table plus `link`. The string shown is the garbled text of that glyph, never the glyph Bubble.tsx shows. |
| BubbleSpecial.Loaded | src/BubbleSpecial.tsx:60-69 | Data is stored only for a non-empty attachment array, and then the first attachment is selected. Otherwise the state is unchanged. |
| BubbleSpecial.LoadedConsistent | src/BubbleSpecial.tsx:60-69 | Loading keeps the selection among the stored attachments. |
| BubbleSpecial.ClickConsistent | src/BubbleSpecial.tsx:152-170 | Clicking a rendered button selects one of the stored attachments. |
| BubbleSpecial.PreviewToken | src/BubbleSpecial.tsx:237-244 | The preview is shown iff the selection has a truthy url. It passes that url, and a name that is never empty (`Unnamed File`). |
| BubbleSpecial.SelectedLinkPreviewsAsLink | src/BubbleSpecial.tsx:237-244 | A selected LINK with a url previews as a link. |
| Strings.CollapseAtRun | src/Bubble.tsx:59 | `replace(/\s+/g, " ")` turns a whitespace run between non-whitespace neighbours (or the ends) into exactly one space. The text on either side is collapsed on its own. |
| Records.SameContentIdCases | src/BubbleSpecial.tsx:155 | `selected?.content.id === a.content.id` holds iff there is a selection with the same id (two absent ids count as equal), or there is no selection and the attachment has no id. |
| Icons.ExtensionAfterLastDot | src/utils/getFileIcon.tsx:15 | The extension is the lowercased text after the last `.`. A name without a dot gives the whole lowercased name. |
| TruncateText.NoDotUnchanged | src/components/TruncateText.ts:3-4 | A name without `.` is unchanged. |
| TruncateText.ShortBaseUnchanged | src/components/TruncateText.ts:6-9 | A base of at most 10 characters leaves the name unchanged. |
| TruncateText.LongBaseTruncated | src/components/TruncateText.ts:6-11 | Otherwise the result is 5 base characters + `...` + the dotted extension. The extension is a suffix of the result, and the result's length is 8 + \|extension\|, below the input's. |
| TruncateText.LastDot | src/components/TruncateText.ts:3 | `lastIndexOf` finds the dot with no dot after it. |
| TruncateText.TruncateIdempotent | src/components/TruncateText.ts:3-11 | Truncating twice is the same as truncating once. |
| TruncateText.KeepsTheExtensionDot | src/components/TruncateText.ts:11 | `presentation_slides_q4.pptx` ↦ `prese....pptx`. |
| FileIcon.LinkWithUrlIsChain | src/utils/getFileIcon.tsx:18-31 | A LINK with a url gets the chain image whatever its name. The image is dark iff the content ids match and no transition is running. |
| FileIcon.LinkWithoutUrlFallsThrough | src/utils/getFileIcon.tsx:18-33 | A LINK without a url is classified by its name, like any other attachment. |
| FileIcon.AudioIcon | src/utils/getFileIcon.tsx:37-51 | mp3/wav/ogg get the audio image, blue iff selected and not transitioning. |
| FileIcon.OnlyLinkAndAudioDependOnSelection | src/utils/getFileIcon.tsx:52-72 | Every other icon ignores the selection and the transition. |
| FileIcon.ExtensionTable | src/utils/getFileIcon.tsx:33-72 | The table entry by entry, pictures included (jpg, jpeg, png, gif, heic). Unknown extensions get 📄, so the table is total. |
| TokenPreview.DrawShowsFlags | src/components/TokenPreview.tsx:27-94 | A block of each kind is drawn iff its flag holds. The fallback is drawn iff it is asked for. |
| TokenPreview.DrawNeverEmpty | src/components/TokenPreview.tsx:83-94 | With the fallback tied to "no flag", at least one block is drawn. The fallback is then alone. |
| TokenPreview.RenderShowsFlags | src/components/TokenPreview.tsx:11-94 | Each of the seven blocks appears iff its MIME test or case-insensitive suffix test holds. |
| TokenPreview.FallbackIffNoFlag | src/components/TokenPreview.tsx:83-94 | The fallback appears iff none of the seven flags holds, and it is then the only block. |
| TokenPreview.OggIsVideoAndAudio | src/components/TokenPreview.tsx:13-14 | An `.ogg` url draws both players. |
| TokenPreview.ImageTypeWithPdfUrl | src/components/TokenPreview.tsx:11-58 | An `image/…` type with a `.pdf` url draws both previews. |
| PreviewBox.RenderShowsFlags | src/components/TipTap/PreviewBox.tsx:85-96 | Each block appears iff its flag (lines 6-15) holds, and the fallback iff none does. |
| PreviewBox.NoFileOnlyFallback | src/components/TipTap/PreviewBox.tsx:2-15 | Without a file every flag is false, and only the empty fallback (lines 85-96) is drawn. |
| PreviewBox.StricterThanTokenPreview | src/components/TipTap/PreviewBox.tsx:6-15 | Every flag the editor preview raises, `TokenPreview` raises too for the same type and name. |
| PreviewBox.UpperCaseZipIsNotZip | src/components/TipTap/PreviewBox.tsx:10 | The name suffix is case-sensitive: `ARCHIVE.ZIP` is not a zip. |
| PreviewBox.PdfOnlyByType | src/components/TipTap/PreviewBox.tsx:9 | PDF is decided by the MIME type alone. |
| TokenPreviewSpecial.DisplayUrl | src/components/TokenPreviewSpecial.tsx:44-57 | `getDisplayUrl` never fails. On a parse error the hostname is the raw string and the origin is `""`. |
| TokenPreviewSpecial.LinkCardIff | src/components/TokenPreviewSpecial.tsx:33-60 | The link card is drawn iff `isLink` holds and the url is non-empty, and it is drawn first (line 135). |
| TokenPreviewSpecial.FileBlocksShowFlags | src/components/TokenPreviewSpecial.tsx:138-205 | Each file block appears iff its flag holds. The fallback appears iff none of the eight flags (`isLink` included) does. |
| TokenPreviewSpecial.LinkWithImageUrl | src/components/TokenPreviewSpecial.tsx:135-144 | A LINK with a `.png` url draws the link card and the image. |
| TokenPreviewSpecial.OggIsVideoAndAudio | src/components/TokenPreviewSpecial.tsx:21-24 | An `.ogg` url draws both players. |
| TokenPreviewSpecial.LinkCardContents | src/components/TokenPreviewSpecial.tsx:59-127 | The card links to the url and shows the parsed or raw hostname. Its preview is `s3Url` iff present, otherwise the globe. |
| RenderFilePreview.FirstMatch | src/components/RenderFilePreview.tsx:38-140 | Exactly one preview, by first match: image, video, audio, pdf (each needing a url), otherwise the box. |
| RenderFilePreview.MediaContents | src/components/RenderFilePreview.tsx:35-99 | The media previews show the url. The image's alt is the file name, and the video's type is `video/` + the extension. The audio player gets the file name and the formatted size. |
| RenderFilePreview.NoUrlFallsThrough | src/components/RenderFilePreview.tsx:38-140 | Without a url, every token falls through to the box. |
| RenderFilePreview.BoxParameters | src/components/RenderFilePreview.tsx:104-140 | The box is zip → 📦 Archive, csv → 📊 CSV, excel → 📑 Excel, otherwise 📎 File. `Open …` appears iff the url is truthy, and the size line iff the size text is non-empty. |
| RenderLinkPreview.LabelChoice | src/components/RenderLinkPreview.tsx:18-51 | The hostname is that of `url \|\| ""`. The label is `Visit Tweet` iff it contains `twitter.com`. |
| RenderLinkPreview.FaviconChoice | src/components/RenderLinkPreview.tsx:26-39 | After an error, the favicon is the fallback image. Otherwise a non-empty metadata favicon is used. Any favicon other than the fallback is the metadata's. |
| RenderLinkPreview.MediaBlock | src/components/RenderLinkPreview.tsx:60-75 | The media block is shown iff the media url is non-empty. It is opened with alt `<hostname> Preview`. |
| RenderLinkPreview.UnparsedUrlShownRaw | src/components/RenderLinkPreview.tsx:18 | With the special preview's `getDisplayUrl`, an unparsable url is shown as it is. |
| RenderLinkPreview.TweetLabel | src/components/RenderLinkPreview.tsx:51 | A `mobile.twitter.com` host gets `Visit Tweet`. |
| TipTapFileToken.IconTable | src/components/TipTap/FileToken.tsx:19-41 | The node view's table entry by entry, defaulting to 📄. |
| TipTapFileToken.SameIconAsBubble | src/components/TipTap/FileToken.tsx:13-41 | The node view picks the same icon as Bubble.tsx for every file name. |
| TipTapFileToken.StyleOnlyFromSelected | src/components/TipTap/FileToken.tsx:49-51 | The style follows `selected` alone. |
| FileToken.AgreesWithTipTap | src/components/FileToken.tsx:17-45 | The named entries equal the node view's. Unknown extensions get 📎 here and 📄 there. |
| FileToken.FileToken.constructor | src/components/FileToken.tsx:10 | A chip starts unselected. |
| FileToken.FileToken.HandleToggleSelect | src/components/FileToken.tsx:12-14 | A click negates `isSelected`. |
| FileToken.FileToken.SelectedClassIff | src/components/FileToken.tsx:53-58 | Container and name carry `selected` iff the chip is selected. |
| FileToken.ToggleTwice | src/components/FileToken.tsx:12-14 | Two clicks restore the selection. |
| TextBubble.CumulativeFileSizeBounds | src/components/TipTap/TextBubble.tsx:40-45 | The total of no files is 0, and every file's size counts in full. |
| TextBubble.CumulativeFileSizeAppend | src/components/TipTap/TextBubble.tsx:40-45 | The total over a concatenation is the sum of the totals. |
| TextBubble.SizeUnitThreshold | src/components/TipTap/TextBubble.tsx:30-37 | The unit is GB iff the size is at least 1024³ bytes. |
| TextBubble.OnSelectionUpdate | src/components/TipTap/TextBubble.tsx:88-114 | The nested loops return `LastSelected`, or `null` when no file matches. |
| TextBubble.LastSelectedIsLast | src/components/TipTap/TextBubble.tsx:95-113 | A file is found iff some file has a node at `from ≤ pos ≤ to`, and the one found is the last such file. |
| TextBubble.Editor.InsertFileTokens | src/components/TipTap/TextBubble.tsx:117-141 | Each file, in order, adds its token node and one space at the cursor, when the editor exists. `{file, id}` is appended to `selectedFiles`. Each insertion fires `onUpdate` (lines 73-79), so after a non-empty insertion the editor is non-empty and the flag is cleared. Otherwise the flag is unchanged. Flag-equals-emptiness is preserved. |
| TextBubble.TokensForShape | src/components/TipTap/TextBubble.tsx:124-135 | The inserted content has 2·\|files\| nodes: the k-th file's token at 2k and a space at 2k+1. |
| TextBubble.Entries | src/components/TipTap/TextBubble.tsx:137-140 | One entry per file, pairing each file with its id, in order. |
| TextBubble.InsertKeepsEarlier | src/components/TipTap/TextBubble.tsx:137-140 | The list grows by \|files\| and keeps its earlier entries. |
| TextBubble.Editor.constructor | src/components/TipTap/index.tsx:15 | The editor starts with the empty paragraph of TextBubble.tsx:70-72 and the flag `useState(true)`. So it starts empty and disabled, with flag-equals-emptiness holding. |
| TextBubble.Editor.OnUpdate | src/components/TipTap/TextBubble.tsx:73-79 | After an update, the disabled flag is true iff the editor is empty. |
| TextBubble.AddFilesWhileEditable | src/components/TipTap/TextBubble.tsx:196 | The "Add files" button is enabled iff the editor is editable (line 81), that is, iff step < 1. |
| AudioPlayer.FormatTimeFields | src/components/AudioPlayer.tsx:36-42 | The seconds field has two digits and reads as ⌊t mod 60⌋ in 00..59. The minutes field has at least two digits (three from 100 minutes) and reads as ⌊t/60⌋. |
| AudioPlayer.ReadFormatTime | src/components/AudioPlayer.tsx:36-42 | Reading a formatted time back gives the time. |
| AudioPlayer.ValueOfDigits | src/components/AudioPlayer.tsx:39-41 | `toString` of a natural number reads back as the number. |
| AudioPlayer.ValueOfPadded | src/components/AudioPlayer.tsx:39-41 | `padStart` with `0` keeps the value. |
| AudioPlayer.PadStart | src/components/AudioPlayer.tsx:39-41 | `padStart` keeps the string as a suffix, pads only in front, and reaches the width. |
| AudioPlayer.InitialIsZero | src/components/AudioPlayer.tsx:21-22 | The initial `"00:00"` is the format of zero seconds. |

## Left out

- **Network and async.** The axios fetches are not modelled: a response is a parameter of `BubbleSpecial.Loaded`, and Bubble.tsx's fetch is represented only by `Bubble.InitialSelection`. The services module and the link generator are also not part of this model.
- **DOM, React and editor-library plumbing** are not part of this model. This covers JSX structure, CSS class strings, keys, `dangerouslySetInnerHTML`, the TipTap node configuration, drag-and-drop listeners, the image modal, routing and the static demo pages.
  - The editor document is reduced to the nodes `onSelectionUpdate` reads: a position and an optional `placeholderId`.
  - The insertion point is a split of the content into `before` and `after` the cursor.
  - `editor.isEmpty` is "only empty text around the cursor".
- **`return false` inside `descendants`.** It stops the walk below a matching node. In the model every node is visited. This cannot change the result: a match below a matching node selects the same file again.
- **Foreign calls become parameters.** `new URL(...)` is a parser `string -> Option<UrlParts>`, and `getDisplayUrl` is a function parameter of `RenderLinkPreview`. `RenderFilePreview` takes `formatFileSize` as a parameter. `URL.createObjectURL` becomes the object-url argument of `PreviewBox.Render`. The `Math.random` placeholder ids are a sequence of ids given to `InsertFileTokens`. The wavesurfer audio player is also not modelled.
- **Floating point.** The `toFixed(2)` numerals of `formatFileSize` are left out; only the GB/MB unit choice is modelled. `formatTime` is modelled over whole seconds, which leaves out the `Math.floor` of fractional times. The attachment numbers `size`, `width`, `height` and `startTime` are modelled as integers. So a fractional TIMESTAMP such as `2.5s` (src/BubbleSpecial.tsx:206) is not represented.
- **String encoding.** `toLowerCase` and the `/i` suffix tests are modelled as ASCII case folding. Lengths count characters, not UTF-16 code units. `\s` in the whitespace collapse is JavaScript's full set: the ASCII whitespace, U+00A0, U+1680, U+2000–U+200A, U+2028, U+2029, U+202F, U+205F, U+3000 and U+FEFF (`Strings.IsSpace`).
- **JavaScript values.** `undefined` and `null` become `Option`. The `src` of an absent url, which React leaves off the element, is modelled as `""`.
- AudioPlayer.FormatTimeFields: stated for whole numbers of seconds, because the wavesurfer times are floats and those are left out.
- BubbleSpecial.FileIcon: the garbled text is represented by `Misdecoded(glyph)`, which names the glyph whose bytes it holds. Its characters are not spelled out. The chain span of the LINK button (line 160) is not part of `LinkButton`.
- TextBubble.Editor.OnUpdate: uses the reduced document above, so it does not capture TipTap's notion of emptiness exactly.

## Findings

| source | as written | input that shows it | evidently intended | confidence | as-written member | corrected member |
|---|---|---|---|---|---|---|
| src/Bubble.tsx:134-136 | `i = content.indexOf("</file-token>", closeIndex) + 13`. When no closing tag follows the opening tag, `indexOf` returns -1 and `i` becomes 12. If that marker is at index 12 or later, scanning starts again at 12. When the text between index 12 and the marker holds no other marker, the same marker is reached again, so the loop never ends. | `"aaaaaaaaaaaa<file-token>"`, or any `<`-free text of 12 or more characters followed by `<file-token>` | Resume after the closing tag when there is one, and otherwise right after the opening tag's `>`. Every pass then moves `i` forward and the loop ends. | not executed | BubbleAsWritten.UnclosedMarkerHangs | Bubble.StepAt |
| src/Bubble.tsx:134-136 | The same assignment when the unclosed marker starts before index 12. The loop ends, but it resumes at 12 inside or after the marker and shows the tag's attributes as text. The button has already been added at lines 130-133. | `<file-token id="a">hello` with a token `a`: as written, the button and then the text `id="a">hello`; corrected, the button and then `hello` | Skip the whole marker, as the comment at line 134 says. Without a closing tag, the marker ends at its `>`. The correction also changes this terminating output: it no longer leaks markup. | not executed | BubbleAsWritten.AsWrittenShowsTagText | Bubble.ResumeIndexCases |
