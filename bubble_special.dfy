/**
 * The special bubble (BubbleSpecial.tsx). `renderContent` splits the message at every `$` and puts
 * the k-th attachment after the k-th part while attachments remain; the last part gets none. Each
 * attachment becomes a button (LINK, FILE), a fixed label, or an empty span, by its type. A LINK
 * button shows `new URL(url || "").hostname`; the URL parser enters as a parameter, and where it
 * rejects the string the whole render throws.
 */
module BubbleSpecial {
  import opened Wrappers
  import opened Strings
  import opened Records
  import opened Url
  import opened Icons
  import Bubble
  import TokenPreviewSpecial

  // ---------------------------------------------------------------- icons

  /**
   * The nested `getFileIcon` of BubbleSpecial.tsx. Its string literals hold the UTF-8 bytes of the
   * emoji decoded as Windows-1252, so each entry shows the garbled text of the intended glyph.
   */
  function FileIcon(fileName: string): Icon {
    match Extension(fileName)
    case "zip" => Misdecoded(Package)
    case "rar" => Misdecoded(Package)
    case "mp3" => Misdecoded(Music)
    case "wav" => Misdecoded(Music)
    case "ogg" => Misdecoded(Music)
    case "mp4" => Misdecoded(Film)
    case "avi" => Misdecoded(Film)
    case "mkv" => Misdecoded(Film)
    case "pdf" => Misdecoded(Page)
    case "doc" => Misdecoded(Page)
    case "docx" => Misdecoded(Page)
    case "xls" => Misdecoded(BarChart)
    case "xlsx" => Misdecoded(BarChart)
    case "csv" => Misdecoded(Bookmark)
    case "link" => Misdecoded(Chain)
    case _ => Misdecoded(Page)
  }

  /**
   * The entry chosen is the one of Bubble.tsx, with one more entry, `link`; what is shown is never
   * Bubble.tsx's glyph but its garbled text.
   */
  lemma FileIconExtendsBubble(fileName: string)
    ensures FileIcon(fileName) == Misdecoded(if Extension(fileName) == "link" then Chain else Bubble.FileIcon(fileName))
    ensures FileIcon(fileName) != Bubble.FileIcon(fileName)
  {
  }

  // ---------------------------------------------------------------- one attachment

  datatype View =
    | LinkButton(hostname: string, active: bool)
    | FileButton(icon: Icon, name: Option<string>, active: bool)
    | SystemMessageLabel
    | UserLabel
    | TimestampLabel(startTime: Option<int>)
    | ReferenceLabel
    | EmptySpan

  predicate IsButton(v: View) {
    v.LinkButton? || v.FileButton?
  }

  /** `renderAttachment`; `None` where `new URL` throws on a LINK's url. */
  function RenderAttachment(a: Attachment, selected: Option<Attachment>, parse: Parser): (r: Option<View>)
    ensures r.None? <==> a.kind == Link && parse(OrElse(a.content.url, "")).None?
  {
    var active := SameContentId(selected, a);
    match a.kind
    case Link =>
      (match parse(OrElse(a.content.url, ""))
       case None => None
       case Some(u) => Some(LinkButton(u.hostname, active)))
    case File => Some(FileButton(FileIcon(OrElse(a.content.name, "")), a.content.name, active))
    case SystemMessage => Some(SystemMessageLabel)
    case User => Some(UserLabel)
    case Timestamp => Some(TimestampLabel(a.content.startTime))
    case Reference => Some(ReferenceLabel)
    case Unknown(_) => Some(EmptySpan)
  }

  /**
   * LINK and FILE become buttons, active exactly when the attachment has the selected one's content
   * id; the other four types become their labels, TIMESTAMP showing `startTime`; any other type an
   * empty span.
   */
  lemma AttachmentDispatch(a: Attachment, selected: Option<Attachment>, parse: Parser)
    requires RenderAttachment(a, selected, parse).Some?
    ensures var v := RenderAttachment(a, selected, parse).value;
      && (IsButton(v) <==> a.kind == Link || a.kind == File)
      && (IsButton(v) ==> (v.active <==> SameContentId(selected, a)))
      && (v.LinkButton? ==> v.hostname == parse(OrElse(a.content.url, "")).value.hostname)
      && (v.FileButton? ==> v.icon == FileIcon(OrElse(a.content.name, "")) && v.name == a.content.name)
      && (v == SystemMessageLabel <==> a.kind == SystemMessage)
      && (v == UserLabel <==> a.kind == User)
      && (v.TimestampLabel? <==> a.kind == Timestamp)
      && (v.TimestampLabel? ==> v.startTime == a.content.startTime)
      && (v == ReferenceLabel <==> a.kind == Reference)
      && (v == EmptySpan <==> a.kind.Unknown?)
  {
  }

  /** A LINK without a url asks `new URL("")`, which every conforming parser rejects: the render throws. */
  lemma LinkWithoutUrlThrows(a: Attachment, selected: Option<Attachment>, parse: Parser)
    requires RejectsEmpty(parse) && a.kind == Link && !Truthy(a.content.url)
    ensures RenderAttachment(a, selected, parse).None?
  {
  }

  // ---------------------------------------------------------------- the `$` splitter

  datatype Segment = Text(s: string) | Att(attachment: Attachment, view: View)

  /** What `renderContent` gives: the placeholder, the elements, or the TypeError of `new URL`. */
  datatype Rendered = NoContent | Elements(segments: seq<Segment>) | Throws

  function Min(a: int, b: int): int {
    if a <= b then a else b
  }

  /** The text element of a part: none for an empty part, else the part with whitespace runs collapsed. */
  function PartText(part: string): seq<Segment> {
    if part != "" then [Text(Collapse(part))] else []
  }

  /** Part `j` of `n` binds an attachment: it is not the last part and attachments remain. */
  predicate Binds(j: nat, n: nat, atts: seq<Attachment>) {
    j + 1 < n && j < |atts|
  }

  /** The elements of part `j`: its text, then its attachment when it binds one. */
  function PartElements(parts: seq<string>, j: nat, atts: seq<Attachment>, selected: Option<Attachment>, parse: Parser): Option<seq<Segment>>
    requires j < |parts|
  {
    if Binds(j, |parts|, atts) then
      match RenderAttachment(atts[j], selected, parse)
      case None => None
      case Some(v) => Some(PartText(parts[j]) + [Att(atts[j], v)])
    else Some(PartText(parts[j]))
  }

  /** The elements of the first `n` parts, or `None` once one of them throws. */
  function Layout(parts: seq<string>, n: nat, atts: seq<Attachment>, selected: Option<Attachment>, parse: Parser): Option<seq<Segment>>
    requires n <= |parts|
  {
    if n == 0 then Some([])
    else
      match Layout(parts, n - 1, atts, selected, parse)
      case None => None
      case Some(e) =>
        match PartElements(parts, n - 1, atts, selected, parse)
        case None => None
        case Some(x) => Some(e + x)
  }

  function Render(content: string, atts: seq<Attachment>, selected: Option<Attachment>, parse: Parser): Rendered {
    if content == "" then NoContent
    else
      var parts := Split(content, '$');
      match Layout(parts, |parts|, atts, selected, parse)
      case None => Throws
      case Some(e) => Elements(e)
  }

  lemma {:induction false} LayoutStaysThrown(parts: seq<string>, m: nat, n: nat, atts: seq<Attachment>, selected: Option<Attachment>, parse: Parser)
    requires m <= n <= |parts| && Layout(parts, m, atts, selected, parse).None?
    ensures Layout(parts, n, atts, selected, parse).None?
    decreases n
  {
    if m < n {
      LayoutStaysThrown(parts, m, n - 1, atts, selected, parse);
    }
  }

  /** A part that binds no attachment adds its text. */
  lemma LayoutTextStep(parts: seq<string>, j: nat, atts: seq<Attachment>, selected: Option<Attachment>, parse: Parser, e: seq<Segment>)
    requires j < |parts| && !Binds(j, |parts|, atts) && Layout(parts, j, atts, selected, parse) == Some(e)
    ensures Layout(parts, j + 1, atts, selected, parse) == Some(e + PartText(parts[j]))
  {
  }

  /** A part that binds an attachment adds its text and then the attachment's view, or throws. */
  lemma LayoutBindStep(parts: seq<string>, j: nat, atts: seq<Attachment>, selected: Option<Attachment>, parse: Parser, e: seq<Segment>)
    requires j < |parts| && Binds(j, |parts|, atts) && Layout(parts, j, atts, selected, parse) == Some(e)
    ensures RenderAttachment(atts[j], selected, parse).Some? ==>
      Layout(parts, j + 1, atts, selected, parse) == Some(e + (PartText(parts[j]) + [Att(atts[j], RenderAttachment(atts[j], selected, parse).value)]))
    ensures RenderAttachment(atts[j], selected, parse).None? ==> Layout(parts, |parts|, atts, selected, parse).None?
  {
    var v := RenderAttachment(atts[j], selected, parse);
    if v.None? {
      assert PartElements(parts, j, atts, selected, parse).None?;
      LayoutStaysThrown(parts, j + 1, |parts|, atts, selected, parse);
    } else {
      assert PartElements(parts, j, atts, selected, parse) == Some(PartText(parts[j]) + [Att(atts[j], v.value)]);
    }
  }

  /** `renderContent(content, attachments)`: the `forEach` over the parts with its `attachmentIndex`. */
  method RenderContent(content: string, attachments: seq<Attachment>, selected: Option<Attachment>, parse: Parser)
    returns (r: Rendered)
    ensures r == Render(content, attachments, selected, parse)
    ensures r.NoContent? <==> content == ""
  {
    if content == "" {
      return NoContent;
    }
    var elements: seq<Segment> := [];
    var attachmentIndex := 0;
    var contentParts := Split(content, '$');
    for index := 0 to |contentParts|
      invariant index < |contentParts| ==> attachmentIndex == Min(index, |attachments|)
      invariant Layout(contentParts, index, attachments, selected, parse) == Some(elements)
    {
      ghost var before := elements;
      var part := contentParts[index];
      if part != "" {
        elements := elements + [Text(Collapse(part))];
      }
      assert elements == before + PartText(part);
      if index < |contentParts| - 1 && attachmentIndex < |attachments| {
        LayoutBindStep(contentParts, index, attachments, selected, parse, before);
        var attachment := attachments[attachmentIndex];
        var view := RenderAttachment(attachment, selected, parse);
        if view.None? {
          return Throws;
        }
        elements := elements + [Att(attachment, view.value)];
        assert elements == before + (PartText(part) + [Att(attachment, view.value)]);
        attachmentIndex := attachmentIndex + 1;
      } else {
        LayoutTextStep(contentParts, index, attachments, selected, parse, before);
      }
    }
    return Elements(elements);
  }

  // ---------------------------------------------------------------- what the render contains

  /** The attachments of the attachment segments, in order. */
  function Attached(segs: seq<Segment>): seq<Attachment> {
    if segs == [] then []
    else (if segs[0].Att? then [segs[0].attachment] else []) + Attached(segs[1..])
  }

  /** The texts of the text segments, in order. */
  function Texts(segs: seq<Segment>): seq<string> {
    if segs == [] then []
    else (if segs[0].Text? then [segs[0].s] else []) + Texts(segs[1..])
  }

  /** The non-empty parts, whitespace-collapsed, in order. */
  function CollapsedParts(parts: seq<string>): seq<string> {
    if parts == [] then []
    else CollapsedParts(parts[..|parts| - 1]) + (if parts[|parts| - 1] != "" then [Collapse(parts[|parts| - 1])] else [])
  }

  lemma {:induction false} AttachedAppend(a: seq<Segment>, b: seq<Segment>)
    ensures Attached(a + b) == Attached(a) + Attached(b)
  {
    if a == [] {
      assert a + b == b;
    } else {
      var h := if a[0].Att? then [a[0].attachment] else [];
      assert (a + b)[0] == a[0] && (a + b)[1..] == a[1..] + b;
      calc {
        Attached(a + b);
        h + Attached(a[1..] + b);
        { AttachedAppend(a[1..], b); }
        h + (Attached(a[1..]) + Attached(b));
        (h + Attached(a[1..])) + Attached(b);
      }
    }
  }

  lemma {:induction false} TextsAppend(a: seq<Segment>, b: seq<Segment>)
    ensures Texts(a + b) == Texts(a) + Texts(b)
  {
    if a == [] {
      assert a + b == b;
    } else {
      var h := if a[0].Text? then [a[0].s] else [];
      assert (a + b)[0] == a[0] && (a + b)[1..] == a[1..] + b;
      calc {
        Texts(a + b);
        h + Texts(a[1..] + b);
        { TextsAppend(a[1..], b); }
        h + (Texts(a[1..]) + Texts(b));
        (h + Texts(a[1..])) + Texts(b);
      }
    }
  }

  /** The attachments and texts one part contributes. */
  lemma PartContributes(parts: seq<string>, j: nat, atts: seq<Attachment>, selected: Option<Attachment>, parse: Parser)
    requires j < |parts| && PartElements(parts, j, atts, selected, parse).Some?
    ensures Attached(PartElements(parts, j, atts, selected, parse).value) ==
      if Binds(j, |parts|, atts) then [atts[j]] else []
    ensures Texts(PartElements(parts, j, atts, selected, parse).value) ==
      if parts[j] != "" then [Collapse(parts[j])] else []
  {
    var t := PartText(parts[j]);
    assert Attached(t) == [] && Texts(t) == (if parts[j] != "" then [Collapse(parts[j])] else []) by {
      if parts[j] != "" { assert t[1..] == []; }
    }
    if Binds(j, |parts|, atts) {
      var a := [Att(atts[j], RenderAttachment(atts[j], selected, parse).value)];
      assert a[1..] == [];
      AttachedAppend(t, a);
      TextsAppend(t, a);
    }
  }

  lemma TakeOneMore(s: seq<Attachment>, n: nat)
    requires 0 < n <= |s|
    ensures s[..n] == s[..n - 1] + [s[n - 1]]
  {
  }

  /** The first `n` parts carry the attachments bound so far, in declaration order, each once. */
  lemma {:induction false} LayoutAttached(parts: seq<string>, n: nat, atts: seq<Attachment>, selected: Option<Attachment>, parse: Parser)
    requires 1 <= |parts| && n <= |parts| && Layout(parts, n, atts, selected, parse).Some?
    ensures Attached(Layout(parts, n, atts, selected, parse).value) == atts[..Min(Min(n, |parts| - 1), |atts|)]
  {
    if n > 0 {
      LayoutAttached(parts, n - 1, atts, selected, parse);
      var e := Layout(parts, n - 1, atts, selected, parse).value;
      var x := PartElements(parts, n - 1, atts, selected, parse).value;
      AttachedAppend(e, x);
      PartContributes(parts, n - 1, atts, selected, parse);
      var m0 := Min(Min(n - 1, |parts| - 1), |atts|);
      var m := Min(Min(n, |parts| - 1), |atts|);
      if Binds(n - 1, |parts|, atts) {
        assert m0 == n - 1 && m == n;
        TakeOneMore(atts, n);
      } else {
        assert m == m0;
      }
    }
  }

  /** The first `n` parts carry their non-empty parts' texts, collapsed, in order. */
  lemma {:induction false} LayoutTexts(parts: seq<string>, n: nat, atts: seq<Attachment>, selected: Option<Attachment>, parse: Parser)
    requires n <= |parts| && Layout(parts, n, atts, selected, parse).Some?
    ensures Texts(Layout(parts, n, atts, selected, parse).value) == CollapsedParts(parts[..n])
  {
    if n > 0 {
      LayoutTexts(parts, n - 1, atts, selected, parse);
      var e := Layout(parts, n - 1, atts, selected, parse).value;
      var x := PartElements(parts, n - 1, atts, selected, parse).value;
      TextsAppend(e, x);
      PartContributes(parts, n - 1, atts, selected, parse);
      CollapsedPartsSnoc(parts, n);
    }
  }

  lemma CollapsedPartsSnoc(parts: seq<string>, n: nat)
    requires 0 < n <= |parts|
    ensures CollapsedParts(parts[..n]) ==
      CollapsedParts(parts[..n - 1]) + (if parts[n - 1] != "" then [Collapse(parts[n - 1])] else [])
  {
    assert parts[..n][..n - 1] == parts[..n - 1];
  }

  /** The first `n` parts throw exactly when one of them binds a LINK the parser rejects. */
  lemma {:induction false} LayoutThrows(parts: seq<string>, n: nat, atts: seq<Attachment>, selected: Option<Attachment>, parse: Parser)
    requires n <= |parts|
    ensures Layout(parts, n, atts, selected, parse).None? <==>
      exists j :: 0 <= j < n && Binds(j, |parts|, atts) && RenderAttachment(atts[j], selected, parse).None?
  {
    if n > 0 {
      LayoutThrows(parts, n - 1, atts, selected, parse);
      LayoutThrowsStep(parts, n, atts, selected, parse);
      if Layout(parts, n, atts, selected, parse).None? {
        if Layout(parts, n - 1, atts, selected, parse).None? {
          var j :| 0 <= j < n - 1 && Binds(j, |parts|, atts) && RenderAttachment(atts[j], selected, parse).None?;
          assert j < n;
        } else {
          assert Binds(n - 1, |parts|, atts) && RenderAttachment(atts[n - 1], selected, parse).None?;
        }
      } else {
        forall j | 0 <= j < n && Binds(j, |parts|, atts)
          ensures RenderAttachment(atts[j], selected, parse).Some?
        {
          if j == n - 1 { } else { assert j < n - 1; }
        }
      }
    }
  }

  lemma LayoutThrowsStep(parts: seq<string>, n: nat, atts: seq<Attachment>, selected: Option<Attachment>, parse: Parser)
    requires 0 < n <= |parts|
    ensures Layout(parts, n, atts, selected, parse).None? <==>
      Layout(parts, n - 1, atts, selected, parse).None? ||
      (Binds(n - 1, |parts|, atts) && RenderAttachment(atts[n - 1], selected, parse).None?)
  {
  }

  lemma {:induction false} CollapsedPartsClean(parts: seq<string>)
    ensures forall s :: s in CollapsedParts(parts) ==> s != "" && IsCollapsed(s)
  {
    if parts != [] {
      CollapsedPartsClean(parts[..|parts| - 1]);
    }
  }

  /**
   * The attachment segments are the first min(number of `$`, number of attachments) attachments, in
   * declaration order, each once; the text segments are the non-empty parts, whitespace-collapsed.
   */
  lemma RenderContents(content: string, atts: seq<Attachment>, selected: Option<Attachment>, parse: Parser)
    requires Render(content, atts, selected, parse).Elements?
    ensures var segs := Render(content, atts, selected, parse).segments;
      && Attached(segs) == atts[..Min(Count(content, '$'), |atts|)]
      && Texts(segs) == CollapsedParts(Split(content, '$'))
      && forall s :: s in Texts(segs) ==> s != "" && IsCollapsed(s)
  {
    var parts := Split(content, '$');
    SplitCount(content, '$');
    LayoutAttached(parts, |parts|, atts, selected, parse);
    LayoutTexts(parts, |parts|, atts, selected, parse);
    assert parts[..|parts|] == parts;
    CollapsedPartsClean(parts);
  }

  /** The render throws exactly when one of the bound attachments is a LINK whose `url || ""` the parser rejects. */
  lemma RenderThrows(content: string, atts: seq<Attachment>, selected: Option<Attachment>, parse: Parser)
    ensures Render(content, atts, selected, parse).Throws? <==>
      content != "" &&
      exists j :: 0 <= j < Min(Count(content, '$'), |atts|) &&
        atts[j].kind == Link && parse(OrElse(atts[j].content.url, "")).None?
  {
    var parts := Split(content, '$');
    SplitCount(content, '$');
    LayoutThrows(parts, |parts|, atts, selected, parse);
  }

  lemma {:induction false} AttachedHolds(segs: seq<Segment>, g: Segment)
    requires g in segs && g.Att?
    ensures g.attachment in Attached(segs)
  {
    if segs[0] != g {
      AttachedHolds(segs[1..], g);
    }
  }

  /** Every attachment segment shows its attachment's own view: buttons are active exactly for the selected content id. */
  lemma {:induction false} LayoutViews(parts: seq<string>, n: nat, atts: seq<Attachment>, selected: Option<Attachment>, parse: Parser)
    requires n <= |parts| && Layout(parts, n, atts, selected, parse).Some?
    ensures forall g :: g in Layout(parts, n, atts, selected, parse).value && g.Att? ==>
      RenderAttachment(g.attachment, selected, parse) == Some(g.view)
  {
    if n > 0 {
      LayoutViews(parts, n - 1, atts, selected, parse);
    }
  }

  /** A button in the render is active exactly when its attachment has the selected one's content id. */
  lemma ButtonsActiveIffSelected(content: string, atts: seq<Attachment>, selected: Option<Attachment>, parse: Parser)
    requires Render(content, atts, selected, parse).Elements?
    ensures forall g :: g in Render(content, atts, selected, parse).segments && g.Att? && IsButton(g.view) ==>
      (g.view.active <==> SameContentId(selected, g.attachment))
  {
    var parts := Split(content, '$');
    LayoutViews(parts, |parts|, atts, selected, parse);
  }

  // ---------------------------------------------------------------- the page

  /** The `artifact` of the response; `attachments` is `None` when it is missing or not an array. */
  datatype Artifact = Artifact(contentText: string, attachments: Option<seq<Attachment>>)

  datatype BubbleData = BubbleData(contentText: string, attachments: seq<Attachment>)

  datatype PageState = PageState(bubbleData: Option<BubbleData>, selected: Option<Attachment>)

  /** The page before any response: nothing stored, nothing selected. */
  const Initial := PageState(None, None)

  /** After a response (`None`: the request failed), data is stored only with a non-empty attachment list, and its first is selected. */
  function Loaded(state: PageState, response: Option<Artifact>): (s: PageState)
    ensures s != state ==> response.Some? && response.value.attachments.Some? && |response.value.attachments.value| > 0
    ensures response.Some? && response.value.attachments.Some? && |response.value.attachments.value| > 0 ==>
      s == PageState(Some(BubbleData(response.value.contentText, response.value.attachments.value)),
                     Some(response.value.attachments.value[0]))
  {
    if response.Some? && response.value.attachments.Some? && |response.value.attachments.value| > 0 then
      var atts := response.value.attachments.value;
      PageState(Some(BubbleData(response.value.contentText, atts)), Some(atts[0]))
    else state
  }

  /** Either nothing is stored and nothing selected, or the selection is one of the stored attachments. */
  predicate Consistent(s: PageState) {
    if s.bubbleData.None? then s.selected.None?
    else s.selected.Some? && s.selected.value in s.bubbleData.value.attachments
  }

  /** Clicking a button: `setSelectedAttachment(attachment)`. */
  function Click(s: PageState, a: Attachment): PageState {
    s.(selected := Some(a))
  }

  /** Loading keeps the page consistent. */
  lemma LoadedConsistent(state: PageState, response: Option<Artifact>)
    requires Consistent(state)
    ensures Consistent(Loaded(state, response))
  {
  }

  /** Clicking a button of the rendered bubble selects one of the stored attachments. */
  lemma ClickConsistent(s: PageState, parse: Parser, g: Segment)
    requires Consistent(s) && s.bubbleData.Some?
    requires Render(s.bubbleData.value.contentText, s.bubbleData.value.attachments, s.selected, parse).Elements?
    requires g in Render(s.bubbleData.value.contentText, s.bubbleData.value.attachments, s.selected, parse).segments
    requires g.Att? && IsButton(g.view)
    ensures Consistent(Click(s, g.attachment))
  {
    var d := s.bubbleData.value;
    var segs := Render(d.contentText, d.attachments, s.selected, parse).segments;
    AttachedHolds(segs, g);
    RenderContents(d.contentText, d.attachments, s.selected, parse);
    var m := Min(Count(d.contentText, '$'), |d.attachments|);
    var k :| 0 <= k < m && d.attachments[..m][k] == g.attachment;
    assert d.attachments[k] == g.attachment;
  }

  /** The preview under the bubble: shown when the selection has a url, named `Unnamed File` when it has no name. */
  function PreviewToken(selected: Option<Attachment>): (r: Option<TokenPreviewSpecial.Token>)
    ensures r.Some? <==> selected.Some? && Truthy(selected.value.content.url)
    ensures r.Some? ==> r.value.url == selected.value.content.url
    ensures r.Some? ==> r.value.name.Some? && r.value.name.value != ""
    ensures r.Some? ==> r.value.kind == TypeName(selected.value.kind) && r.value.s3Url == selected.value.content.s3Url
  {
    if selected.Some? && Truthy(selected.value.content.url) then
      var c := selected.value.content;
      Some(TokenPreviewSpecial.Token(c.url, Some(OrElse(c.name, "Unnamed File")), TypeName(selected.value.kind), c.s3Url))
    else None
  }

  /** A selected LINK with a url previews as a link card. */
  lemma SelectedLinkPreviewsAsLink(selected: Option<Attachment>)
    requires selected.Some? && selected.value.kind == Link && Truthy(selected.value.content.url)
    ensures TokenPreviewSpecial.IsLink(PreviewToken(selected).value)
  {
  }
}
