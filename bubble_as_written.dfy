/**
 * The scanning loop of Bubble.tsx exactly as written, reduced to the index `i` it advances.
 *
 * After a marker's `>`, the loop sets `i = content.indexOf("</file-token>", closeIndex) + 13`. When no
 * closing tag follows, `indexOf` returns -1 and `i` becomes 12, whatever it was. A marker that starts
 * at index 12 or later and is never closed therefore sends the loop back to 12 for ever.
 * `Bubble.StepAt` is the corrected pass: it resumes right after the `>`.
 */
module BubbleAsWritten {
  import opened Wrappers
  import opened Strings
  import Bubble

  /** The value `i` takes after one pass of the loop as written; -1 + 13 is 12. */
  function NextIndex(c: string, i: nat): (r: nat)
    requires i < |c|
    ensures r <= i ==> r == |Bubble.CloseTag| - 1
  {
    if OccursAt(c, Bubble.OpenTag, i) && Bubble.TagEnd(c, i).Some? then
      match IndexOf(c, Bubble.CloseTag, Bubble.TagEnd(c, i).value)
      case Some(k) => k + |Bubble.CloseTag|
      case None => |Bubble.CloseTag| - 1
    else i + 1
  }

  /** The value of `i` after `n` passes from `i`; once the loop condition fails `i` no longer moves. */
  function IndexAfter(c: string, i: nat, n: nat): nat
    decreases n
  {
    if n == 0 || i >= |c| then i else IndexAfter(c, NextIndex(c, i), n - 1)
  }

  /** The loop as written and the corrected pass agree except where no `</file-token>` follows the marker. */
  lemma AgreesWhenClosed(c: string, i: nat, buf: string)
    requires i < |c|
    ensures NextIndex(c, i) != Bubble.StepAt(c, i, buf).next ==>
      && OccursAt(c, Bubble.OpenTag, i) && Bubble.TagEnd(c, i).Some?
      && IndexOf(c, Bubble.CloseTag, Bubble.TagEnd(c, i).value).None?
      && NextIndex(c, i) == 12
  {
  }

  lemma {:induction false} IndexAfterSplit(c: string, i: nat, a: nat, b: nat)
    ensures IndexAfter(c, i, a + b) == IndexAfter(c, IndexAfter(c, i, a), b)
    decreases a
  {
    if a > 0 && i < |c| {
      IndexAfterSplit(c, NextIndex(c, i), a - 1, b);
    }
  }

  /** Once the loop has stopped it stays stopped. */
  lemma {:induction false} StoppedStaysStopped(c: string, i: nat, a: nat, b: nat)
    requires a <= b && IndexAfter(c, i, a) >= |c|
    ensures IndexAfter(c, i, b) == IndexAfter(c, i, a)
  {
    IndexAfterSplit(c, i, a, b - a);
    var j := IndexAfter(c, i, a);
    assert IndexAfter(c, j, b - a) == j by {
      if b - a > 0 { assert j >= |c|; }
    }
  }

  /** A loop that comes back to where it was, `m > 0` passes later, runs for ever. */
  lemma {:induction false} CycleNeverStops(c: string, i: nat, m: nat, n: nat)
    requires 0 < m && i < |c| && IndexAfter(c, i, m) == i
    ensures IndexAfter(c, i, n) < |c|
    decreases n
  {
    if n >= m {
      IndexAfterSplit(c, i, m, n - m);
      CycleNeverStops(c, i, m, n - m);
    } else if IndexAfter(c, i, n) >= |c| {
      StoppedStaysStopped(c, i, n, m);
      assert false;
    }
  }

  /** Over text with no `<`, every pass moves `i` one character on. */
  lemma {:induction false} WalkPlainText(c: string, i: nat, j: nat)
    requires i <= j < |c|
    requires forall k :: i <= k < j ==> c[k] != '<'
    ensures IndexAfter(c, i, j - i) == j
    decreases j - i
  {
    if i < j {
      NotOccursAtHead(c, Bubble.OpenTag, i);
      WalkPlainText(c, i + 1, j);
    }
  }

  /** An unclosed `<file-token …>` at index `p >= 12` sends `i` back to 12. */
  lemma UnclosedMarkerResets(s: string)
    requires |s| >= 12
    ensures var c := s + Bubble.OpenTag + ">";
      |s| < |c| && NextIndex(c, |s|) == 12
  {
    var c := s + Bubble.OpenTag + ">";
    var p := |s|;
    assert c[p..p + |Bubble.OpenTag|] == Bubble.OpenTag;
    OccursAtOne(c, '>', |c| - 1);
    IndexOfIsFirst(c, ">", p);
    var ci := Bubble.TagEnd(c, p).value;
    assert ci + 13 > |c|;
  }

  /** Plain text up to a marker at `p >= 12` that resets `i` to 12: the loop never ends. */
  lemma {:induction false} ResetLoopHangs(c: string, p: nat, n: nat)
    requires 12 <= p < |c| && NextIndex(c, p) == 12
    requires forall k :: 0 <= k < p ==> c[k] != '<'
    ensures IndexAfter(c, 0, n) < |c|
  {
    var start := 12;
    var period := p - start + 1;
    WalkPlainText(c, start, p);
    IndexAfterSplit(c, start, p - start, 1);
    assert IndexAfter(c, start, period) == IndexAfter(c, p, 1);
    assert IndexAfter(c, p, 1) == IndexAfter(c, NextIndex(c, p), 0) == start;
    WalkPlainText(c, 0, start);
    if n >= start {
      IndexAfterSplit(c, 0, start, n - start);
      CycleNeverStops(c, start, period, n - start);
      assert IndexAfter(c, 0, n) == IndexAfter(c, start, n - start);
    } else {
      WalkPlainText(c, 0, n);
    }
  }

  /**
   * The loop as written never ends on twelve or more characters without a `<`, followed by a
   * `<file-token` tag that is never closed, such as `aaaaaaaaaaaa<file-token>`.
   */
  lemma UnclosedMarkerHangs(s: string, n: nat)
    requires |s| >= 12 && '<' !in s
    ensures var c := s + Bubble.OpenTag + ">";
      IndexAfter(c, 0, n) < |c|
  {
    var c := s + Bubble.OpenTag + ">";
    forall k | 0 <= k < |s| ensures c[k] != '<' { assert c[k] == s[k]; }
    UnclosedMarkerResets(s);
    ResetLoopHangs(c, |s|, n);
  }

  // ---------------------------------------------------------------- what the loop as written renders

  /**
   * The segments the loop as written pushes from `i` with `buf` in `currentText`, when it stops within
   * `fuel` passes. Each pass flushes and pushes exactly as the corrected pass does; only the next `i`
   * differs.
   */
  function RunAsWritten(c: string, i: nat, buf: string, tokens: seq<Bubble.Token>, selected: Option<Bubble.Token>, fuel: nat): (r: Option<seq<Bubble.Segment>>)
    decreases fuel
    ensures r.Some? <==> IndexAfter(c, i, fuel) >= |c|
  {
    if i >= |c| then Some(Bubble.TextElement(buf))
    else if fuel == 0 then None
    else
      var st := Bubble.StepAt(c, i, buf);
      match RunAsWritten(c, NextIndex(c, i), st.buf, tokens, selected, fuel - 1)
      case None => None
      case Some(rest) => Some(Bubble.RenderPieces(st.emitted, tokens, selected) + rest)
  }

  /** Over text with no `<`, the loop as written gathers all of it into one text segment. */
  lemma {:induction false} RunOverPlainText(c: string, i: nat, buf: string, tokens: seq<Bubble.Token>, selected: Option<Bubble.Token>, fuel: nat)
    requires i <= |c| && |c| - i <= fuel
    requires forall k :: i <= k < |c| ==> c[k] != '<'
    ensures RunAsWritten(c, i, buf, tokens, selected, fuel) == Some(Bubble.TextElement(buf + c[i..]))
    decreases |c| - i
  {
    if i == |c| {
      assert buf + c[i..] == buf;
    } else {
      RunPlainStep(c, i, buf, tokens, selected, fuel);
      RunOverPlainText(c, i + 1, buf + [c[i]], tokens, selected, fuel - 1);
      AppendNext(buf, c, i);
    }
  }

  /** A character other than `<` is added to `currentText` and nothing is pushed. */
  lemma RunPlainStep(c: string, i: nat, buf: string, tokens: seq<Bubble.Token>, selected: Option<Bubble.Token>, fuel: nat)
    requires i < |c| && 0 < fuel && c[i] != '<'
    ensures RunAsWritten(c, i, buf, tokens, selected, fuel) == RunAsWritten(c, i + 1, buf + [c[i]], tokens, selected, fuel - 1)
  {
    NotOccursAtHead(c, Bubble.OpenTag, i);
    assert Bubble.StepAt(c, i, buf) == Bubble.Step([], i + 1, buf + [c[i]]);
    assert NextIndex(c, i) == i + 1;
    assert Bubble.RenderPieces([], tokens, selected) == [];
    match RunAsWritten(c, i + 1, buf + [c[i]], tokens, selected, fuel - 1)
    case None =>
    case Some(rest) => assert [] + rest == rest;
  }

  /** Over text with no `<`, the corrected pass cuts nothing either. */
  lemma {:induction false} TokenizePlainText(c: string, i: nat, buf: string)
    requires i <= |c|
    requires forall k :: i <= k < |c| ==> c[k] != '<'
    ensures Bubble.Tokenize(c, i, buf) == [Bubble.Chunk(buf + c[i..])]
    decreases |c| - i
  {
    if i == |c| {
      assert buf + c[i..] == buf;
    } else {
      NotOccursAtHead(c, Bubble.OpenTag, i);
      assert Bubble.StepAt(c, i, buf) == Bubble.Step([], i + 1, buf + [c[i]]);
      TokenizePlainText(c, i + 1, buf + [c[i]]);
      AppendNext(buf, c, i);
    }
  }

  /**
   * The loop as written also changes what a message shows when it does end. After
   * `<file-token id="a">` with no `</file-token>` anywhere after it, it pushes the button, jumps back
   * to 12 and pushes `id="a">` and the rest as text; the corrected pass pushes the button and then
   * only the rest.
   */
  lemma AsWrittenRereadsTag(u: string, t: Bubble.Token, selected: Option<Bubble.Token>)
    requires '<' !in u && t.id == "a"
    ensures var c := "<file-token id=\"a\">" + u;
      var button := Bubble.Att(t, Bubble.IsActive(selected, t));
      && NextIndex(c, 0) == 12 && Bubble.StepAt(c, 0, []).next == 19
      && RunAsWritten(c, 0, [], [t], selected, |c|) == Some([button] + Bubble.TextElement("id=\"a\">" + u))
      && Bubble.Segments(c, [t], selected) == [button] + Bubble.TextElement(u)
  {
    var p := "<file-token id=\"a\">";
    PrefixFacts(p);
    SampleStep(p, u, t, selected);
    SampleAsWritten(p, u, t, selected);
    SampleCorrected(p, u, t, selected);
  }

  /** The same on `<file-token id="a">hello`: `id="a">hello` as written, `hello` corrected. */
  lemma AsWrittenShowsTagText(c: string, t: Bubble.Token, selected: Option<Bubble.Token>)
    requires c == "<file-token id=\"a\">hello" && t.id == "a"
    ensures var button := Bubble.Att(t, Bubble.IsActive(selected, t));
      && NextIndex(c, 0) == 12 && Bubble.StepAt(c, 0, []).next == 19
      && RunAsWritten(c, 0, [], [t], selected, |c|) == Some([button, Bubble.Text("id=\"a\">hello")])
      && Bubble.Segments(c, [t], selected) == [button, Bubble.Text("hello")]
  {
    var u, v := "hello", "id=\"a\">hello";
    SampleSplits(c, u, v);
    AsWrittenRereadsTag(u, t, selected);
    SampleCollapsed(u);
    SampleCollapsed(v);
    var button := Bubble.Att(t, Bubble.IsActive(selected, t));
    SampleRunRegroup(c, "<file-token id=\"a\">" + u, "id=\"a\">" + u, v, t, selected, button);
  }

  lemma SampleRunRegroup(c: string, d: string, w: string, v: string, t: Bubble.Token,
                         selected: Option<Bubble.Token>, button: Bubble.Segment)
    requires c == d && w == v && Bubble.TextElement(v) == [Bubble.Text(v)]
    requires RunAsWritten(d, 0, [], [t], selected, |d|) == Some([button] + Bubble.TextElement(w))
    ensures RunAsWritten(c, 0, [], [t], selected, |c|) == Some([button, Bubble.Text(v)])
  {
    var e := [button] + Bubble.TextElement(w);
    assert e == [button, Bubble.Text(v)];
    assert RunAsWritten(c, 0, [], [t], selected, |c|) == Some(e);
  }

  lemma SampleSplits(c: string, u: string, v: string)
    requires c == "<file-token id=\"a\">hello" && u == "hello" && v == "id=\"a\">hello"
    ensures c == "<file-token id=\"a\">" + u && v == "id=\"a\">" + u && '<' !in u
  {
  }

  /** What the proofs below use of the prefix `<file-token id="a">`. */
  predicate IdTagPrefix(p: string) {
    && |p| == 19 && p[..11] == Bubble.OpenTag && p[1] == 'f' && '<' !in p[1..]
    && IndexOf(p, ">", 0) == Some(18) && Bubble.TagId(p[..18]) == Some("a")
    && p[12..] == "id=\"a\">"
  }

  lemma PrefixFacts(p: string)
    requires p == "<file-token id=\"a\">"
    ensures IdTagPrefix(p)
  {
    PrefixShape(p);
    SampleTagEnd(p);
    PrefixTag(p);
  }

  lemma PrefixShape(p: string)
    requires p == "<file-token id=\"a\">"
    ensures |p| == 19 && p[..11] == Bubble.OpenTag && p[1] == 'f' && '<' !in p[1..] && p[12..] == "id=\"a\">"
  {
    assert p[1..] == "file-token id=\"a\">";
    assert '<' !in "file-token id=\"a\">";
  }

  lemma PrefixTag(p: string)
    requires p == "<file-token id=\"a\">"
    ensures Bubble.TagId(p[..18]) == Some("a")
  {
    var tag := "<file-token id=\"a\"";
    assert p[..18] == tag;
    SampleTagId(tag);
  }

  /** The first pass over `p + u`, which both loops share. */
  lemma SampleStep(p: string, u: string, t: Bubble.Token, selected: Option<Bubble.Token>)
    requires IdTagPrefix(p) && '<' !in u && t.id == "a"
    ensures var c := p + u;
      && NextIndex(c, 0) == 12
      && Bubble.StepAt(c, 0, []) == Bubble.Step([Bubble.Chunk([]), Bubble.Marker(c[0..19], c[0..18])], 19, [])
      && Bubble.RenderPieces(Bubble.StepAt(c, 0, []).emitted, [t], selected) == [Bubble.Att(t, Bubble.IsActive(selected, t))]
  {
    var c := p + u;
    AppendSlice(p, u, 0, 11);
    AppendSlice(p, u, 0, 18);
    assert c[..11] == p[..11] && c[0..18] == p[..18];
    assert OccursAt(c, Bubble.OpenTag, 0);
    IndexOfInFront(p, u, ">", 0);
    NoAngleAfterHead(p, u);
    forall j: nat | 18 <= j ensures !OccursAt(c, Bubble.CloseTag, j) {
      if j < |c| { assert c[1..][j - 1] == c[j]; }
      NotOccursAtHead(c, Bubble.CloseTag, j);
    }
    IndexOfIsFirst(c, Bubble.CloseTag, 18);
    var m := Bubble.Marker(c[0..19], c[0..18]);
    assert Bubble.PieceElements(m, [t], selected) == [Bubble.Att(t, Bubble.IsActive(selected, t))];
    Bubble.RenderTwo([], Bubble.Chunk([]), m, [t], selected);
    assert [] + [Bubble.Chunk([]), m] == [Bubble.Chunk([]), m];
  }

  lemma NoAngleAfterHead(p: string, u: string)
    requires IdTagPrefix(p) && '<' !in u
    ensures '<' !in (p + u)[1..]
  {
    AppendDrop(p, u, 1);
  }

  lemma SampleAsWritten(p: string, u: string, t: Bubble.Token, selected: Option<Bubble.Token>)
    requires IdTagPrefix(p) && '<' !in u && t.id == "a"
    ensures RunAsWritten(p + u, 0, [], [t], selected, |p + u|) ==
      Some([Bubble.Att(t, Bubble.IsActive(selected, t))] + Bubble.TextElement("id=\"a\">" + u))
  {
    var c := p + u;
    SampleStep(p, u, t, selected);
    NoAngleAfterHead(p, u);
    forall k | 12 <= k < |c| ensures c[k] != '<' { assert c[1..][k - 1] == c[k]; }
    RunOverPlainText(c, 12, [], [t], selected, |c| - 1);
    AppendDrop(p, u, 12);
    assert [] + c[12..] == "id=\"a\">" + u;
  }

  lemma SampleCorrected(p: string, u: string, t: Bubble.Token, selected: Option<Bubble.Token>)
    requires IdTagPrefix(p) && '<' !in u && t.id == "a"
    ensures Bubble.Segments(p + u, [t], selected) == [Bubble.Att(t, Bubble.IsActive(selected, t))] + Bubble.TextElement(u)
  {
    var c := p + u;
    SampleStep(p, u, t, selected);
    NoAngleAfterHead(p, u);
    assert c[1] == p[1];
    StripSkipsOtherTag(c);
    forall k | 19 <= k < |c| ensures c[k] != '<' { assert c[1..][k - 1] == c[k]; }
    TokenizePlainText(c, 19, []);
    AppendDrop(p, u, 19);
    assert [] + c[19..] == u;
    var st := Bubble.StepAt(c, 0, []);
    assert Bubble.Tokenize(c, 0, []) == st.emitted + [Bubble.Chunk(u)];
    Bubble.RenderSnoc(st.emitted, Bubble.Chunk(u), [t], selected);
  }

  /** A `<` that opens neither `<p>` nor `</p>`, with no other `<` after it, is left alone. */
  lemma StripSkipsOtherTag(c: string)
    requires |c| >= 2 && c[1] != 'p' && c[1] != '/' && '<' !in c[1..]
    ensures Bubble.StripParagraphTags(c) == c
  {
    assert !StartsWith(c, "<p>") by { if |c| >= 3 { assert c[..3][1] == c[1]; } }
    assert !StartsWith(c, "</p>") by { if |c| >= 4 { assert c[..4][1] == c[1]; } }
    Bubble.StripWithoutTagsIsIdentity(c[1..]);
    assert c == [c[0]] + c[1..];
  }

  /** Text without whitespace is shown as it is. */
  lemma SampleCollapsed(u: string)
    requires u == "id=\"a\">hello" || u == "hello"
    ensures Bubble.TextElement(u) == [Bubble.Text(u)]
  {
    forall i | 0 <= i < |u| ensures !IsSpace(u[i]) { }
    CollapseFixesCollapsed(u);
  }

  lemma SampleTagEnd(p: string)
    requires p == "<file-token id=\"a\">"
    ensures IndexOf(p, ">", 0) == Some(18)
  {
    OccursAtOne(p, '>', 18);
    forall j | 0 <= j < 18 ensures !OccursAt(p, ">", j) { OccursAtOne(p, '>', j); }
    IndexOfIsFirst(p, ">", 0);
    OccursAtOne(p, '>', IndexOf(p, ">", 0).value);
  }

  lemma SampleTagId(tag: string)
    requires tag == "<file-token id=\"a\""
    ensures Bubble.TagId(tag) == Some("a")
  {
    SampleNoEarlyId(tag);
    IdMatchSkips(tag, 0, 12);
    SampleIdAtTwelve(tag);
  }

  lemma SampleNoEarlyId(tag: string)
    requires tag == "<file-token id=\"a\""
    ensures forall j :: 0 <= j < 12 ==> Bubble.IdMatchAt(tag, j).None?
  {
    forall j | 0 <= j < 12 ensures Bubble.IdMatchAt(tag, j).None? {
      if j == 2 {
        NoIdMatchAtI(tag, j);
      } else {
        NotOccursAtHead(tag, "id=\"", j);
      }
    }
  }

  /** An `i` not followed by `d` starts no `id="`. */
  lemma NoIdMatchAtI(s: string, j: nat)
    requires j + 1 < |s| && s[j + 1] != 'd'
    ensures Bubble.IdMatchAt(s, j).None?
  {
    if j + 4 <= |s| { assert s[j..j + 4][1] == s[j + 1]; }
  }

  lemma SampleIdAtTwelve(tag: string)
    requires tag == "<file-token id=\"a\""
    ensures Bubble.IdMatchAt(tag, 12) == Some("a")
  {
    assert tag[12..16] == "id=\"";
    Bubble.RunIsWhole(tag, 16, "a");
  }

  /** Positions where `id="…"` does not match are passed over. */
  lemma {:induction false} IdMatchSkips(s: string, p: nat, q: nat)
    requires p <= q
    requires forall j :: p <= j < q ==> Bubble.IdMatchAt(s, j).None?
    ensures Bubble.IdMatchFrom(s, p) == Bubble.IdMatchFrom(s, q)
    decreases q - p
  {
    if p < q {
      IdMatchSkips(s, p + 1, q);
    }
  }
}
