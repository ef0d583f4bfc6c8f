/**
 * The id-based message view (Bubble.tsx): the stored content, with `<p>` wrappers removed, is
 * scanned for `<file-token … id="X" …>…</file-token>` markers; text between markers becomes
 * whitespace-collapsed text segments and each marker whose id names a token becomes one token
 * button, highlighted when it is the selected token.
 *
 * The scanner is modelled in two layers: `Tokenize` cuts the content into raw pieces exactly where
 * the loop flushes its buffer, and `RenderPieces` turns pieces into segments the way `addText` and
 * `addToken` do. `ProcessContent` is the loop itself, proved to compute `Segments`.
 *
 * When a marker has no `</file-token>` after it the source sets `i` to 12 and may loop forever
 * (module BubbleAsWritten); this model resumes right after the marker's `>` instead.
 */
module Bubble {
  import opened Wrappers
  import opened Strings
  import opened Icons

  datatype Token = Token(id: string, kind: string, fileName: string, url: string, size: string, createdAt: string)

  datatype Segment = Text(s: string) | Att(token: Token, active: bool)

  const OpenTag: string := "<file-token"
  const CloseTag: string := "</file-token>"

  // ---------------------------------------------------------------- selection

  /** `selectedToken?._id === token._id`; a token id is always a string, so no selection means inactive. */
  predicate IsActive(selected: Option<Token>, t: Token) {
    selected.Some? && selected.value.id == t.id
  }

  /** After a fetch the first token is selected; with no tokens the selection stays empty. */
  function InitialSelection(tokens: seq<Token>): (r: Option<Token>)
    ensures r.Some? <==> |tokens| > 0
    ensures r.Some? ==> r.value == tokens[0]
  {
    if |tokens| > 0 then Some(tokens[0]) else None
  }

  /** `tokens.find((t) => t._id === id)`. */
  function FindToken(tokens: seq<Token>, id: string): (r: Option<Token>)
    ensures r.Some? ==> r.value in tokens && r.value.id == id
    ensures r.Some? ==> exists k :: 0 <= k < |tokens| && tokens[k] == r.value &&
                                   forall j :: 0 <= j < k ==> tokens[j].id != id
    ensures r.None? ==> forall t :: t in tokens ==> t.id != id
  {
    if tokens == [] then None
    else if tokens[0].id == id then Some(tokens[0])
    else
      var r := FindToken(tokens[1..], id);
      assert r.Some? ==> exists k :: 0 <= k < |tokens| && tokens[k] == r.value &&
                                     forall j :: 0 <= j < k ==> tokens[j].id != id by {
        if r.Some? {
          var k :| 0 <= k < |tokens[1..]| && tokens[1..][k] == r.value &&
                   forall j :: 0 <= j < k ==> tokens[1..][j].id != id;
          assert tokens[k + 1] == r.value;
          assert forall j :: 0 <= j < k + 1 ==> tokens[j].id != id by {
            forall j | 0 <= j < k + 1 ensures tokens[j].id != id {
              if j > 0 { assert tokens[j] == tokens[1..][j - 1]; }
            }
          }
        }
      }
      r
  }

  // ---------------------------------------------------------------- icons

  /** The nested `getFileIcon` of Bubble.tsx. */
  function FileIcon(fileName: string): Icon {
    match Extension(fileName)
    case "zip" => Package
    case "rar" => Package
    case "mp3" => Music
    case "wav" => Music
    case "ogg" => Music
    case "mp4" => Film
    case "avi" => Film
    case "mkv" => Film
    case "pdf" => Page
    case "doc" => Page
    case "docx" => Page
    case "xls" => BarChart
    case "xlsx" => BarChart
    case "csv" => Bookmark
    case _ => Page
  }

  // ---------------------------------------------------------------- <p> removal

  /** `content.replace(/<\/?p>/g, "")`: each `<p>` or `</p>`, found left to right, is removed. */
  function StripParagraphTags(s: string): (r: string)
    decreases |s|
    ensures |r| <= |s|
  {
    if StartsWith(s, "<p>") then StripParagraphTags(s[3..])
    else if StartsWith(s, "</p>") then StripParagraphTags(s[4..])
    else if s == [] then []
    else [s[0]] + StripParagraphTags(s[1..])
  }

  /** Removing the tags keeps the number of occurrences of every character other than `<`, `/`, `p`, `>`. */
  lemma {:induction false} StripKeepsOtherCharacters(s: string, c: char)
    requires c != '<' && c != '/' && c != 'p' && c != '>'
    ensures multiset(StripParagraphTags(s))[c] == multiset(s)[c]
    decreases |s|
  {
    if StartsWith(s, "<p>") {
      StripDropsPrefix(s, 3, c);
    } else if StartsWith(s, "</p>") {
      StripDropsPrefix(s, 4, c);
    } else if s != [] {
      StripKeepsOtherCharacters(s[1..], c);
      assert s == [s[0]] + s[1..];
      assert multiset(s) == multiset([s[0]]) + multiset(s[1..]);
      assert multiset([s[0]] + StripParagraphTags(s[1..])) == multiset([s[0]]) + multiset(StripParagraphTags(s[1..]));
    }
  }

  lemma {:induction false} StripDropsPrefix(s: string, n: nat, c: char)
    requires c != '<' && c != '/' && c != 'p' && c != '>'
    requires (n == 3 && StartsWith(s, "<p>")) || (n == 4 && !StartsWith(s, "<p>") && StartsWith(s, "</p>"))
    ensures multiset(StripParagraphTags(s))[c] == multiset(s)[c]
    decreases |s|, 0
  {
    assert StripParagraphTags(s) == StripParagraphTags(s[n..]);
    StripKeepsOtherCharacters(s[n..], c);
    PrefixWithout(s, n, c);
    assert s == s[..n] + s[n..];
    assert multiset(s) == multiset(s[..n]) + multiset(s[n..]);
  }

  lemma PrefixWithout(s: string, n: nat, c: char)
    requires c != '<' && c != '/' && c != 'p' && c != '>'
    requires (n == 3 && StartsWith(s, "<p>")) || (n == 4 && StartsWith(s, "</p>"))
    ensures multiset(s[..n])[c] == 0
  {
    var t := s[..n];
    forall k | 0 <= k < n ensures t[k] != c {
      if n == 3 { assert t == "<p>"; } else { assert t == "</p>"; }
    }
  }

  /** Text without `<` in front of the content is kept in front, whatever follows it. */
  lemma {:induction false} StripKeepsPlainPrefix(t: string, w: string)
    requires '<' !in t
    ensures StripParagraphTags(t + w) == t + StripParagraphTags(w)
    decreases |t|
  {
    if t == [] {
      assert t + w == w;
    } else {
      assert '<' !in t[1..] by {
        forall k | 0 <= k < |t[1..]| ensures t[1..][k] != '<' { assert t[1..][k] == t[k + 1]; }
      }
      StripKeepsPlainPrefix(t[1..], w);
      StripCutsTagStep(t, w, StripParagraphTags(w));
    }
  }

  /**
   * The first `<p>` or `</p>` is cut out and everything before it is kept as it is: on `t + tag + u`
   * with no `<` in `t`, the result is `t` followed by the stripped `u`.
   */
  lemma StripCutsTag(t: string, tag: string, u: string)
    requires '<' !in t
    requires tag == "<p>" || tag == "</p>"
    ensures StripParagraphTags(t + tag + u) == t + StripParagraphTags(u)
  {
    StripKeepsPlainPrefix(t, tag + u);
    StripAtTag(tag, u);
    assert t + tag + u == t + (tag + u);
  }

  /** A character other than `<` in front is kept in front. */
  lemma StripCutsTagStep(t: string, w: string, r: string)
    requires t != [] && t[0] != '<'
    requires StripParagraphTags(t[1..] + w) == t[1..] + r
    ensures StripParagraphTags(t + w) == t + r
  {
    var s := t + w;
    assert s[0] == t[0];
    assert s[1..] == t[1..] + w;
    StripAtPlain(s);
    calc {
      StripParagraphTags(s);
      [t[0]] + (t[1..] + r);
      ([t[0]] + t[1..]) + r;
      { assert [t[0]] + t[1..] == t; }
      t + r;
    }
  }

  lemma StripAtTag(tag: string, u: string)
    requires tag == "<p>" || tag == "</p>"
    ensures StripParagraphTags(tag + u) == StripParagraphTags(u)
  {
    var s := tag + u;
    if tag == "<p>" {
      assert s[..3] == "<p>";
      assert s[3..] == u;
    } else {
      assert s[1] == '/';
      assert s[..4] == "</p>";
      assert s[4..] == u;
    }
  }

  lemma StripAtPlain(s: string)
    requires s != [] && s[0] != '<'
    ensures StripParagraphTags(s) == [s[0]] + StripParagraphTags(s[1..])
  {
    assert !StartsWith(s, "<p>") && !StartsWith(s, "</p>") by {
      if |s| >= 3 { assert s[..3][0] == s[0]; }
      if |s| >= 4 { assert s[..4][0] == s[0]; }
    }
  }

  /** Content without any `<` is left unchanged. */
  lemma {:induction false} StripWithoutTagsIsIdentity(s: string)
    requires '<' !in s
    ensures StripParagraphTags(s) == s
    decreases |s|
  {
    if s != [] {
      assert s[0] != '<';
      assert !StartsWith(s, "<p>") && !StartsWith(s, "</p>") by {
        if |s| >= 3 { assert s[..3][0] == s[0]; }
        if |s| >= 4 { assert s[..4][0] == s[0]; }
      }
      assert '<' !in s[1..] by {
        forall k | 0 <= k < |s[1..]| ensures s[1..][k] != '<' { assert s[1..][k] == s[k + 1]; }
      }
      StripWithoutTagsIsIdentity(s[1..]);
      assert s == [s[0]] + s[1..];
    }
  }

  // ---------------------------------------------------------------- the marker's id

  /** The longest run of characters other than `"` starting at `q`. */
  function RunWithoutQuote(s: string, q: nat): (r: string)
    requires q <= |s|
    decreases |s| - q
    ensures q + |r| <= |s| && r == s[q..q + |r|]
    ensures '"' !in r
    ensures q + |r| == |s| || s[q + |r|] == '"'
  {
    if q == |s| || s[q] == '"' then [] else [s[q]] + RunWithoutQuote(s, q + 1)
  }

  /** Does `/id="([^"]+)"/` match at position `p`, and with which capture. */
  function IdMatchAt(s: string, p: nat): (r: Option<string>)
    ensures r.Some? ==> r.value != [] && '"' !in r.value && OccursAt(s, "id=\"" + r.value + "\"", p)
  {
    if !OccursAt(s, "id=\"", p) then None
    else
      var x := RunWithoutQuote(s, p + 4);
      if x != [] && p + 4 + |x| < |s| then
        assert s[p..p + 4] == "id=\"";
        assert s[p + 4..p + 4 + |x|] == x;
        assert s[p + 4 + |x|..p + 5 + |x|] == "\"";
        assert s[p..p + |"id=\"" + x + "\""|] == s[p..p + 4] + s[p + 4..p + 4 + |x|] + s[p + 4 + |x|..p + 5 + |x|];
        Some(x)
      else None
  }

  /** The first match of `/id="([^"]+)"/` at or after `p`, leftmost first, as `String.prototype.match` finds it. */
  function IdMatchFrom(s: string, p: nat): (r: Option<string>)
    decreases |s| - p
    ensures r.Some? ==> exists k: nat :: p <= k && IdMatchAt(s, k) == r && forall j: nat :: p <= j < k ==> IdMatchAt(s, j).None?
    ensures r.None? ==> forall j: nat :: p <= j ==> IdMatchAt(s, j).None?
  {
    if p >= |s| then
      assert forall j: nat :: p <= j ==> !OccursAt(s, "id=\"", j);
      None
    else if IdMatchAt(s, p).Some? then IdMatchAt(s, p)
    else IdMatchFrom(s, p + 1)
  }

  /** `tag.match(/id="([^"]+)"/)?.[1]`. */
  function TagId(tag: string): (r: Option<string>)
    ensures r.Some? ==> r.value != [] && '"' !in r.value && Contains(tag, "id=\"" + r.value + "\"")
  {
    var r := IdMatchFrom(tag, 0);
    if r.Some? then
      var k: nat :| IdMatchAt(tag, k) == r;
      assert k <= |tag|;
      r
    else r
  }

  /** Whenever `id="X"` with a non-empty, quote-free X occurs in the tag, some id is found. */
  lemma TagIdFindsAnId(tag: string, x: string, p: nat)
    requires x != [] && '"' !in x && OccursAt(tag, "id=\"" + x + "\"", p)
    ensures TagId(tag).Some?
  {
    var w := "id=\"" + x + "\"";
    assert tag[p..p + 4] == w[..4] == "id=\"";
    assert OccursAt(tag, "id=\"", p);
    forall k | 0 <= k < |x| ensures tag[p + 4 + k] == x[k] {
      assert tag[p + 4 + k] == w[4 + k];
    }
    assert tag[p + 4 + |x|] == w[4 + |x|] == '"';
    RunIsWhole(tag, p + 4, x);
    assert IdMatchAt(tag, p).Some?;
  }

  lemma {:induction false} RunIsWhole(s: string, q: nat, x: string)
    requires q + |x| < |s| && s[q + |x|] == '"' && '"' !in x
    requires forall k :: 0 <= k < |x| ==> s[q + k] == x[k]
    ensures RunWithoutQuote(s, q) == x
    decreases |x|
  {
    if x != [] {
      assert s[q] == x[0];
      assert s[q] != '"';
      RunIsWhole(s, q + 1, x[1..]);
      assert x == [x[0]] + x[1..];
    }
  }

  // ---------------------------------------------------------------- tokenizing

  /** One stretch of the content: flushed raw text, or a marker's whole span and its opening tag up to `>`. */
  datatype Piece = Chunk(raw: string) | Marker(span: string, tag: string)

  /**
   * Where scanning resumes after a marker whose opening tag's `>` is at `ci`: after the first
   * `</file-token>` found from `ci`, or, without one, right after that `>`.
   */
  function ResumeIndex(c: string, ci: nat): (r: nat)
    requires ci < |c|
    ensures ci < r <= |c|
  {
    match IndexOf(c, CloseTag, ci)
    case Some(k) => k + |CloseTag|
    case None => ci + 1
  }

  /** Scanning resumes right after the `>` only when no `</file-token>` follows it; otherwise right after the first one. */
  lemma ResumeIndexCases(c: string, ci: nat)
    requires ci < |c|
    ensures ResumeIndex(c, ci) == ci + 1 <==> forall k: nat :: ci <= k ==> !OccursAt(c, CloseTag, k)
    ensures ResumeIndex(c, ci) != ci + 1 ==>
      var k := ResumeIndex(c, ci) - |CloseTag|;
      ci <= k && OccursAt(c, CloseTag, k) && forall j: nat :: ci <= j < k ==> !OccursAt(c, CloseTag, j)
  {
    IndexOfIsFirst(c, CloseTag, ci);
  }

  /** `content.indexOf(">", i)` once a marker begins at `i`. */
  function TagEnd(c: string, i: nat): Option<nat> {
    IndexOf(c, ">", i)
  }

  /** One pass of the loop body: the pieces it flushes, the next `i` and the new `currentText`. */
  datatype Step = Step(emitted: seq<Piece>, next: nat, buf: string)

  function StepAt(c: string, i: nat, buf: string): (st: Step)
    requires i < |c|
    ensures i < st.next <= |c|
  {
    if OccursAt(c, OpenTag, i) then
      match TagEnd(c, i)
      case Some(ci) =>
        var e := ResumeIndex(c, ci);
        Step([Chunk(buf), Marker(c[i..e], c[i..ci])], e, [])
      case None => Step([Chunk(buf)], i + 1, [c[i]])
    else Step([], i + 1, buf + [c[i]])
  }

  /** The pieces the scanning loop produces from index `i` with `buf` pending in `currentText`. */
  function Tokenize(c: string, i: nat, buf: string): (ps: seq<Piece>)
    requires i <= |c|
    decreases |c| - i
  {
    if i == |c| then [Chunk(buf)]
    else
      var st := StepAt(c, i, buf);
      st.emitted + Tokenize(c, st.next, st.buf)
  }

  /** The text one piece stands for. */
  function PieceText(p: Piece): string {
    match p
    case Chunk(raw) => raw
    case Marker(span, _) => span
  }

  /** The text the pieces stand for. */
  function Flatten(ps: seq<Piece>): string {
    if ps == [] then [] else PieceText(ps[0]) + Flatten(ps[1..])
  }

  lemma {:induction false} FlattenAppend(a: seq<Piece>, b: seq<Piece>)
    ensures Flatten(a + b) == Flatten(a) + Flatten(b)
  {
    if a == [] {
      assert a + b == b;
    } else {
      assert (a + b)[0] == a[0];
      assert (a + b)[1..] == a[1..] + b;
      calc {
        Flatten(a + b);
        PieceText(a[0]) + Flatten(a[1..] + b);
        { FlattenAppend(a[1..], b); }
        PieceText(a[0]) + (Flatten(a[1..]) + Flatten(b));
        (PieceText(a[0]) + Flatten(a[1..])) + Flatten(b);
      }
    }
  }

  lemma FlattenTwo(p: Piece, q: Piece)
    ensures Flatten([p, q]) == PieceText(p) + PieceText(q)
  {
    assert [q][1..] == [];
    assert Flatten([q]) == PieceText(q) + [] == PieceText(q);
    assert [p, q][1..] == [q];
  }

  /** One pass of the loop accounts for exactly the characters it moves past. */
  lemma StepIsPartition(c: string, i: nat, buf: string)
    requires i < |c|
    ensures Flatten(StepAt(c, i, buf).emitted) + StepAt(c, i, buf).buf == buf + c[i..StepAt(c, i, buf).next]
  {
    assert c[i..i + 1] == [c[i]];
    if OccursAt(c, OpenTag, i) && TagEnd(c, i).Some? {
      var ci := TagEnd(c, i).value;
      FlattenTwo(Chunk(buf), Marker(c[i..ResumeIndex(c, ci)], c[i..ci]));
    } else if OccursAt(c, OpenTag, i) {
      assert [Chunk(buf)][1..] == [];
    }
  }

  /** Tokenizing loses nothing: the pieces, put back together, are the pending text and the rest of the input. */
  lemma {:induction false} TokenizeIsPartition(c: string, i: nat, buf: string)
    requires i <= |c|
    ensures Flatten(Tokenize(c, i, buf)) == buf + c[i..]
    decreases |c| - i
  {
    if i < |c| {
      var st := StepAt(c, i, buf);
      TokenizeIsPartition(c, st.next, st.buf);
      StepIsPartition(c, i, buf);
      JoinPartitions(c, i, buf, st, Tokenize(c, st.next, st.buf));
    }
  }

  lemma SliceSplit(c: string, i: nat, j: nat)
    requires i <= j <= |c|
    ensures c[i..] == c[i..j] + c[j..]
  {
  }

  lemma Regroup(e: string, x: string, buf: string, u: string, v: string)
    requires e + x == buf + u
    ensures e + (x + v) == buf + (u + v)
  {
    calc {
      e + (x + v);
      (e + x) + v;
      (buf + u) + v;
      buf + (u + v);
    }
  }

  /** A step that accounts for `c[i..next]`, followed by pieces that account for the rest, accounts for `c[i..]`. */
  lemma JoinPartitions(c: string, i: nat, buf: string, st: Step, rest: seq<Piece>)
    requires i <= st.next <= |c|
    requires Flatten(st.emitted) + st.buf == buf + c[i..st.next]
    requires Flatten(rest) == st.buf + c[st.next..]
    ensures Flatten(st.emitted + rest) == buf + c[i..]
  {
    FlattenAppend(st.emitted, rest);
    SliceSplit(c, i, st.next);
    Regroup(Flatten(st.emitted), st.buf, buf, c[i..st.next], c[st.next..]);
  }

  /**
   * Every marker opens with `<file-token`; its tag runs up to the first `>` and contains no other;
   * the span ends with `</file-token>`, or, when none follows, right after that `>`.
   */
  predicate WellFormedMarker(p: Piece) {
    p.Marker? ==>
      && StartsWith(p.tag, OpenTag)
      && |p.tag| < |p.span| && p.span[..|p.tag|] == p.tag && p.span[|p.tag|] == '>'
      && '>' !in p.tag
      && (EndsWith(p.span, CloseTag) || |p.span| == |p.tag| + 1)
  }

  /** The opening tag's `>` lies past `<file-token`, and no `>` comes between. */
  lemma TagEndBounds(c: string, i: nat, ci: nat)
    requires OccursAt(c, OpenTag, i) && TagEnd(c, i) == Some(ci)
    ensures i + |OpenTag| <= ci < |c| && c[ci] == '>'
    ensures forall k :: i <= k < ci ==> c[k] != '>'
  {
    OccursAtOne(c, '>', ci);
    IndexOfIsFirst(c, ">", i);
    forall k | i <= k < ci ensures c[k] != '>' { OccursAtOne(c, '>', k); }
  }

  /** The marker cut at `i`, with its tag's `>` at `ci`, is well formed. */
  lemma MarkerWellFormed(c: string, i: nat, ci: nat)
    requires OccursAt(c, OpenTag, i) && TagEnd(c, i) == Some(ci)
    ensures WellFormedMarker(Marker(c[i..ResumeIndex(c, ci)], c[i..ci]))
  {
    TagEndBounds(c, i, ci);
    var e := ResumeIndex(c, ci);
    var tag := c[i..ci];
    var span := c[i..e];
    assert tag[..|OpenTag|] == c[i..i + |OpenTag|];
    assert '>' !in tag by {
      forall k | 0 <= k < |tag| ensures tag[k] != '>' { assert tag[k] == c[i + k]; }
    }
    assert span[..|tag|] == tag;
    assert span[|tag|] == c[ci];
    ResumeIndexCases(c, ci);
    if e != ci + 1 {
      assert span[|span| - |CloseTag|..] == c[e - |CloseTag|..e];
    }
  }

  /** The marker one pass of the loop may emit is well formed. */
  lemma StepMarkersWellFormed(c: string, i: nat, buf: string)
    requires i < |c|
    ensures forall p :: p in StepAt(c, i, buf).emitted ==> WellFormedMarker(p)
  {
    if OccursAt(c, OpenTag, i) && TagEnd(c, i).Some? {
      MarkerWellFormed(c, i, TagEnd(c, i).value);
    }
  }

  lemma {:induction false} TokenizeMarkersWellFormed(c: string, i: nat, buf: string)
    requires i <= |c|
    ensures forall p :: p in Tokenize(c, i, buf) ==> WellFormedMarker(p)
    decreases |c| - i
  {
    if i < |c| {
      var st := StepAt(c, i, buf);
      TokenizeMarkersWellFormed(c, st.next, st.buf);
      StepMarkersWellFormed(c, i, buf);
    }
  }

  // ---------------------------------------------------------------- every recognised tag is cut

  /**
   * The chunk laid over `c[p..q]` holds no tag the loop would have cut as a marker: no
   * `<file-token` starts strictly inside it, and one at its very start has no `>` after it.
   */
  predicate CleanChunk(c: string, p: nat, q: nat) {
    && (forall k :: p < k < q ==> !OccursAt(c, OpenTag, k))
    && (p < q && OccursAt(c, OpenTag, p) ==> TagEnd(c, p).None?)
  }

  /** The pieces laid end to end over `c` from index `p`, every chunk among them clean. */
  predicate ChunksClean(c: string, p: nat, ps: seq<Piece>)
    decreases |ps|
  {
    ps != [] ==>
      && p + |PieceText(ps[0])| <= |c|
      && (ps[0].Chunk? ==> CleanChunk(c, p, p + |ps[0].raw|))
      && ChunksClean(c, p + |PieceText(ps[0])|, ps[1..])
  }

  lemma ChunksCleanCons(c: string, p: nat, x: Piece, rest: seq<Piece>)
    requires p + |PieceText(x)| <= |c|
    requires x.Chunk? ==> CleanChunk(c, p, p + |x.raw|)
    requires ChunksClean(c, p + |PieceText(x)|, rest)
    ensures ChunksClean(c, p, [x] + rest)
  {
    assert ([x] + rest)[0] == x;
    assert ([x] + rest)[1..] == rest;
  }

  /** Plain text extends a clean chunk. */
  lemma CleanChunkGrows(c: string, s: nat, i: nat)
    requires s <= i < |c| && CleanChunk(c, s, i) && !OccursAt(c, OpenTag, i)
    ensures CleanChunk(c, s, i + 1)
  {
  }

  /** A `<file-token` with no `>` after it starts a clean chunk of one character. */
  lemma CleanChunkUnclosed(c: string, i: nat)
    requires i < |c| && OccursAt(c, OpenTag, i) && TagEnd(c, i).None?
    ensures CleanChunk(c, i, i + 1)
  {
  }

  /** Scanning from `i` with the clean text `c[s..i]` pending yields pieces whose chunks are all clean. */
  lemma {:induction false} TokenizeChunksClean(c: string, s: nat, i: nat)
    requires s <= i <= |c| && CleanChunk(c, s, i)
    ensures ChunksClean(c, s, Tokenize(c, i, c[s..i]))
    decreases |c| - i
  {
    if i == |c| {
      ChunksCleanCons(c, s, Chunk(c[s..i]), []);
      assert [Chunk(c[s..i])] + [] == [Chunk(c[s..i])];
    } else if OccursAt(c, OpenTag, i) && TagEnd(c, i).Some? {
      var e := ResumeIndex(c, TagEnd(c, i).value);
      TokenizeChunksClean(c, e, e);
      MarkerCutClean(c, s, i);
    } else if OccursAt(c, OpenTag, i) {
      CleanChunkUnclosed(c, i);
      TokenizeChunksClean(c, i, i + 1);
      UnclosedCutClean(c, s, i);
    } else {
      CleanChunkGrows(c, s, i);
      TokenizeChunksClean(c, s, i + 1);
      PlainStepClean(c, s, i);
    }
  }

  lemma MarkerCutClean(c: string, s: nat, i: nat)
    requires s <= i < |c| && CleanChunk(c, s, i) && OccursAt(c, OpenTag, i) && TagEnd(c, i).Some?
    requires var e := ResumeIndex(c, TagEnd(c, i).value); ChunksClean(c, e, Tokenize(c, e, c[e..e]))
    ensures ChunksClean(c, s, Tokenize(c, i, c[s..i]))
  {
    var ci := TagEnd(c, i).value;
    var e := ResumeIndex(c, ci);
    assert c[e..e] == [];
    TokenizeAtMarker(c, i, c[s..i]);
    ChunkThenMarker(c, s, i, c[s..i], Marker(c[i..e], c[i..ci]), Tokenize(c, e, []));
  }

  lemma ChunkThenMarker(c: string, s: nat, i: nat, buf: string, m: Piece, rest: seq<Piece>)
    requires s <= i && |buf| == i - s && CleanChunk(c, s, i) && m.Marker?
    requires i + |m.span| <= |c| && ChunksClean(c, i + |m.span|, rest)
    ensures ChunksClean(c, s, [Chunk(buf)] + ([m] + rest))
  {
    ChunksCleanCons(c, i, m, rest);
    ChunksCleanCons(c, s, Chunk(buf), [m] + rest);
  }

  /** The loop at a `<file-token` whose tag is closed by a `>`. */
  lemma TokenizeAtMarker(c: string, i: nat, buf: string)
    requires i < |c| && OccursAt(c, OpenTag, i) && TagEnd(c, i).Some?
    ensures var ci := TagEnd(c, i).value; var e := ResumeIndex(c, ci);
      Tokenize(c, i, buf) == [Chunk(buf)] + ([Marker(c[i..e], c[i..ci])] + Tokenize(c, e, []))
  {
    var ci := TagEnd(c, i).value;
    var e := ResumeIndex(c, ci);
    var m := Marker(c[i..e], c[i..ci]);
    assert [Chunk(buf), m] + Tokenize(c, e, []) == [Chunk(buf)] + ([m] + Tokenize(c, e, []));
  }

  lemma UnclosedCutClean(c: string, s: nat, i: nat)
    requires s <= i < |c| && CleanChunk(c, s, i) && OccursAt(c, OpenTag, i) && TagEnd(c, i).None?
    requires ChunksClean(c, i, Tokenize(c, i + 1, c[i..i + 1]))
    ensures ChunksClean(c, s, Tokenize(c, i, c[s..i]))
  {
    var buf := c[s..i];
    assert StepAt(c, i, buf) == Step([Chunk(buf)], i + 1, c[i..i + 1]);
    assert Tokenize(c, i, buf) == [Chunk(buf)] + Tokenize(c, i + 1, c[i..i + 1]);
    ChunksCleanCons(c, s, Chunk(buf), Tokenize(c, i + 1, c[i..i + 1]));
  }

  lemma PlainStepClean(c: string, s: nat, i: nat)
    requires s <= i < |c| && !OccursAt(c, OpenTag, i)
    requires ChunksClean(c, s, Tokenize(c, i + 1, c[s..i + 1]))
    ensures ChunksClean(c, s, Tokenize(c, i, c[s..i]))
  {
    assert StepAt(c, i, c[s..i]) == Step([], i + 1, c[s..i + 1]);
    assert Tokenize(c, i, c[s..i]) == [] + Tokenize(c, i + 1, c[s..i + 1]);
    assert [] + Tokenize(c, i + 1, c[s..i + 1]) == Tokenize(c, i + 1, c[s..i + 1]);
  }

  /**
   * Every `<file-token` the loop meets with a `>` after it is cut as a marker: laid over the
   * content, no chunk has a `<file-token` strictly inside it, and a chunk that starts with one has
   * no `>` after it.
   */
  lemma TokenizeFindsEveryTag(c: string)
    ensures ChunksClean(c, 0, Tokenize(c, 0, []))
  {
    assert c[0..0] == [];
    TokenizeChunksClean(c, 0, 0);
  }

  /** `ChunksClean` read off the pieces alone, each chunk judged on the text from it to the end. */
  lemma {:induction false} ChunksCleanSuffixes(c: string, p: nat, ps: seq<Piece>)
    requires p <= |c| && ChunksClean(c, p, ps) && Flatten(ps) == c[p..]
    ensures forall m :: 0 <= m < |ps| && ps[m].Chunk? ==>
      && (forall k: nat :: 0 < k < |ps[m].raw| ==> !OccursAt(Flatten(ps[m..]), OpenTag, k))
      && (ps[m].raw != [] && StartsWith(Flatten(ps[m..]), OpenTag) ==> '>' !in Flatten(ps[m..]))
    decreases |ps|
  {
    if ps != [] {
      var q := p + |PieceText(ps[0])|;
      assert Flatten(ps[1..]) == c[q..] by {
        assert c[p..] == PieceText(ps[0]) + Flatten(ps[1..]);
        assert c[p..][|PieceText(ps[0])|..] == c[q..];
      }
      ChunksCleanSuffixes(c, q, ps[1..]);
      forall m | 0 <= m < |ps| && ps[m].Chunk?
        ensures && (forall k: nat :: 0 < k < |ps[m].raw| ==> !OccursAt(Flatten(ps[m..]), OpenTag, k))
                && (ps[m].raw != [] && StartsWith(Flatten(ps[m..]), OpenTag) ==> '>' !in Flatten(ps[m..]))
      {
        if m == 0 {
          assert ps[0..] == ps;
          ChunkFromSuffix(c, p, |ps[0].raw|);
        } else {
          assert ps[m..] == ps[1..][m - 1..];
        }
      }
    }
  }

  /** A clean chunk of length `n` at `p`, judged on `c[p..]`. */
  lemma ChunkFromSuffix(c: string, p: nat, n: nat)
    requires p + n <= |c| && CleanChunk(c, p, p + n)
    ensures forall k: nat :: 0 < k < n ==> !OccursAt(c[p..], OpenTag, k)
    ensures n > 0 && StartsWith(c[p..], OpenTag) ==> '>' !in c[p..]
  {
    forall k: nat | 0 < k < n ensures !OccursAt(c[p..], OpenTag, k) {
      if OccursAt(c[p..], OpenTag, k) {
        assert c[p..][k..k + |OpenTag|] == c[p + k..p + k + |OpenTag|];
        assert OccursAt(c, OpenTag, p + k);
      }
    }
    if n > 0 && StartsWith(c[p..], OpenTag) {
      assert c[p..][0..|OpenTag|] == c[p..p + |OpenTag|];
      IndexOfIsFirst(c, ">", p);
      forall j | 0 <= j < |c[p..]| ensures c[p..][j] != '>' {
        OccursAtOne(c, '>', p + j);
      }
    }
  }

  /**
   * The same, on the pieces the loop returns: no chunk holds a `<file-token` after its first
   * character, even one running into the next piece; and a chunk that starts with `<file-token`
   * comes after the last `>` of the content.
   */
  lemma TokenizeLeavesNoTagInText(c: string)
    ensures var ps := Tokenize(c, 0, []);
      forall m :: 0 <= m < |ps| && ps[m].Chunk? ==>
        && (forall k: nat :: 0 < k < |ps[m].raw| ==> !OccursAt(Flatten(ps[m..]), OpenTag, k))
        && (ps[m].raw != [] && StartsWith(Flatten(ps[m..]), OpenTag) ==> '>' !in Flatten(ps[m..]))
  {
    TokenizeFindsEveryTag(c);
    TokenizeIsPartition(c, 0, []);
    assert [] + c[0..] == c[0..];
    ChunksCleanSuffixes(c, 0, Tokenize(c, 0, []));
  }

  // ---------------------------------------------------------------- rendering

  /** `addText`: an empty buffer adds nothing; otherwise one span with whitespace runs collapsed. */
  function TextElement(text: string): seq<Segment> {
    if text == [] then [] else [Text(Collapse(text))]
  }

  /** `addToken`: the first token with the id becomes a button; an unknown id adds nothing. */
  function TokenElement(id: string, tokens: seq<Token>, selected: Option<Token>): seq<Segment> {
    match FindToken(tokens, id)
    case Some(t) => [Att(t, IsActive(selected, t))]
    case None => []
  }

  function PieceElements(p: Piece, tokens: seq<Token>, selected: Option<Token>): seq<Segment> {
    match p
    case Chunk(raw) => TextElement(raw)
    case Marker(_, tag) =>
      match TagId(tag)
      case Some(id) => TokenElement(id, tokens, selected)
      case None => []
  }

  /**
   * A marker yields at most one segment, and never text: the button of the first token with the id
   * its tag names, active iff that token is selected; nothing when the tag has no `id="…"` or no
   * token has that id. What the span holds after the tag plays no part.
   */
  lemma MarkerElements(span: string, other: string, tag: string, tokens: seq<Token>, selected: Option<Token>)
    ensures var r := PieceElements(Marker(span, tag), tokens, selected);
      && |r| <= 1
      && (forall g :: g in r ==> g.Att?)
      && (r != [] <==> TagId(tag).Some? && exists t :: t in tokens && t.id == TagId(tag).value)
      && (r != [] ==> && r[0].token in tokens && r[0].token.id == TagId(tag).value
                      && FindToken(tokens, TagId(tag).value) == Some(r[0].token)
                      && r[0].active == IsActive(selected, r[0].token))
      && r == PieceElements(Marker(other, tag), tokens, selected)
  {
  }

  /** The segments of a run of pieces, in order (recursing on the last piece, as the loop appends). */
  function RenderPieces(ps: seq<Piece>, tokens: seq<Token>, selected: Option<Token>): seq<Segment> {
    if ps == [] then []
    else RenderPieces(ps[..|ps| - 1], tokens, selected) + PieceElements(ps[|ps| - 1], tokens, selected)
  }

  lemma RenderSnoc(ps: seq<Piece>, p: Piece, tokens: seq<Token>, selected: Option<Token>)
    ensures RenderPieces(ps + [p], tokens, selected) == RenderPieces(ps, tokens, selected) + PieceElements(p, tokens, selected)
  {
    assert (ps + [p])[..|ps|] == ps;
  }

  /** What `renderContent` returns for the stored content. */
  function Segments(content: string, tokens: seq<Token>, selected: Option<Token>): seq<Segment> {
    RenderPieces(Tokenize(StripParagraphTags(content), 0, []), tokens, selected)
  }

  /** A segment as `renderContent` may emit it. */
  predicate GoodSegment(g: Segment, tokens: seq<Token>, selected: Option<Token>) {
    match g
    case Text(s) => s != [] && IsCollapsed(s)
    case Att(t, active) => t in tokens && active == IsActive(selected, t) && FindToken(tokens, t.id) == Some(t)
  }

  /** The segments one piece yields are good. */
  lemma PieceElementsGood(p: Piece, tokens: seq<Token>, selected: Option<Token>)
    ensures forall g :: g in PieceElements(p, tokens, selected) ==> GoodSegment(g, tokens, selected)
  {
    if p.Marker? && TagId(p.tag).Some? {
      var id := TagId(p.tag).value;
      if FindToken(tokens, id).Some? {
        assert FindToken(tokens, id).value.id == id;
      }
    }
  }

  /**
   * Every text segment is non-empty with each whitespace run reduced to one space, and every button is
   * the first token carrying its id, highlighted exactly when it has the selected id.
   */
  lemma {:induction false} RenderedSegmentsGood(ps: seq<Piece>, tokens: seq<Token>, selected: Option<Token>)
    ensures forall g :: g in RenderPieces(ps, tokens, selected) ==> GoodSegment(g, tokens, selected)
  {
    if ps != [] {
      RenderedSegmentsGood(ps[..|ps| - 1], tokens, selected);
      PieceElementsGood(ps[|ps| - 1], tokens, selected);
    }
  }

  /** Each piece yields at most one segment, and every text segment is the collapsed text of a chunk. */
  lemma {:induction false} AtMostOneSegmentPerPiece(ps: seq<Piece>, tokens: seq<Token>, selected: Option<Token>)
    ensures |RenderPieces(ps, tokens, selected)| <= |ps|
    ensures forall g :: g in RenderPieces(ps, tokens, selected) && g.Text? ==> exists p :: p in ps && p.Chunk? && g.s == Collapse(p.raw)
  {
    if ps != [] {
      var init, last := ps[..|ps| - 1], ps[|ps| - 1];
      AtMostOneSegmentPerPiece(init, tokens, selected);
      var tail := PieceElements(last, tokens, selected);
      forall g | g in RenderPieces(ps, tokens, selected) && g.Text?
        ensures exists p :: p in ps && p.Chunk? && g.s == Collapse(p.raw)
      {
        if g in tail {
          assert last.Chunk? && g.s == Collapse(last.raw);
          assert last in ps;
        } else {
          assert g in RenderPieces(init, tokens, selected);
          var p :| p in init && p.Chunk? && g.s == Collapse(p.raw);
          assert p in ps;
        }
      }
    }
  }

  /** Every highlighted button shows the same token: the first one whose id is the selected id. */
  lemma ActiveButtonsShowSelected(content: string, tokens: seq<Token>, selected: Option<Token>)
    ensures forall g :: g in Segments(content, tokens, selected) && g.Att? && g.active ==>
      selected.Some? && FindToken(tokens, selected.value.id) == Some(g.token)
  {
    RenderedSegmentsGood(Tokenize(StripParagraphTags(content), 0, []), tokens, selected);
  }

  // ---------------------------------------------------------------- the loop

  /** The loop's pieces so far plus what remains to scan stay the whole tokenization across one pass. */
  lemma TokenizeStep(c: string, i: nat, buf: string, done: seq<Piece>)
    requires i < |c|
    requires Tokenize(c, 0, []) == done + Tokenize(c, i, buf)
    ensures Tokenize(c, 0, []) == (done + StepAt(c, i, buf).emitted) + Tokenize(c, StepAt(c, i, buf).next, StepAt(c, i, buf).buf)
  {
    var st := StepAt(c, i, buf);
    var rest := Tokenize(c, st.next, st.buf);
    assert Tokenize(c, i, buf) == st.emitted + rest;
    assert done + (st.emitted + rest) == (done + st.emitted) + rest;
  }

  lemma RenderTwo(ps: seq<Piece>, p: Piece, q: Piece, tokens: seq<Token>, selected: Option<Token>)
    ensures RenderPieces(ps + [p, q], tokens, selected) ==
      RenderPieces(ps, tokens, selected) + PieceElements(p, tokens, selected) + PieceElements(q, tokens, selected)
  {
    assert ps + [p, q] == (ps + [p]) + [q];
    RenderSnoc(ps + [p], q, tokens, selected);
    RenderSnoc(ps, p, tokens, selected);
  }

  /** `renderContent` of Bubble.tsx: the `processContent` loop with its `addText` / `addToken` pushes. */
  method ProcessContent(content: string, tokens: seq<Token>, selected: Option<Token>) returns (elements: seq<Segment>)
    ensures elements == Segments(content, tokens, selected)
    ensures forall g :: g in elements ==> GoodSegment(g, tokens, selected)
  {
    var c := StripParagraphTags(content);
    elements := [];
    var currentText := "";
    var i := 0;
    ghost var done: seq<Piece> := [];
    while i < |c|
      invariant i <= |c|
      invariant Tokenize(c, 0, []) == done + Tokenize(c, i, currentText)
      invariant elements == RenderPieces(done, tokens, selected)
      decreases |c| - i
    {
      ghost var st := StepAt(c, i, currentText);
      ghost var pending, doneBefore := currentText, done;
      TokenizeStep(c, i, currentText, done);
      if OccursAt(c, OpenTag, i) {
        elements := elements + TextElement(currentText);
        currentText := "";
        var closeIndex := TagEnd(c, i);
        if closeIndex.Some? {
          var ci := closeIndex.value;
          ghost var m := Marker(c[i..ResumeIndex(c, ci)], c[i..ci]);
          RenderTwo(done, Chunk(pending), m, tokens, selected);
          MarkerElements(m.span, m.span, m.tag, tokens, selected);
          var idMatch := TagId(c[i..ci]);
          if idMatch.Some? {
            elements := elements + TokenElement(idMatch.value, tokens, selected);
          }
          done := done + [Chunk(pending), m];
          i := ResumeIndex(c, ci);
        } else {
          RenderSnoc(done, Chunk(pending), tokens, selected);
          done := done + [Chunk(pending)];
          currentText := currentText + [c[i]];
          i := i + 1;
        }
      } else {
        currentText := currentText + [c[i]];
        i := i + 1;
      }
      assert i == st.next && currentText == st.buf && done == doneBefore + st.emitted;
    }
    RenderSnoc(done, Chunk(currentText), tokens, selected);
    elements := elements + TextElement(currentText);
    done := done + [Chunk(currentText)];
    RenderedSegmentsGood(done, tokens, selected);
  }
}
