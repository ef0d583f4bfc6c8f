/**
 * String operations of JavaScript that the decision tables and tokenizers use, on `seq<char>`:
 * ASCII case mapping, prefix/suffix/substring tests, `indexOf`, `lastIndexOf`, `split` on one
 * character, and the `replace(/\s+/g, " ")` whitespace collapse.
 */
module Strings {
  import opened Wrappers

  // ---------------------------------------------------------------- case

  /** `toLowerCase` restricted to ASCII letters. */
  function LowerChar(c: char): char {
    if 'A' <= c <= 'Z' then (c as int + 32) as char else c
  }

  function Lower(s: string): (r: string)
    ensures |r| == |s|
    ensures forall i :: 0 <= i < |s| ==> r[i] == LowerChar(s[i])
  {
    if s == [] then [] else [LowerChar(s[0])] + Lower(s[1..])
  }

  // ---------------------------------------------------------------- substrings

  /** `p` occurs in `s` starting at index `k`. */
  predicate OccursAt(s: string, p: string, k: nat) {
    k + |p| <= |s| && s[k..k + |p|] == p
  }

  /** A one-character pattern occurs exactly where that character is. */
  lemma OccursAtOne(s: string, ch: char, k: nat)
    ensures OccursAt(s, [ch], k) <==> k < |s| && s[k] == ch
  {
    if k < |s| { assert s[k..k + 1] == [s[k]]; }
  }

  /** A pattern cannot occur where its first character is missing. */
  lemma NotOccursAtHead(s: string, p: string, k: nat)
    requires p != [] && (k >= |s| || s[k] != p[0])
    ensures !OccursAt(s, p, k)
  {
    if k + |p| <= |s| { assert s[k..k + |p|][0] == s[k]; }
  }

  predicate StartsWith(s: string, p: string) {
    OccursAt(s, p, 0)
  }

  predicate EndsWith(s: string, p: string) {
    |p| <= |s| && OccursAt(s, p, |s| - |p|)
  }

  /** A regular expression `/\.xyz$/i`: the suffix test with ASCII letters compared case-insensitively. */
  predicate EndsWithIgnoreCase(s: string, p: string) {
    EndsWith(Lower(s), Lower(p))
  }

  /** A suffix in the exact case is also a suffix when case is ignored. */
  lemma EndsWithIgnoresCase(s: string, p: string)
    requires EndsWith(s, p)
    ensures EndsWithIgnoreCase(s, p)
  {
    var ls, lp := Lower(s), Lower(p);
    var d := |s| - |p|;
    forall k | 0 <= k < |p| ensures ls[d..][k] == lp[k] {
      assert s[d..][k] == p[k];
    }
    assert ls[d..d + |lp|] == lp;
  }

  predicate Contains(s: string, p: string) {
    exists k: nat :: k <= |s| && OccursAt(s, p, k)
  }

  /** `s.indexOf(p, from)`: the first occurrence of `p` at or after `from`, `None` for -1. */
  function IndexOf(s: string, p: string, from: nat): (r: Option<nat>)
    decreases |s| - from
    ensures r.Some? ==> from <= r.value && OccursAt(s, p, r.value)
  {
    if from + |p| > |s| then None
    else if s[from..from + |p|] == p then Some(from)
    else IndexOf(s, p, from + 1)
  }

  /** What `IndexOf` finds is the first occurrence, and `None` means there is none. */
  /** An occurrence found in `a` is found at the same place in `a + b`. */
  lemma {:induction false} IndexOfInFront(a: string, b: string, p: string, from: nat)
    requires IndexOf(a, p, from).Some?
    ensures IndexOf(a + b, p, from) == IndexOf(a, p, from)
    decreases |a| - from
  {
    AppendSlice(a, b, from, from + |p|);
    if a[from..from + |p|] != p {
      IndexOfInFront(a, b, p, from + 1);
    }
  }

  lemma {:induction false} IndexOfIsFirst(s: string, p: string, from: nat)
    ensures IndexOf(s, p, from).Some? ==> forall k: nat :: from <= k < IndexOf(s, p, from).value ==> !OccursAt(s, p, k)
    ensures IndexOf(s, p, from).None? ==> forall k: nat :: from <= k ==> !OccursAt(s, p, k)
    decreases |s| - from
  {
    if from + |p| <= |s| && s[from..from + |p|] != p {
      IndexOfIsFirst(s, p, from + 1);
    }
  }

  /** `s.lastIndexOf(c)` for one character, `None` for -1. */
  function LastIndexOf(s: string, c: char): (r: Option<nat>)
    ensures r.Some? ==> r.value < |s| && s[r.value] == c
    ensures r.Some? ==> forall k :: r.value < k < |s| ==> s[k] != c
    ensures r.None? ==> forall k :: 0 <= k < |s| ==> s[k] != c
  {
    if s == [] then None
    else if s[|s| - 1] == c then Some(|s| - 1)
    else LastIndexOf(s[..|s| - 1], c)
  }

  // ---------------------------------------------------------------- split

  /** `s.split(sep)` for a one-character separator; like JavaScript, `""` splits into `[""]`. */
  function Split(s: string, sep: char): (parts: seq<string>)
    ensures |parts| >= 1
  {
    if s == [] then [[]]
    else
      var rest := Split(s[1..], sep);
      if s[0] == sep then [[]] + rest else [[s[0]] + rest[0]] + rest[1..]
  }

  /** The inverse of `Split`: the parts with `sep` between each two. */
  function Join(parts: seq<string>, sep: char): string
    requires |parts| >= 1
  {
    if |parts| == 1 then parts[0] else parts[0] + [sep] + Join(parts[1..], sep)
  }

  function Count(s: string, c: char): nat {
    if s == [] then 0 else (if s[0] == c then 1 else 0) + Count(s[1..], c)
  }

  /** `s.split(sep).pop()`: the last part. */
  function LastPart(s: string, sep: char): string {
    var parts := Split(s, sep);
    parts[|parts| - 1]
  }

  lemma {:induction false} JoinSplit(s: string, sep: char)
    ensures Join(Split(s, sep), sep) == s
  {
    if s != [] {
      JoinSplit(s[1..], sep);
      var rest := Split(s[1..], sep);
      if s[0] != sep && |rest| > 1 {
        assert rest == [rest[0]] + rest[1..];
        assert Join(rest, sep) == rest[0] + [sep] + Join(rest[1..], sep);
        assert s == [s[0]] + s[1..];
      }
    }
  }

  lemma {:induction false} SplitCount(s: string, sep: char)
    ensures |Split(s, sep)| == Count(s, sep) + 1
  {
    if s != [] { SplitCount(s[1..], sep); }
  }

  lemma {:induction false} SplitPartsFree(s: string, sep: char)
    ensures forall k :: 0 <= k < |Split(s, sep)| ==> sep !in Split(s, sep)[k]
  {
    if s != [] {
      SplitPartsFree(s[1..], sep);
      var rest := Split(s[1..], sep);
      if s[0] != sep {
        var parts := Split(s, sep);
        assert parts[0] == [s[0]] + rest[0];
        forall k | 1 <= k < |parts| ensures sep !in parts[k] { assert parts[k] == rest[k]; }
      }
    }
  }

  /** The last part of a split is the text after the last separator, or all of `s` without one. */
  lemma {:induction false} LastPartAfterLastSep(s: string, sep: char)
    ensures LastIndexOf(s, sep).None? ==> LastPart(s, sep) == s
    ensures LastIndexOf(s, sep).Some? ==> LastPart(s, sep) == s[LastIndexOf(s, sep).value + 1..]
  {
    if s != [] {
      LastPartAfterLastSep(s[1..], sep);
      var rest := Split(s[1..], sep);
      var t := LastIndexOf(s[1..], sep);
      LastIndexOfCons(s, sep);
      SplitSingle(s[1..], sep);
      if s[0] == sep {
        assert Split(s, sep) == [[]] + rest;
        assert LastPart(s, sep) == LastPart(s[1..], sep);
        if t.Some? {
          assert s[1..][t.value + 1..] == s[t.value + 2..];
        }
      } else if t.Some? {
        var j := t.value;
        assert s[1..][j] == sep;
        assert |rest| != 1;
        assert Split(s, sep) == [[s[0]] + rest[0]] + rest[1..];
        assert LastPart(s, sep) == LastPart(s[1..], sep);
        assert s[1..][j + 1..] == s[j + 2..];
      } else {
        assert sep !in s[1..] by {
          forall k | 0 <= k < |s[1..]| ensures s[1..][k] != sep { }
        }
        assert Split(s, sep) == [[s[0]] + rest[0]];
        assert s == [s[0]] + s[1..];
      }
    }
  }

  /** A split yields a single part exactly when the separator does not occur. */
  lemma {:induction false} SplitSingle(s: string, sep: char)
    ensures |Split(s, sep)| == 1 <==> sep !in s
  {
    if s != [] {
      SplitSingle(s[1..], sep);
      assert s == [s[0]] + s[1..];
    }
  }

  /** The index of the last `c` is the one after which no `c` follows. */
  lemma {:induction false} LastIndexOfUnique(s: string, c: char, j: nat)
    requires j < |s| && s[j] == c
    requires forall k :: j < k < |s| ==> s[k] != c
    ensures LastIndexOf(s, c) == Some(j)
  {
    if s[|s| - 1] != c {
      LastIndexOfUnique(s[..|s| - 1], c, j);
    }
  }

  lemma {:induction false} LastIndexOfAbsent(s: string, c: char)
    requires forall k :: 0 <= k < |s| ==> s[k] != c
    ensures LastIndexOf(s, c).None?
  {
    if s != [] {
      LastIndexOfAbsent(s[..|s| - 1], c);
    }
  }

  /** How `LastIndexOf` of `s` relates to that of its tail. */
  lemma LastIndexOfCons(s: string, c: char)
    requires s != []
    ensures LastIndexOf(s[1..], c).Some? ==> LastIndexOf(s, c) == Some(LastIndexOf(s[1..], c).value + 1)
    ensures LastIndexOf(s[1..], c).None? && s[0] == c ==> LastIndexOf(s, c) == Some(0)
    ensures LastIndexOf(s[1..], c).None? && s[0] != c ==> LastIndexOf(s, c).None?
  {
    var t := LastIndexOf(s[1..], c);
    if t.Some? {
      assert s[t.value + 1] == s[1..][t.value];
      forall k | t.value + 1 < k < |s| ensures s[k] != c { assert s[k] == s[1..][k - 1]; }
      LastIndexOfUnique(s, c, t.value + 1);
    } else {
      forall k | 0 < k < |s| ensures s[k] != c { assert s[k] == s[1..][k - 1]; }
      if s[0] == c {
        LastIndexOfUnique(s, c, 0);
      } else {
        LastIndexOfAbsent(s, c);
      }
    }
  }

  // ---------------------------------------------------------------- whitespace

  /** The characters JavaScript's `\s` matches. */
  predicate IsSpace(c: char) {
    || c == ' ' || c == '\t' || c == '\n' || c == '\U{B}' || c == '\U{C}' || c == '\r'
    || c == '\U{A0}' || c == '\U{1680}' || ('\U{2000}' <= c <= '\U{200A}')
    || c == '\U{2028}' || c == '\U{2029}' || c == '\U{202F}' || c == '\U{205F}'
    || c == '\U{3000}' || c == '\U{FEFF}'
  }

  /** `s` with its leading whitespace run removed. */
  function DropSpaces(s: string): (r: string)
    ensures |r| <= |s| && r == s[|s| - |r|..]
    ensures r == [] || !IsSpace(r[0])
    ensures forall k :: 0 <= k < |s| - |r| ==> IsSpace(s[k])
  {
    if s != [] && IsSpace(s[0]) then DropSpaces(s[1..]) else s
  }

  /** No character of `s` is whitespace other than a single space standing alone. */
  predicate IsCollapsed(s: string) {
    forall i :: 0 <= i < |s| && IsSpace(s[i]) ==> s[i] == ' ' && (i + 1 < |s| ==> !IsSpace(s[i + 1]))
  }

  /** `s.replace(/\s+/g, " ")`: every maximal whitespace run becomes one space. */
  function Collapse(s: string): (r: string)
    decreases |s|
    ensures IsCollapsed(r)
    ensures r == [] <==> s == []
    ensures s != [] && IsSpace(s[0]) ==> r[0] == ' '
    ensures s != [] && !IsSpace(s[0]) ==> r[0] == s[0]
  {
    if s == [] then []
    else if IsSpace(s[0]) then
      var rest := Collapse(DropSpaces(s[1..]));
      ConsCollapsed(' ', rest);
      [' '] + rest
    else
      var rest := Collapse(s[1..]);
      ConsCollapsed(s[0], rest);
      [s[0]] + rest
  }

  /** A character put in front of a collapsed string keeps it collapsed, unless it starts a second whitespace. */
  lemma ConsCollapsed(c: char, r: string)
    requires IsCollapsed(r)
    requires IsSpace(c) ==> c == ' ' && (r == [] || !IsSpace(r[0]))
    ensures IsCollapsed([c] + r)
  {
    var t := [c] + r;
    forall i | 0 <= i < |t| && IsSpace(t[i]) ensures t[i] == ' ' && (i + 1 < |t| ==> !IsSpace(t[i + 1])) {
      if i > 0 { assert t[i] == r[i - 1]; if i + 1 < |t| { assert t[i + 1] == r[i]; } }
    }
  }

  /** The non-whitespace characters of `s`, in order. */
  function Visible(s: string): string {
    if s == [] then [] else (if IsSpace(s[0]) then [] else [s[0]]) + Visible(s[1..])
  }

  lemma {:induction false} VisibleOfSpaces(s: string, n: nat)
    requires n <= |s|
    requires forall k :: 0 <= k < n ==> IsSpace(s[k])
    ensures Visible(s) == Visible(s[n..])
  {
    if n > 0 {
      VisibleOfSpaces(s[1..], n - 1);
      assert s[1..][n - 1..] == s[n..];
    }
  }

  /** Collapsing whitespace keeps every other character, in order. */
  lemma {:induction false} CollapseKeepsVisible(s: string)
    ensures Visible(Collapse(s)) == Visible(s)
    decreases |s|
  {
    if s != [] {
      var r := Collapse(s);
      if IsSpace(s[0]) {
        var d := DropSpaces(s[1..]);
        CollapseKeepsVisible(d);
        assert r == [' '] + Collapse(d);
        assert r[1..] == Collapse(d);
        VisibleOfSpaces(s[1..], |s[1..]| - |d|);
      } else {
        CollapseKeepsVisible(s[1..]);
        assert r[1..] == Collapse(s[1..]);
      }
    }
  }

  /** A string that is already collapsed is left as it is; so collapsing twice is collapsing once. */
  lemma {:induction false} CollapseFixesCollapsed(s: string)
    requires IsCollapsed(s)
    ensures Collapse(s) == s
    decreases |s|
  {
    if s != [] {
      assert IsCollapsed(s[1..]) by {
        forall i | 0 <= i < |s[1..]| && IsSpace(s[1..][i])
          ensures s[1..][i] == ' ' && (i + 1 < |s[1..]| ==> !IsSpace(s[1..][i + 1]))
        {
          assert s[1..][i] == s[i + 1];
        }
      }
      if IsSpace(s[0]) {
        assert s[0] == ' ';
        assert DropSpaces(s[1..]) == s[1..] by {
          if s[1..] != [] { assert !IsSpace(s[1]); }
        }
      }
      CollapseFixesCollapsed(s[1..]);
      assert s == [s[0]] + s[1..];
    }
  }

  lemma CollapseIdempotent(s: string)
    ensures Collapse(Collapse(s)) == Collapse(s)
  {
    CollapseFixesCollapsed(Collapse(s));
  }

  predicate AllSpace(w: string) {
    forall k :: 0 <= k < |w| ==> IsSpace(w[k])
  }

  /**
   * A whitespace run between two non-whitespace neighbours (or the ends of the text) becomes exactly
   * one space, and the text on either side is collapsed on its own.
   */
  lemma {:induction false} CollapseAtRun(x: string, w: string, y: string)
    requires w != [] && AllSpace(w)
    requires x == [] || !IsSpace(x[|x| - 1])
    requires y == [] || !IsSpace(y[0])
    ensures Collapse(x + w + y) == Collapse(x) + " " + Collapse(y)
    decreases |x|
  {
    if x == [] {
      CollapseRunAlone(w, y);
      AppendEmpty(x, w);
      AppendEmpty(Collapse(x), " ");
    } else if !IsSpace(x[0]) {
      TailKeepsLast(x);
      CollapseAtRun(x[1..], w, y);
      CollapseRunAfterHead(x, w, y);
    } else {
      DropSpacesKeepsLast(x);
      CollapseAtRun(DropSpaces(x[1..]), w, y);
      CollapseRunAfterHead(x, w, y);
    }
  }

  /** One step of the induction: the first character of `x` in front of the run. */
  lemma CollapseRunAfterHead(x: string, w: string, y: string)
    requires x != [] && !IsSpace(x[|x| - 1])
    requires !IsSpace(x[0]) ==> Collapse(x[1..] + w + y) == Collapse(x[1..]) + " " + Collapse(y)
    requires IsSpace(x[0]) ==>
      Collapse(DropSpaces(x[1..]) + w + y) == Collapse(DropSpaces(x[1..])) + " " + Collapse(y)
    ensures Collapse(x + w + y) == Collapse(x) + " " + Collapse(y)
  {
    var s, t := x + w + y, x[1..];
    AppendAssoc(x, w, y);
    AppendAssoc(t, w, y);
    AppendTail(x, w + y);
    if !IsSpace(x[0]) {
      CollapseAtVisible(s);
      CollapseAtVisible(x);
      ConsRegroup([x[0]], Collapse(t), " ", Collapse(y));
    } else {
      assert |x| >= 2 && t[|t| - 1] == x[|x| - 1];
      DropSpacesAppend(t, w + y);
      AppendAssoc(t, w, y);
      AppendAssoc(DropSpaces(t), w, y);
      CollapseAtSpace(s);
      CollapseAtSpace(x);
      ConsRegroup([' '], Collapse(DropSpaces(t)), " ", Collapse(y));
    }
  }

  lemma ConsRegroup(a: string, b: string, c: string, d: string)
    ensures a + (b + c + d) == a + b + c + d
  {
    AppendAssoc(a, b + c, d);
    AppendAssoc(a, b, c);
  }

  lemma TailKeepsLast(x: string)
    requires x != [] && !IsSpace(x[|x| - 1])
    ensures x[1..] == [] || !IsSpace(x[1..][|x[1..]| - 1])
  {
    if x[1..] != [] { assert x[1..][|x[1..]| - 1] == x[|x| - 1]; }
  }

  /** Behind a leading whitespace run there is still the last character of `x`, which is not whitespace. */
  lemma DropSpacesKeepsLast(x: string)
    requires x != [] && IsSpace(x[0]) && !IsSpace(x[|x| - 1])
    ensures var d := DropSpaces(x[1..]); d != [] && !IsSpace(d[|d| - 1])
  {
    var t := x[1..];
    assert |x| >= 2 && t[|t| - 1] == x[|x| - 1];
    var d := DropSpaces(t);
    assert d[|d| - 1] == t[|t| - 1];
  }

  /** With nothing before the run, the whole run is the one leading space. */
  lemma CollapseRunAlone(w: string, y: string)
    requires w != [] && AllSpace(w)
    requires y == [] || !IsSpace(y[0])
    ensures Collapse(w + y) == " " + Collapse(y)
  {
    AppendTail(w, y);
    DropSpacesRun(w[1..], y);
    CollapseAtSpace(w + y);
  }

  lemma CollapseAtSpace(s: string)
    requires s != [] && IsSpace(s[0])
    ensures Collapse(s) == [' '] + Collapse(DropSpaces(s[1..]))
  {
  }

  lemma CollapseAtVisible(s: string)
    requires s != [] && !IsSpace(s[0])
    ensures Collapse(s) == [s[0]] + Collapse(s[1..])
  {
  }

  lemma {:induction false} DropSpacesRun(w: string, y: string)
    requires AllSpace(w)
    requires y == [] || !IsSpace(y[0])
    ensures DropSpaces(w + y) == y
    decreases |w|
  {
    if w == [] {
      assert w + y == y;
    } else {
      assert IsSpace((w + y)[0]);
      assert (w + y)[1..] == w[1..] + y;
      DropSpacesRun(w[1..], y);
    }
  }

  /** When `s` ends in a non-whitespace character, dropping leading whitespace stays inside `s`. */
  lemma {:induction false} DropSpacesAppend(s: string, v: string)
    requires s != [] && !IsSpace(s[|s| - 1])
    ensures DropSpaces(s + v) == DropSpaces(s) + v
    decreases |s|
  {
    if IsSpace(s[0]) {
      assert |s| >= 2;
      assert (s + v)[0] == s[0];
      assert (s + v)[1..] == s[1..] + v;
      assert s[1..][|s[1..]| - 1] == s[|s| - 1];
      DropSpacesAppend(s[1..], v);
    } else {
      assert (s + v)[0] == s[0];
    }
  }
}
