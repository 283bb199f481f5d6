/** The few Python `str` operations the proxy fetcher relies on, stated over
    `seq<char>`: `str.isspace`, `str.splitlines`, `str.strip`, `str.lower`
    (ASCII part), and the text the result writer produces (one line per item). */
module PyText {

  /** Characters for which Python's `str.isspace()` holds. */
  predicate IsSpace(c: char) {
    ('\t' <= c <= '\r') || ('\U{1c}' <= c <= '\U{1f}') || c == ' ' ||
    c == '\U{85}' || c == '\U{a0}' || c == '\U{1680}' ||
    ('\U{2000}' <= c <= '\U{200a}') || c == '\U{2028}' || c == '\U{2029}' ||
    c == '\U{202f}' || c == '\U{205f}' || c == '\U{3000}'
  }

  /** Characters at which Python's `str.splitlines()` ends a line. */
  predicate IsLineBreak(c: char) {
    c == '\n' || c == '\r' || c == '\U{0b}' || c == '\U{0c}' ||
    ('\U{1c}' <= c <= '\U{1e}') || c == '\U{85}' || c == '\U{2028}' || c == '\U{2029}'
  }

  predicate AllSpace(s: string) {
    forall k :: 0 <= k < |s| ==> IsSpace(s[k])
  }

  predicate NoLineBreak(s: string) {
    forall k :: 0 <= k < |s| ==> !IsLineBreak(s[k])
  }

  /** A line as it comes out of `line.strip()` when that is not empty. */
  predicate IsTrimmedLine(h: string) {
    h != [] && !IsSpace(h[0]) && !IsSpace(h[|h| - 1]) && NoLineBreak(h)
  }

  /** Index of the first line-break character of `s`, or `|s|` if there is none. */
  function LineEnd(s: string): (k: nat)
    ensures k <= |s|
    ensures forall i :: 0 <= i < k ==> !IsLineBreak(s[i])
    ensures k < |s| ==> IsLineBreak(s[k])
  {
    if s == [] || IsLineBreak(s[0]) then 0 else 1 + LineEnd(s[1..])
  }

  /** The text with every line-boundary character removed. */
  function DropBreaks(s: string): string {
    if s == [] then [] else (if IsLineBreak(s[0]) then [] else [s[0]]) + DropBreaks(s[1..])
  }

  /** The lines glued back together, without separators. */
  function Concat(ls: seq<string>): string {
    if ls == [] then [] else ls[0] + Concat(ls[1..])
  }

  lemma {:induction false} DropBreaksAppend(a: string, b: string)
    ensures DropBreaks(a + b) == DropBreaks(a) + DropBreaks(b)
  {
    if a == [] {
      assert a + b == b;
    } else {
      assert (a + b)[0] == a[0];
      assert (a + b)[1..] == a[1..] + b;
      DropBreaksAppend(a[1..], b);
    }
  }

  lemma {:induction false} DropBreaksNone(s: string)
    requires NoLineBreak(s)
    ensures DropBreaks(s) == s
  {
    if s != [] {
      DropBreaksNone(s[1..]);
    }
  }

  lemma {:induction false} DropBreaksAll(s: string)
    requires forall i :: 0 <= i < |s| ==> IsLineBreak(s[i])
    ensures DropBreaks(s) == []
  {
    if s != [] {
      DropBreaksAll(s[1..]);
    }
  }

  /** A line `a`, then a run `b` of boundary characters, then the rest `c`. */
  lemma DropBreaksSplit(a: string, b: string, c: string)
    requires NoLineBreak(a)
    requires forall i :: 0 <= i < |b| ==> IsLineBreak(b[i])
    ensures DropBreaks(a + b + c) == a + DropBreaks(c)
  {
    assert a + b + c == a + (b + c);
    assert DropBreaks(b + c) == DropBreaks(c) by {
      DropBreaksAppend(b, c);
      DropBreaksAll(b);
    }
    DropBreaksAppend(a, b + c);
    DropBreaksNone(a);
  }

  /** Python's `s.splitlines()`: every line boundary ends a line (`\r\n` counts
      as one boundary), the boundaries are dropped, and a final line is only
      produced when it is not empty. */
  function SplitLines(s: string): (lines: seq<string>)
    ensures forall i :: 0 <= i < |lines| ==> NoLineBreak(lines[i])
    decreases |s|
  {
    if s == [] then []
    else
      var k := LineEnd(s);
      if k == |s| then [s]
      else
        var next := if s[k] == '\r' && k + 1 < |s| && s[k + 1] == '\n' then k + 2 else k + 1;
        [s[..k]] + SplitLines(s[next..])
  }

  /** Where `splitlines()` cuts a text that holds a boundary: the first line
      is `s[..k]`, the boundary is `s[k..next]`, the rest starts at `next`. */
  lemma SplitLinesCut(s: string) returns (k: nat, next: nat)
    requires s != [] && LineEnd(s) < |s|
    ensures k == LineEnd(s) && k < next <= |s|
    ensures next == k + 1 || (next == k + 2 && s[k] == '\r')
    ensures forall i :: 0 <= i < k ==> !IsLineBreak(s[i])
    ensures forall i :: k <= i < next ==> IsLineBreak(s[i])
    ensures SplitLines(s) == [s[..k]] + SplitLines(s[next..])
  {
    k := LineEnd(s);
    next := if s[k] == '\r' && k + 1 < |s| && s[k + 1] == '\n' then k + 2 else k + 1;
  }

  /** Dropping the boundaries of a text cut at `k..next` as above. */
  lemma DropBreaksCut(s: string, k: nat, next: nat)
    requires k <= next <= |s|
    requires forall i :: 0 <= i < k ==> !IsLineBreak(s[i])
    requires forall i :: k <= i < next ==> IsLineBreak(s[i])
    ensures DropBreaks(s) == s[..k] + DropBreaks(s[next..])
  {
    SliceThree(s, k, next);
    CutPieces(s, k, next);
    DropBreaksSplit(s[..k], s[k..next], s[next..]);
  }

  lemma SliceThree(s: string, k: nat, next: nat)
    requires k <= next <= |s|
    ensures s == s[..k] + s[k..next] + s[next..]
  {
  }

  lemma CutPieces(s: string, k: nat, next: nat)
    requires k <= next <= |s|
    requires forall i :: 0 <= i < k ==> !IsLineBreak(s[i])
    requires forall i :: k <= i < next ==> IsLineBreak(s[i])
    ensures NoLineBreak(s[..k])
    ensures forall i :: 0 <= i < |s[k..next]| ==> IsLineBreak(s[k..next][i])
  {
  }

  lemma ConcatCons(a: string, tail: seq<string>)
    ensures Concat([a] + tail) == a + Concat(tail)
  {
    assert ([a] + tail)[0] == a && ([a] + tail)[1..] == tail;
  }

  /** Gluing the lines back together gives the text without its boundary
      characters: `splitlines()` loses nothing else and moves nothing. */
  lemma {:induction false} SplitLinesKeepsText(s: string)
    ensures Concat(SplitLines(s)) == DropBreaks(s)
    decreases |s|
  {
    if s == [] {
    } else if LineEnd(s) == |s| {
      assert SplitLines(s) == [s];
      ConcatCons(s, []);
      DropBreaksNone(s);
    } else {
      var k, next := SplitLinesCut(s);
      ConcatCons(s[..k], SplitLines(s[next..]));
      SplitLinesKeepsText(s[next..]);
      DropBreaksCut(s, k, next);
    }
  }

  /** Number of whitespace characters at the start of `s`. */
  function LeadingSpace(s: string): (i: nat)
    ensures i <= |s|
    ensures forall k :: 0 <= k < i ==> IsSpace(s[k])
    ensures i < |s| ==> !IsSpace(s[i])
  {
    if s != [] && IsSpace(s[0]) then 1 + LeadingSpace(s[1..]) else 0
  }

  /** Python's `s.lstrip()`. */
  function StripLeft(s: string): (r: string)
    ensures |r| <= |s| && r == s[|s| - |r|..]
    ensures forall k :: 0 <= k < |s| - |r| ==> IsSpace(s[k])
    ensures r == [] || !IsSpace(r[0])
  {
    s[LeadingSpace(s)..]
  }

  /** Python's `s.rstrip()`. */
  function StripRight(s: string): (r: string)
    ensures |r| <= |s| && r == s[..|r|]
    ensures forall k :: |r| <= k < |s| ==> IsSpace(s[k])
    ensures r == [] || !IsSpace(r[|r| - 1])
  {
    if s != [] && IsSpace(s[|s| - 1]) then StripRight(s[..|s| - 1]) else s
  }

  /** Python's `s.strip()`: the slice `s[i..j]` left once the whitespace at
      both ends is cut off. */
  function Strip(s: string): (r: string)
    ensures LeadingSpace(s) + |r| <= |s| && r == s[LeadingSpace(s)..LeadingSpace(s) + |r|]
    ensures forall k :: LeadingSpace(s) + |r| <= k < |s| ==> IsSpace(s[k])
    ensures r == [] <==> AllSpace(s)
    ensures r != [] ==> !IsSpace(r[0]) && !IsSpace(r[|r| - 1])
  {
    StripRight(StripLeft(s))
  }

  /** Stripping a line never adds a line boundary. */
  lemma StripNoLineBreak(s: string)
    ensures NoLineBreak(s) ==> NoLineBreak(Strip(s))
  {
    var i, r := LeadingSpace(s), Strip(s);
    if NoLineBreak(s) {
      forall k | 0 <= k < |r| ensures !IsLineBreak(r[k]) {
        assert r[k] == s[i + k];
      }
    }
  }

  /** Python's `c.lower()` on ASCII letters; other characters are kept. */
  function LowerChar(c: char): (d: char)
    ensures 'A' <= c <= 'Z' ==> d as int == c as int + 32
    ensures !('A' <= c <= 'Z') ==> d == c
  {
    if 'A' <= c <= 'Z' then (c as int + 32) as char else c
  }

  /** Python's `s.lower()`, character by character. */
  function Lower(s: string): (r: string)
    ensures |r| == |s|
    ensures forall k :: 0 <= k < |s| ==> r[k] == LowerChar(s[k])
  {
    if s == [] then [] else [LowerChar(s[0])] + Lower(s[1..])
  }

  /** The text produced by writing `l + "\n"` for every `l` of `ls`, in order. */
  function JoinLines(ls: seq<string>): string {
    if ls == [] then [] else ls[0] + "\n" + JoinLines(ls[1..])
  }

  /** Writing one more line appends it, with its newline, at the end. */
  lemma {:induction false} JoinLinesSnoc(ls: seq<string>, l: string)
    ensures JoinLines(ls + [l]) == JoinLines(ls) + l + "\n"
  {
    if ls == [] {
      assert ls + [l] == [l];
    } else {
      assert (ls + [l])[0] == ls[0];
      assert (ls + [l])[1..] == ls[1..] + [l];
      JoinLinesSnoc(ls[1..], l);
    }
  }

  lemma NoLineBreakConcat(a: string, b: string)
    requires NoLineBreak(a) && NoLineBreak(b)
    ensures NoLineBreak(a + b)
  {
    forall k | 0 <= k < |a + b| ensures !IsLineBreak((a + b)[k]) {
      if k >= |a| {
        assert (a + b)[k] == b[k - |a|];
      }
    }
  }

  /** Number of occurrences of `c` in `s`. */
  function Count(c: char, s: string): nat {
    if s == [] then 0 else (if s[0] == c then 1 else 0) + Count(c, s[1..])
  }

  lemma {:induction false} CountAppend(c: char, a: string, b: string)
    ensures Count(c, a + b) == Count(c, a) + Count(c, b)
  {
    if a == [] {
      assert a + b == b;
    } else {
      assert (a + b)[1..] == a[1..] + b;
      CountAppend(c, a[1..], b);
    }
  }

  lemma {:induction false} CountPresent(c: char, s: string)
    requires c in s
    ensures Count(c, s) >= 1
  {
    if s[0] != c {
      CountPresent(c, s[1..]);
    }
  }

  /** Written lines hold one `"\n"` each: when no item contains a newline, the
      text has exactly as many newlines as items. */
  lemma {:induction false} JoinLinesNewlines(ls: seq<string>)
    requires forall i :: 0 <= i < |ls| ==> '\n' !in ls[i]
    ensures Count('\n', JoinLines(ls)) == |ls|
  {
    if ls != [] {
      JoinLinesNewlines(ls[1..]);
      CountAppend('\n', ls[0] + "\n", JoinLines(ls[1..]));
      CountAppend('\n', ls[0], "\n");
      CountAbsent('\n', ls[0]);
    }
  }

  lemma {:induction false} CountAbsent(c: char, s: string)
    requires c !in s
    ensures Count(c, s) == 0
  {
    if s != [] {
      CountAbsent(c, s[1..]);
    }
  }

  /** Reading the written text back with `splitlines()` gives back exactly the
      items written, in order, as long as no item contains a line boundary. */
  lemma {:induction false} SplitJoinLines(ls: seq<string>)
    requires forall i :: 0 <= i < |ls| ==> NoLineBreak(ls[i])
    ensures SplitLines(JoinLines(ls)) == ls
  {
    if ls != [] {
      var s := JoinLines(ls);
      var h, tail := ls[0], ls[1..];
      var rest := JoinLines(tail);
      assert s == h + "\n" + rest;
      JoinedParts(h, rest);
      LineEndAt(s, |h|);
      var k, next := SplitLinesCut(s);
      assert k == |h| && next == |h| + 1;
      assert forall i :: 0 <= i < |tail| ==> NoLineBreak(tail[i]);
      SplitJoinLines(tail);
      assert SplitLines(s) == [h] + tail;
      assert ls == [h] + tail;
    }
  }

  /** The pieces of one written line followed by the rest of the text. */
  lemma JoinedParts(h: string, rest: string)
    requires NoLineBreak(h)
    ensures var s := h + "\n" + rest;
      s[|h|] == '\n' && s[..|h|] == h && s[|h| + 1..] == rest &&
      forall i :: 0 <= i < |h| ==> !IsLineBreak(s[i])
  {
    var s := h + "\n" + rest;
    assert forall i :: 0 <= i < |h| ==> s[i] == h[i];
  }

  lemma LineEndAt(s: string, k: nat)
    requires k < |s| && IsLineBreak(s[k])
    requires forall i :: 0 <= i < k ==> !IsLineBreak(s[i])
    ensures LineEnd(s) == k
  {
  }

  predicate AllBlank(ls: seq<string>) {
    forall i :: 0 <= i < |ls| ==> AllSpace(ls[i])
  }

  lemma AllBlankCons(h: string, t: seq<string>)
    ensures AllBlank([h] + t) <==> AllSpace(h) && AllBlank(t)
  {
    assert ([h] + t)[0] == h;
    assert forall i :: 0 <= i < |t| ==> ([h] + t)[i + 1] == t[i];
    if AllSpace(h) && AllBlank(t) {
      forall i | 0 <= i < |[h] + t| ensures AllSpace(([h] + t)[i]) {
        if i > 0 { assert ([h] + t)[i] == t[i - 1]; }
      }
    }
  }

  /** Cutting out a run of line boundaries does not change whether a text is blank. */
  lemma BlankAroundBreak(s: string, k: nat, next: nat)
    requires k <= next <= |s|
    requires forall i :: k <= i < next ==> IsLineBreak(s[i])
    ensures AllSpace(s) <==> AllSpace(s[..k]) && AllSpace(s[next..])
  {
  }

  /** A text is blank (only whitespace) exactly when every line
      `splitlines()` cuts out of it is blank. */
  lemma {:induction false} SplitLinesAllBlank(s: string)
    ensures AllSpace(s) <==> AllBlank(SplitLines(s))
    decreases |s|
  {
    if s == [] {
    } else if LineEnd(s) == |s| {
      assert SplitLines(s) == [s];
      AllBlankCons(s, []);
      assert [s] + [] == [s];
    } else {
      var k := LineEnd(s);
      var next := if s[k] == '\r' && k + 1 < |s| && s[k + 1] == '\n' then k + 2 else k + 1;
      var tail := SplitLines(s[next..]);
      assert SplitLines(s) == [s[..k]] + tail;
      BlankAroundBreak(s, k, next);
      AllBlankCons(s[..k], tail);
      SplitLinesAllBlank(s[next..]);
    }
  }
}
