/**
 The few Python `str` operations the layout pipeline relies on, over `seq<char>`:
 substring test (`sub in s`), `startswith`, `count` of one character,
 code-point ordering of strings (what `list.sort(key=...)` compares) and
 `splitlines`.
 */
module Strings {

  /** Concatenation regroups freely; stated once so that long proofs need not rediscover it. */
  lemma AppendAssoc<T>(a: seq<T>, b: seq<T>, c: seq<T>)
    ensures a + b + c == a + (b + c)
  {
  }

  /** `sub` occurs in `s` at index `i`. */
  predicate OccursAt(s: string, sub: string, i: int) {
    0 <= i && i + |sub| <= |s| && s[i..i + |sub|] == sub
  }

  predicate StartsWith(s: string, prefix: string) {
    |prefix| <= |s| && s[..|prefix|] == prefix
  }

  lemma ShiftOccurs(s: string, sub: string, i: int)
    requires |s| > 0 && i >= 0
    ensures OccursAt(s[1..], sub, i) <==> OccursAt(s, sub, i + 1)
  {
    if 0 <= i && i + |sub| <= |s| - 1 {
      assert s[1..][i..i + |sub|] == s[i + 1..i + 1 + |sub|];
    }
  }

  /** Python's `sub in s`: a left-to-right scan for a starting position. */
  function Contains(s: string, sub: string): (r: bool)
    ensures r <==> exists i :: OccursAt(s, sub, i)
    decreases |s|
  {
    if StartsWith(s, sub) then
      assert OccursAt(s, sub, 0);
      true
    else if |s| == 0 then
      false
    else
      var r := Contains(s[1..], sub);
      assert r ==> exists i :: OccursAt(s, sub, i) by {
        if r {
          var i :| OccursAt(s[1..], sub, i);
          ShiftOccurs(s, sub, i);
        }
      }
      assert (exists i :: OccursAt(s, sub, i)) ==> r by {
        if exists i :: OccursAt(s, sub, i) {
          var i :| OccursAt(s, sub, i);
          assert i != 0;
          ShiftOccurs(s, sub, i - 1);
        }
      }
      r
  }

  /** Python's `s.count(c)` for a one-character needle. */
  function CountChar(s: string, c: char): (n: nat)
    ensures n == multiset(s)[c]
    ensures n > 0 <==> c in s
  {
    if |s| == 0 then 0
    else
      assert s == [s[0]] + s[1..];
      (if s[0] == c then 1 else 0) + CountChar(s[1..], c)
  }

  /** Counting over a concatenation adds the counts of the parts. */
  lemma CountCharAppend(a: string, b: string, c: char)
    ensures CountChar(a + b, c) == CountChar(a, c) + CountChar(b, c)
  {
    assert multiset(a + b) == multiset(a) + multiset(b);
  }

  /** Code-point lexicographic order on strings, as Python compares `str` values. */
  predicate StrLe(a: string, b: string) {
    |a| == 0 || (|b| > 0 && (a[0] < b[0] || (a[0] == b[0] && StrLe(a[1..], b[1..]))))
  }

  lemma {:induction false} StrLeTotal(a: string, b: string)
    ensures StrLe(a, b) || StrLe(b, a)
  {
    if |a| > 0 && |b| > 0 && a[0] == b[0] {
      StrLeTotal(a[1..], b[1..]);
    }
  }

  lemma {:induction false} StrLeTransitive(a: string, b: string, c: string)
    requires StrLe(a, b) && StrLe(b, c)
    ensures StrLe(a, c)
  {
    if |a| > 0 && a[0] == b[0] && b[0] == c[0] {
      StrLeTransitive(a[1..], b[1..], c[1..]);
    }
  }

  /** The characters `str.splitlines` treats as line boundaries. */
  predicate IsLineBreak(c: char) {
    c == '\n' || c == '\r' || c == '\U{000B}' || c == '\U{000C}' || c == '\U{001C}'
    || c == '\U{001D}' || c == '\U{001E}' || c == '\U{0085}' || c == '\U{2028}' || c == '\U{2029}'
  }

  predicate NoLineBreak(s: string) {
    forall i :: 0 <= i < |s| ==> !IsLineBreak(s[i])
  }

  /** Index of the first line boundary in `s`, or `|s|` when there is none. */
  function FirstBreak(s: string): (k: nat)
    ensures k <= |s|
    ensures NoLineBreak(s[..k])
    ensures k < |s| ==> IsLineBreak(s[k])
  {
    if |s| == 0 || IsLineBreak(s[0]) then 0
    else
      var k := FirstBreak(s[1..]);
      assert s[..k + 1] == [s[0]] + s[1..][..k];
      k + 1
  }

  /** How many characters the boundary at `k` spans: two for `"\r\n"`, else one. */
  function BreakWidth(s: string, k: nat): (w: nat)
    requires k < |s|
    ensures 1 <= w <= 2 && k + w <= |s|
  {
    if s[k] == '\r' && k + 1 < |s| && s[k + 1] == '\n' then 2 else 1
  }

  /** What `DropBreaks` keeps of one character: nothing for a line boundary, the character otherwise. */
  function Kept(c: char): string {
    if IsLineBreak(c) then [] else [c]
  }

  /** `s` with every line-boundary character removed. */
  function DropBreaks(s: string): string {
    if |s| == 0 then []
    else Kept(s[0]) + DropBreaks(s[1..])
  }

  function Concat(lines: seq<string>): string {
    if |lines| == 0 then [] else lines[0] + Concat(lines[1..])
  }

  /**
   Python's `s.splitlines()`: cut at every line boundary, `"\r\n"` counting
   as one; a trailing boundary does not start an empty last line, and the
   empty string has no lines.
   */
  function SplitLines(s: string): (lines: seq<string>)
    ensures forall k :: 0 <= k < |lines| ==> NoLineBreak(lines[k])
    ensures |s| > 0 <==> |lines| > 0
    decreases |s|
  {
    if |s| == 0 then []
    else
      var k := FirstBreak(s);
      if k == |s| then [s]
      else
        [s[..k]] + SplitLines(s[k + BreakWidth(s, k)..])
  }

  lemma {:induction false} DropBreaksAppend(a: string, b: string)
    ensures DropBreaks(a + b) == DropBreaks(a) + DropBreaks(b)
    decreases |a|
  {
    if |a| == 0 {
      assert a + b == b;
    } else {
      var ab := a + b;
      assert ab[0] == a[0] && ab[1..] == a[1..] + b;
      DropBreaksAppend(a[1..], b);
      AppendAssoc(Kept(a[0]), DropBreaks(a[1..]), DropBreaks(b));
    }
  }

  lemma {:induction false} DropBreaksNone(s: string)
    requires NoLineBreak(s)
    ensures DropBreaks(s) == s
    decreases |s|
  {
    if |s| > 0 {
      DropBreaksNone(s[1..]);
    }
  }

  /** The boundary at `k`, one or two characters, vanishes entirely. */
  lemma DropBreaksBoundary(s: string, k: nat)
    requires k < |s| && IsLineBreak(s[k])
    ensures DropBreaks(s[k..k + BreakWidth(s, k)]) == []
  {
    var sep := s[k..k + BreakWidth(s, k)];
    assert sep[0] == s[k];
    if |sep| == 2 {
      assert sep[1] == '\n' && IsLineBreak(sep[1..][0]) && sep[1..][1..] == [];
      assert DropBreaks(sep[1..]) == [];
    } else {
      assert sep[1..] == [];
    }
  }

  /** A line, then boundary characters only, then the rest: the line is kept whole, the boundaries dropped. */
  lemma DropBreaksJoin(head: string, sep: string, rest: string)
    requires NoLineBreak(head) && DropBreaks(sep) == []
    ensures DropBreaks(head + sep + rest) == head + DropBreaks(rest)
  {
    DropBreaksNone(head);
    DropBreaksAppend(head + sep, rest);
    DropBreaksAppend(head, sep);
    assert DropBreaks(head + sep) == head;
  }

  /** One cut of `splitlines`: the first line, then the lines after its boundary; the boundary drops out. */
  lemma SplitLinesCut(s: string)
    requires FirstBreak(s) < |s|
    ensures var k := FirstBreak(s); var rest := s[k + BreakWidth(s, k)..];
      && SplitLines(s) == [s[..k]] + SplitLines(rest)
      && DropBreaks(s) == s[..k] + DropBreaks(rest)
  {
    var k := FirstBreak(s);
    var sep := s[k..k + BreakWidth(s, k)];
    var rest := s[k + BreakWidth(s, k)..];
    DropBreaksBoundary(s, k);
    assert s == s[..k] + sep + rest;
    DropBreaksJoin(s[..k], sep, rest);
  }

  lemma ConcatCons(line: string, lines: seq<string>)
    ensures Concat([line] + lines) == line + Concat(lines)
  {
    assert ([line] + lines)[1..] == lines;
  }

  /** A value with no line boundary is one line, kept whole. */
  lemma SplitLinesWhole(s: string)
    requires |s| > 0 && FirstBreak(s) == |s|
    ensures Concat(SplitLines(s)) == DropBreaks(s)
  {
    assert s[..|s|] == s;
    DropBreaksNone(s);
    ConcatCons(s, []);
  }

  /** Splitting loses exactly the line boundaries: the lines, put back together, are `s` without them. */
  lemma {:induction false} SplitLinesKeepsText(s: string)
    ensures Concat(SplitLines(s)) == DropBreaks(s)
    decreases |s|
  {
    if |s| > 0 {
      var k := FirstBreak(s);
      if k == |s| {
        SplitLinesWhole(s);
      } else {
        var rest := s[k + BreakWidth(s, k)..];
        SplitLinesCut(s);
        ConcatCons(s[..k], SplitLines(rest));
        SplitLinesKeepsText(rest);
      }
    }
  }

  /** Lines joined by `"\n"`, the way a multi-line settings value is written. */
  function JoinLines(lines: seq<string>): string {
    if |lines| == 0 then []
    else if |lines| == 1 then lines[0]
    else lines[0] + "\n" + JoinLines(lines[1..])
  }

  /** Lines whose last one is non-empty join to a non-empty text. */
  lemma {:induction false} JoinLinesNonEmpty(lines: seq<string>)
    requires |lines| > 0 && |lines[|lines| - 1]| > 0
    ensures |JoinLines(lines)| > 0
    decreases |lines|
  {
    if |lines| > 1 {
      JoinLinesNonEmpty(lines[1..]);
    }
  }

  /** A text with no line boundary has its first boundary at its end. */
  lemma {:induction false} FirstBreakNone(s: string)
    requires NoLineBreak(s)
    ensures FirstBreak(s) == |s|
    decreases |s|
  {
    if |s| > 0 {
      FirstBreakNone(s[1..]);
    }
  }

  /** The first boundary of `a + [c] + b` is `c` when `a` has none. */
  lemma {:induction false} FirstBreakAt(a: string, c: char, b: string)
    requires NoLineBreak(a) && IsLineBreak(c)
    ensures FirstBreak(a + [c] + b) == |a|
    decreases |a|
  {
    var s := a + [c] + b;
    if |a| > 0 {
      assert s[0] == a[0] && s[1..] == a[1..] + [c] + b;
      FirstBreakAt(a[1..], c, b);
    } else {
      assert s[0] == c;
    }
  }

  /**
   `splitlines` undoes a `"\n"` join: lines free of line boundaries, the last
   one non-empty, come back exactly, empty lines in between included.
   */
  lemma {:induction false} SplitJoinLines(lines: seq<string>)
    requires forall k :: 0 <= k < |lines| ==> NoLineBreak(lines[k])
    requires |lines| > 0 ==> |lines[|lines| - 1]| > 0
    ensures SplitLines(JoinLines(lines)) == lines
    decreases |lines|
  {
    if |lines| == 1 {
      FirstBreakNone(lines[0]);
      assert lines[0][..|lines[0]|] == lines[0];
    } else if |lines| > 1 {
      var head, rest := lines[0], JoinLines(lines[1..]);
      var s := head + "\n" + rest;
      assert s == head + ['\n'] + rest;
      FirstBreakAt(head, '\n', rest);
      JoinLinesNonEmpty(lines[1..]);
      assert BreakWidth(s, |head|) == 1;
      assert s[..|head|] == head && s[|head| + 1..] == rest;
      SplitJoinLines(lines[1..]);
      assert lines == [head] + lines[1..];
    }
  }
}
