/** String operations of the two host languages, written out over `seq<char>`:
    Python's `str.strip`, `str.splitlines`, `str.split`, `str.join`, `str.replace`,
    and JavaScript's `String.prototype.split`, `join`, `trim` and `parseInt`. */
module Strings {

  // ---------------------------------------------------------------------------
  // Character classes
  // ---------------------------------------------------------------------------

  /** Python's `str.isspace` for one character: the characters `str.strip()` removes. */
  predicate IsSpace(c: char) {
    var k := c as int;
    (0x09 <= k <= 0x0D) || (0x1C <= k <= 0x20) || k == 0x85 || k == 0xA0 ||
    k == 0x1680 || (0x2000 <= k <= 0x200A) || k == 0x2028 || k == 0x2029 ||
    k == 0x202F || k == 0x205F || k == 0x3000
  }

  /** JavaScript white space and line terminators: what `trim()` removes and regex `\s` matches. */
  predicate JsIsSpace(c: char) {
    var k := c as int;
    (0x09 <= k <= 0x0D) || k == 0x20 || k == 0xA0 || k == 0x1680 ||
    (0x2000 <= k <= 0x200A) || k == 0x2028 || k == 0x2029 || k == 0x202F ||
    k == 0x205F || k == 0x3000 || k == 0xFEFF
  }

  /** A JavaScript line terminator: what regex `.` does not match. */
  predicate JsIsLineTerminator(c: char) {
    c == '\n' || c == '\r' || c as int == 0x2028 || c as int == 0x2029
  }

  /** A line boundary of Python's `str.splitlines` (`\r\n` counts as one boundary). */
  predicate IsLineBreak(c: char) {
    var k := c as int;
    (0x0A <= k <= 0x0D) || (0x1C <= k <= 0x1E) || k == 0x85 || k == 0x2028 || k == 0x2029
  }

  predicate AllSpace(s: string) {
    forall i :: 0 <= i < |s| ==> IsSpace(s[i])
  }

  /** `not s.strip()` in JavaScript terms: `!s || s.trim() === ""`. */
  predicate JsBlank(s: string) {
    forall i :: 0 <= i < |s| ==> JsIsSpace(s[i])
  }

  predicate IsDigit(c: char) {
    '0' <= c <= '9'
  }

  // ---------------------------------------------------------------------------
  // Python str.strip()
  // ---------------------------------------------------------------------------

  /** The number of white-space characters at the front of `s`. */
  function LeadingSpaces(s: string): (n: nat)
    ensures n <= |s|
  {
    if s == [] || !IsSpace(s[0]) then 0 else 1 + LeadingSpaces(s[1..])
  }

  /** The number of white-space characters at the back of `s`. */
  function TrailingSpaces(s: string): (n: nat)
    ensures n <= |s|
  {
    if s == [] || !IsSpace(s[|s| - 1]) then 0 else 1 + TrailingSpaces(s[..|s| - 1])
  }

  /** The leading run is white space and is followed by a character that is not. */
  lemma {:induction false} LeadingSpacesRun(s: string)
    ensures AllSpace(s[..LeadingSpaces(s)])
    ensures LeadingSpaces(s) < |s| ==> !IsSpace(s[LeadingSpaces(s)])
  {
    if s != [] && IsSpace(s[0]) {
      LeadingSpacesRun(s[1..]);
      var n := LeadingSpaces(s);
      assert s[..n] == [s[0]] + s[1..][..n - 1];
    }
  }

  /** The trailing run is white space and is preceded by a character that is not. */
  lemma {:induction false} TrailingSpacesRun(s: string)
    ensures AllSpace(s[|s| - TrailingSpaces(s)..])
    ensures TrailingSpaces(s) < |s| ==> !IsSpace(s[|s| - TrailingSpaces(s) - 1])
  {
    if s != [] && IsSpace(s[|s| - 1]) {
      TrailingSpacesRun(s[..|s| - 1]);
      var n := TrailingSpaces(s);
      assert s[|s| - n..] == s[..|s| - 1][|s| - n..] + [s[|s| - 1]];
    }
  }

  /** Python's `s.strip()`: the text with every leading and trailing white-space character removed. */
  function Strip(s: string): (r: string)
    ensures |r| <= |s|
  {
    var t := s[LeadingSpaces(s)..];
    t[..|t| - TrailingSpaces(t)]
  }

  /** `s.strip()` is a slice of `s`: it only removes characters from the two ends. */
  lemma StripSlice(s: string)
    ensures exists a, b :: 0 <= a <= b <= |s| && Strip(s) == s[a..b]
  {
    var a := LeadingSpaces(s);
    assert Strip(s) == s[a..a + |Strip(s)|];
  }

  /** `s.strip()` is empty exactly when every character of `s` is white space. */
  lemma StripEmpty(s: string)
    ensures Strip(s) == [] <==> AllSpace(s)
  {
    var a := LeadingSpaces(s);
    var t := s[a..];
    LeadingSpacesRun(s);
    if a == |s| {
      assert s[..a] == s;
      assert t == [];
    } else {
      assert !IsSpace(s[a]) && !AllSpace(s);
      assert t[0] == s[a];
      TrailingSpacesRun(t);
      var b := TrailingSpaces(t);
      assert b < |t|;
      assert Strip(s) == t[..|t| - b];
    }
  }

  /** What `s.strip()` keeps starts and ends with a character that is not white space. */
  lemma StripTrimmed(s: string)
    ensures Strip(s) != [] ==> !IsSpace(Strip(s)[0]) && !IsSpace(Strip(s)[|Strip(s)| - 1])
  {
    var a := LeadingSpaces(s);
    var t := s[a..];
    LeadingSpacesRun(s);
    TrailingSpacesRun(t);
    if Strip(s) != [] {
      assert Strip(s)[0] == s[a];
    }
  }

  /** Strip is characterised by what it keeps: white space around a core that starts and ends
      with a non-space character (or is empty) is exactly what it removes. */
  lemma StripOf(p: string, m: string, q: string)
    requires AllSpace(p) && AllSpace(q)
    requires m != [] ==> !IsSpace(m[0]) && !IsSpace(m[|m| - 1])
    ensures Strip(p + m + q) == m
  {
    var s := p + m + q;
    if m == [] {
      assert AllSpace(s) by {
        forall i | 0 <= i < |s| ensures IsSpace(s[i]) {
          if i < |p| { assert s[i] == p[i]; } else { assert s[i] == q[i - |p|]; }
        }
      }
      StripEmpty(s);
    } else {
      assert s == p + (m + q);
      LeadingSpacesOf(p, m + q);
      assert s[|p|..] == m + q;
      TrailingSpacesOf(m, q);
      assert (m + q)[..|m|] == m;
    }
  }

  /** Stripping twice is stripping once. */
  lemma StripIdempotent(s: string)
    ensures Strip(Strip(s)) == Strip(s)
  {
    StripTrimmed(s);
    StripOf([], Strip(s), []);
    assert [] + Strip(s) + [] == Strip(s);
  }

  lemma {:induction false} LeadingSpacesOf(p: string, t: string)
    requires AllSpace(p)
    requires t != [] && !IsSpace(t[0])
    ensures LeadingSpaces(p + t) == |p|
  {
    if p != [] {
      assert (p + t)[1..] == p[1..] + t;
      LeadingSpacesOf(p[1..], t);
    } else {
      assert p + t == t;
    }
  }

  lemma {:induction false} TrailingSpacesOf(t: string, q: string)
    requires AllSpace(q)
    requires t != [] && !IsSpace(t[|t| - 1])
    ensures TrailingSpaces(t + q) == |q|
  {
    if q != [] {
      assert (t + q)[..|t + q| - 1] == t + q[..|q| - 1];
      TrailingSpacesOf(t, q[..|q| - 1]);
    } else {
      assert t + q == t;
    }
  }

  // ---------------------------------------------------------------------------
  // ---------------------------------------------------------------------------
  // Prefixes, substrings and Python str.replace
  // ---------------------------------------------------------------------------

  predicate StartsWith(s: string, p: string) {
    |p| <= |s| && s[..|p|] == p
  }

  /** `p` occurs in `s` starting at index `i`. */
  predicate OccursAt(s: string, p: string, i: int) {
    0 <= i && i + |p| <= |s| && s[i..i + |p|] == p
  }

  /** `p in s` (Python) and `s.includes(p)` (JavaScript). */
  predicate Contains(s: string, p: string) {
    exists i :: 0 <= i <= |s| - |p| && OccursAt(s, p, i)
  }

  /** Python's `s.replace(p, r)`: every non-overlapping occurrence of `p`, scanning from the
      left, replaced by `r`. */
  function ReplaceAll(s: string, p: string, r: string): string
    requires p != []
    decreases |s|
  {
    if |s| < |p| then s
    else if s[..|p|] == p then r + ReplaceAll(s[|p|..], p, r)
    else [s[0]] + ReplaceAll(s[1..], p, r)
  }

  /** Without an occurrence of the pattern, replacing changes nothing. */
  lemma {:induction false} ReplaceAllAbsent(s: string, p: string, r: string)
    requires p != []
    requires !Contains(s, p)
    ensures ReplaceAll(s, p, r) == s
    decreases |s|
  {
    if |s| >= |p| {
      assert !OccursAt(s, p, 0);
      assert s[..|p|] != p;
      forall i | OccursAt(s[1..], p, i) ensures OccursAt(s, p, i + 1) {
        assert s[i + 1..i + 1 + |p|] == s[1..][i..i + |p|];
      }
      ReplaceAllAbsent(s[1..], p, r);
    }
  }

  /** A prefix in which the pattern cannot start is copied as it is. */
  lemma {:induction false} ReplaceSkips(pre: string, rest: string, p: string, r: string)
    requires p != [] && forall i :: 0 <= i < |pre| ==> pre[i] != p[0]
    ensures ReplaceAll(pre + rest, p, r) == pre + ReplaceAll(rest, p, r)
  {
    if pre != [] {
      var s := pre + rest;
      assert s[0] == pre[0];
      assert |s| >= |p| ==> s[..|p|] != p by {
        if |s| >= |p| { assert s[..|p|][0] == s[0]; }
      }
      assert s[1..] == pre[1..] + rest;
      ReplaceSkips(pre[1..], rest, p, r);
      ConsAppend(pre, ReplaceAll(rest, p, r));
    } else {
      assert pre + rest == rest;
    }
  }

  /** Text that starts with the pattern starts with the replacement once replaced. */
  lemma ReplaceAtStart(rest: string, p: string, r: string)
    requires p != []
    ensures ReplaceAll(p + rest, p, r) == r + ReplaceAll(rest, p, r)
  {
    var s := p + rest;
    assert s[..|p|] == p && s[|p|..] == rest;
  }

  lemma ReplaceAllFirst(s: string, p: string, r: string)
    requires p != [] && r != []
    ensures |s| >= |p| && s[..|p|] == p ==> ReplaceAll(s, p, r) != [] && ReplaceAll(s, p, r)[0] == r[0]
  {
  }

  /** If the replaced text begins with a proper suffix of the pattern, so did the original. */
  lemma {:induction false} ReplaceAllKeepsSuffixStart(s: string, p: string, r: string, m: nat)
    requires p != [] && r != []
    requires p[0] !in r && r[0] !in p
    requires 1 <= m < |p|
    requires StartsWith(ReplaceAll(s, p, r), p[|p| - m..])
    ensures StartsWith(s, p[|p| - m..])
    decreases |s|
  {
    var R := ReplaceAll(s, p, r);
    var sigma := p[|p| - m..];
    ReplaceAllFirst(s, p, r);
    if |s| < |p| {
    } else if s[..|p|] == p {
    } else {
      var R' := ReplaceAll(s[1..], p, r);
      assert R == [s[0]] + R';
      assert s[0] == sigma[0];
      if m > 1 {
        assert sigma[1..] == p[|p| - (m - 1)..];
        assert R'[..m - 1] == R[1..m];
        ReplaceAllKeepsSuffixStart(s[1..], p, r, m - 1);
        assert s[..m] == [s[0]] + s[1..][..m - 1];
      }
    }
  }

  /** After `ReplaceAll` no occurrence of the pattern is left, provided the replacement cannot
      combine with surrounding text into a new one: the pattern's first character does not occur
      in the replacement, and the replacement's first character does not occur in the pattern. */
  lemma {:induction false} ReplaceAllRemoves(s: string, p: string, r: string, i: int)
    requires p != [] && r != []
    requires p[0] !in r && r[0] !in p
    ensures var R := ReplaceAll(s, p, r);
            !(0 <= i && i + |p| <= |R| && R[i..i + |p|] == p)
    decreases |s|, 1
  {
    if |s| >= |p| {
      if s[..|p|] == p {
        ReplaceAllRemovesAfterMatch(s, p, r, i);
      } else {
        ReplaceAllRemovesAfterSkip(s, p, r, i);
      }
    }
  }

  /** A slice of `a + b` that lies inside `b`. */
  lemma AppendSlice(a: string, b: string, i: int, j: int)
    requires |a| <= i <= j <= |a| + |b|
    ensures (a + b)[i..j] == b[i - |a|..j - |a|]
  {
  }

  /** The case where the text starts with the pattern: `r` is written, then the rest. */
  lemma {:induction false} ReplaceAllRemovesAfterMatch(s: string, p: string, r: string, i: int)
    requires p != [] && r != []
    requires p[0] !in r && r[0] !in p
    requires |s| >= |p| && s[..|p|] == p
    ensures var R := ReplaceAll(s, p, r);
            !(0 <= i && i + |p| <= |R| && R[i..i + |p|] == p)
    decreases |s|, 0
  {
    var R := ReplaceAll(s, p, r);
    var R' := ReplaceAll(s[|p|..], p, r);
    assert R == r + R';
    if 0 <= i && i + |p| <= |R| && R[i..i + |p|] == p {
      if i >= |r| {
        AppendSlice(r, R', i, i + |p|);
        ReplaceAllRemoves(s[|p|..], p, r, i - |r|);
      }
    }
  }

  /** The case where the text does not start with the pattern: its first character is kept. */
  lemma {:induction false} ReplaceAllRemovesAfterSkip(s: string, p: string, r: string, i: int)
    requires p != [] && r != []
    requires p[0] !in r && r[0] !in p
    requires |s| >= |p| && s[..|p|] != p
    ensures var R := ReplaceAll(s, p, r);
            !(0 <= i && i + |p| <= |R| && R[i..i + |p|] == p)
    decreases |s|, 0
  {
    var R := ReplaceAll(s, p, r);
    var R' := ReplaceAll(s[1..], p, r);
    assert R == [s[0]] + R';
    if 0 <= i && i + |p| <= |R| && R[i..i + |p|] == p {
      if i == 0 {
        SkipStartsWithSuffix(s, p, r);
      } else {
        AppendSlice([s[0]], R', i, i + |p|);
        ReplaceAllRemoves(s[1..], p, r, i - 1);
      }
    }
  }

  /** When the text does not start with the pattern, neither does the replaced text. */
  lemma SkipStartsWithSuffix(s: string, p: string, r: string)
    requires p != [] && r != []
    requires p[0] !in r && r[0] !in p
    requires |s| >= |p| && s[..|p|] != p
    ensures var R := ReplaceAll(s, p, r);
            !(|p| <= |R| && R[..|p|] == p)
  {
    var R := ReplaceAll(s, p, r);
    var R' := ReplaceAll(s[1..], p, r);
    assert R == [s[0]] + R';
    if |p| <= |R| && R[..|p|] == p {
      assert s[0] == p[0] by { assert R[..|p|][0] == R[0]; }
      if |p| > 1 {
        AppendSlice([s[0]], R', 1, |p|);
        assert R[1..|p|] == R[..|p|][1..];
        ReplaceAllKeepsSuffixStart(s[1..], p, r, |p| - 1);
      }
    }
  }

  // ---------------------------------------------------------------------------
  // Repetition, concatenation, join and split
  // ---------------------------------------------------------------------------

  /** Python's `[x] * n` and, for characters, `c * n`. */
  function Repeat<T>(x: T, n: nat): (r: seq<T>)
    ensures |r| == n && forall i :: 0 <= i < n ==> r[i] == x
  {
    if n == 0 then [] else [x] + Repeat(x, n - 1)
  }

  /** `''.join(ss)`: the fragments one after another. */
  function Concat(ss: seq<string>): string {
    if ss == [] then [] else ss[0] + Concat(ss[1..])
  }

  lemma {:induction false} ConcatAppend(a: seq<string>, b: seq<string>)
    ensures Concat(a + b) == Concat(a) + Concat(b)
  {
    if a != [] {
      assert (a + b)[1..] == a[1..] + b;
      ConcatAppend(a[1..], b);
    } else {
      assert a + b == b;
    }
  }

  /** `sep.join(ss)` (Python) and `ss.join(sep)` (JavaScript). */
  function JoinWith(ss: seq<string>, sep: string): string {
    if ss == [] then []
    else if |ss| == 1 then ss[0]
    else ss[0] + sep + JoinWith(ss[1..], sep)
  }

  /** Each line followed by a newline: what `print(line)` writes for each line in turn. */
  function Terminated(ls: seq<string>): string {
    if ls == [] then [] else ls[0] + "\n" + Terminated(ls[1..])
  }

  lemma {:induction false} TerminatedAppend(a: seq<string>, b: seq<string>)
    ensures Terminated(a + b) == Terminated(a) + Terminated(b)
  {
    if a != [] {
      assert (a + b)[0] == a[0] && (a + b)[1..] == a[1..] + b;
      TerminatedAppend(a[1..], b);
      calc {
        Terminated(a + b);
        a[0] + "\n" + Terminated(a[1..] + b);
        a[0] + "\n" + (Terminated(a[1..]) + Terminated(b));
        (a[0] + "\n" + Terminated(a[1..])) + Terminated(b);
      }
    } else {
      assert a + b == b;
    }
  }

  /** Joining with newlines is terminating every line but the last. */
  lemma {:induction false} JoinIsTerminated(ls: seq<string>, last: string)
    ensures JoinWith(ls + [last], "\n") == Terminated(ls) + last
  {
    if ls != [] {
      var all := ls + [last];
      assert |all| > 1 && all[0] == ls[0] && all[1..] == ls[1..] + [last];
      JoinIsTerminated(ls[1..], last);
      calc {
        JoinWith(all, "\n");
        ls[0] + "\n" + JoinWith(ls[1..] + [last], "\n");
        ls[0] + "\n" + (Terminated(ls[1..]) + last);
        (ls[0] + "\n" + Terminated(ls[1..])) + last;
      }
    }
  }

  /** The position of the first `c` in `s`, or `|s|` when there is none. */
  function IndexOf(s: string, c: char): (k: nat)
    ensures k <= |s|
  {
    if s == [] || s[0] == c then 0 else 1 + IndexOf(s[1..], c)
  }

  /** `IndexOf` finds the first occurrence: none before it, and `c` at it unless it is `|s|`. */
  lemma {:induction false} IndexOfFirst(s: string, c: char)
    ensures c !in s[..IndexOf(s, c)]
    ensures IndexOf(s, c) < |s| ==> s[IndexOf(s, c)] == c
  {
    if s != [] && s[0] != c {
      IndexOfFirst(s[1..], c);
      var k := IndexOf(s, c);
      assert s[..k] == [s[0]] + s[1..][..k - 1];
    }
  }

  lemma {:induction false} IndexOfAfter(a: string, c: char, t: string)
    requires c !in a
    ensures IndexOf(a + [c] + t, c) == |a|
  {
    if a != [] {
      assert (a + [c] + t)[1..] == a[1..] + [c] + t;
      IndexOfAfter(a[1..], c, t);
    }
  }

  lemma {:induction false} IndexOfAbsent(s: string, c: char)
    requires c !in s
    ensures IndexOf(s, c) == |s|
  {
    if s != [] {
      assert c !in s[1..];
      IndexOfAbsent(s[1..], c);
    }
  }

  /** `s.split(c)` for a one-character separator (Python and JavaScript agree): the maximal
      separator-free pieces, always at least one. */
  function SplitOn(s: string, c: char): (r: seq<string>)
    ensures |r| >= 1
    decreases |s|
  {
    var k := IndexOf(s, c);
    if k == |s| then [s] else [s[..k]] + SplitOn(s[k + 1..], c)
  }

  /** No piece of `s.split(c)` contains the separator. */
  lemma {:induction false} SplitOnPieces(s: string, c: char)
    ensures forall i :: 0 <= i < |SplitOn(s, c)| ==> c !in SplitOn(s, c)[i]
    decreases |s|
  {
    var k := IndexOf(s, c);
    IndexOfFirst(s, c);
    if k == |s| {
      assert s[..k] == s;
    } else {
      SplitOnPieces(s[k + 1..], c);
    }
  }

  /** Splitting and joining back on the same separator gives the original text. */
  lemma {:induction false} JoinSplit(s: string, c: char)
    ensures JoinWith(SplitOn(s, c), [c]) == s
    decreases |s|
  {
    var k := IndexOf(s, c);
    IndexOfFirst(s, c);
    if k == |s| {
      assert s[..k] == s;
    } else {
      var rest := SplitOn(s[k + 1..], c);
      assert SplitOn(s, c) == [s[..k]] + rest;
      JoinSplit(s[k + 1..], c);
      assert JoinWith([s[..k]] + rest, [c]) == s[..k] + [c] + JoinWith(rest, [c]);
      assert s == s[..k] + [c] + s[k + 1..];
    }
  }

  /** A text without the separator is a single piece. */
  lemma SplitOnAbsent(s: string, c: char)
    requires c !in s
    ensures SplitOn(s, c) == [s]
  {
    IndexOfAbsent(s, c);
  }

  /** A separator-free piece followed by the separator is split off as one piece. */
  lemma SplitOnFirst(a: string, c: char, t: string)
    requires c !in a
    ensures SplitOn(a + [c] + t, c) == [a] + SplitOn(t, c)
  {
    var s := a + [c] + t;
    IndexOfAfter(a, c, t);
    assert s[..|a|] == a && s[|a| + 1..] == t;
  }

  lemma SplitTerminatedCons(ls: seq<string>, t: string)
    requires ls != [] && '\n' !in ls[0]
    ensures SplitOn(Terminated(ls) + t, '\n') == [ls[0]] + SplitOn(Terminated(ls[1..]) + t, '\n')
  {
    var rest := Terminated(ls[1..]) + t;
    assert Terminated(ls) == (ls[0] + ['\n']) + Terminated(ls[1..]);
    assert Terminated(ls) + t == ls[0] + ['\n'] + rest;
    SplitOnFirst(ls[0], '\n', rest);
  }

  lemma ConsAppend<T>(ls: seq<T>, x: seq<T>)
    requires ls != []
    ensures [ls[0]] + (ls[1..] + x) == ls + x
  {
    assert [ls[0]] + ls[1..] == ls;
  }

  lemma AppendAssoc<T>(a: seq<T>, b: seq<T>, c: seq<T>)
    ensures a + b + c == a + (b + c)
  {
  }

  /** A prefix one longer is the prefix and the next element. */
  lemma TakeSnoc<T>(xs: seq<T>, i: nat)
    requires i < |xs|
    ensures xs[..i] + [xs[i]] == xs[..i + 1]
  {
  }

  /** Splitting newline-terminated, newline-free lines recovers them, then the remainder. */
  lemma {:induction false} SplitTerminated(ls: seq<string>, t: string)
    requires forall i :: 0 <= i < |ls| ==> '\n' !in ls[i]
    ensures SplitOn(Terminated(ls) + t, '\n') == ls + SplitOn(t, '\n')
  {
    if ls != [] {
      SplitTerminatedCons(ls, t);
      SplitTerminated(ls[1..], t);
      ConsAppend(ls, SplitOn(t, '\n'));
    } else {
      assert Terminated(ls) + t == t;
    }
  }

  /** A text made of newline-terminated, newline-free lines and a newline-free tail determines
      both the lines and the tail. */
  lemma {:induction false} TerminatedInjective(a: seq<string>, x: string, b: seq<string>, y: string)
    requires forall i :: 0 <= i < |a| ==> '\n' !in a[i]
    requires forall i :: 0 <= i < |b| ==> '\n' !in b[i]
    requires '\n' !in x && '\n' !in y
    requires Terminated(a) + x == Terminated(b) + y
    ensures a == b && x == y
  {
    SplitTerminated(a, x);
    SplitTerminated(b, y);
    SplitOnAbsent(x, '\n');
    SplitOnAbsent(y, '\n');
    assert a + [x] == b + [y];
    assert a == (a + [x])[..|a|];
    assert |a| == |b|;
    assert b == (b + [y])[..|b|];
  }

  // ---------------------------------------------------------------------------
  // Python str.splitlines()
  // ---------------------------------------------------------------------------

  function FirstLineBreak(s: string): (k: nat)
    ensures k <= |s|
    ensures forall i :: 0 <= i < k ==> !IsLineBreak(s[i])
    ensures k < |s| ==> IsLineBreak(s[k])
  {
    if s == [] || IsLineBreak(s[0]) then 0 else 1 + FirstLineBreak(s[1..])
  }

  /** Python's `s.splitlines()`: the lines between boundaries, without a final empty line when
      the text ends in a boundary; no line contains a boundary character. */
  function SplitLines(s: string): (r: seq<string>)
    ensures forall j, i :: 0 <= j < |r| && 0 <= i < |r[j]| ==> !IsLineBreak(r[j][i])
    ensures s == [] <==> r == []
    decreases |s|
  {
    if s == [] then []
    else
      var k := FirstLineBreak(s);
      if k == |s| then [s]
      else
        var w := if s[k] == '\r' && k + 1 < |s| && s[k + 1] == '\n' then 2 else 1;
        [s[..k]] + SplitLines(s[k + w..])
  }

  /** The only line boundaries of `s`, if any, are newlines. */
  predicate NewlineBreaksOnly(s: string) {
    forall i :: 0 <= i < |s| && IsLineBreak(s[i]) ==> s[i] == '\n'
  }

  /** On a text whose only line boundaries are newlines, `splitlines()` is `split('\n')`
      without the final empty piece that a closing newline leaves. */
  lemma {:induction false} SplitLinesOnNewlines(s: string)
    requires NewlineBreaksOnly(s)
    ensures s == [] ==> SplitLines(s) == []
    ensures s != [] && s[|s| - 1] == '\n' ==> SplitLines(s) + [""] == SplitOn(s, '\n')
    ensures s != [] && s[|s| - 1] != '\n' ==> SplitLines(s) == SplitOn(s, '\n')
    decreases |s|
  {
    if s != [] {
      var k := FirstLineBreak(s);
      if k == |s| {
        SplitLinesLast(s);
      } else {
        var line, rest := s[..k], s[k + 1..];
        SplitLinesStep(s, k);
        SplitLinesOnNewlines(rest);
        if rest == [] {
          assert SplitOn(rest, '\n') == [""];
        } else {
          assert s[|s| - 1] == rest[|rest| - 1];
          AppendAssoc([line], SplitLines(rest), [""]);
        }
      }
    }
  }

  /** A text without a line boundary is one line, and one piece. */
  lemma SplitLinesLast(s: string)
    requires s != [] && FirstLineBreak(s) == |s|
    ensures SplitLines(s) == [s] && SplitOn(s, '\n') == [s] && s[|s| - 1] != '\n'
  {
    assert IsLineBreak('\n');
    assert '\n' !in s;
    SplitOnAbsent(s, '\n');
  }

  /** The first boundary, a newline, ends the first line and the first piece. */
  lemma SplitLinesStep(s: string, k: nat)
    requires NewlineBreaksOnly(s) && k == FirstLineBreak(s) < |s|
    ensures SplitLines(s) == [s[..k]] + SplitLines(s[k + 1..])
    ensures SplitOn(s, '\n') == [s[..k]] + SplitOn(s[k + 1..], '\n')
    ensures NewlineBreaksOnly(s[k + 1..])
  {
    assert s[k] == '\n';
    LineAtNewline(s, k);
    BeforeLineBreak(s);
    NewlineFirst(s, k);
    NewlineBreaksOnlySuffix(s, k + 1);
  }

  lemma LineAtNewline(s: string, k: nat)
    requires k == FirstLineBreak(s) < |s| && s[k] == '\n'
    ensures SplitLines(s) == [s[..k]] + SplitLines(s[k + 1..])
  {
  }

  lemma NewlineFirst(s: string, k: nat)
    requires k < |s| && s[k] == '\n' && '\n' !in s[..k]
    ensures SplitOn(s, '\n') == [s[..k]] + SplitOn(s[k + 1..], '\n')
  {
    var line, rest := s[..k], s[k + 1..];
    assert s == line + ['\n'] + rest;
    SplitOnFirst(line, '\n', rest);
  }

  /** No newline comes before the first line boundary. */
  lemma {:induction false} BeforeLineBreak(s: string)
    ensures '\n' !in s[..FirstLineBreak(s)]
  {
    if s != [] && !IsLineBreak(s[0]) {
      BeforeLineBreak(s[1..]);
      assert IsLineBreak('\n');
      assert s[..FirstLineBreak(s)] == [s[0]] + s[1..][..FirstLineBreak(s[1..])];
    }
  }

  lemma NewlineBreaksOnlySuffix(s: string, j: nat)
    requires NewlineBreaksOnly(s) && j <= |s|
    ensures NewlineBreaksOnly(s[j..])
  {
    forall i | 0 <= i < |s[j..]| && IsLineBreak(s[j..][i]) ensures s[j..][i] == '\n' {
      assert s[j..][i] == s[j + i];
    }
  }

  // ---------------------------------------------------------------------------
  // Decimal numbers: Python's f'{n}' and JavaScript's parseInt(digits, 10)
  // ---------------------------------------------------------------------------

  function DigitChar(d: nat): char
    requires d < 10
  {
    "0123456789"[d]
  }

  /** The decimal representation of `n`, as Python's `str(n)` writes it. */
  function NatToString(n: nat): (r: string)
    ensures r != []
    ensures forall i :: 0 <= i < |r| ==> IsDigit(r[i])
  {
    if n < 10 then [DigitChar(n)] else NatToString(n / 10) + [DigitChar(n % 10)]
  }

  /** `parseInt(ds, 10)` of a string of decimal digits. */
  function ParseDecimal(ds: string): nat
    requires forall i :: 0 <= i < |ds| ==> IsDigit(ds[i])
  {
    if ds == [] then 0
    else 10 * ParseDecimal(ds[..|ds| - 1]) + DigitValue(ds[|ds| - 1])
  }

  function DigitValue(c: char): (d: nat)
    requires IsDigit(c)
    ensures d < 10
  {
    (c as int) - ('0' as int)
  }

  /** Printing a number in decimal and parsing it back gives the number. */
  lemma {:induction false} ParseNatToString(n: nat)
    ensures ParseDecimal(NatToString(n)) == n
  {
    var r := NatToString(n);
    if n >= 10 {
      ParseNatToString(n / 10);
      assert r[..|r| - 1] == NatToString(n / 10);
    }
  }

  // ---------------------------------------------------------------------------
  // Counting
  // ---------------------------------------------------------------------------

  function CountChar(s: string, c: char): nat {
    if s == [] then 0 else (if s[0] == c then 1 else 0) + CountChar(s[1..], c)
  }

  lemma {:induction false} CountCharAppend(a: string, b: string, c: char)
    ensures CountChar(a + b, c) == CountChar(a, c) + CountChar(b, c)
  {
    if a != [] {
      assert (a + b)[0] == a[0] && (a + b)[1..] == a[1..] + b;
      CountCharAppend(a[1..], b, c);
      assert CountChar(a + b, c) == (if a[0] == c then 1 else 0) + CountChar(a[1..] + b, c);
    } else {
      assert a + b == b;
    }
  }

  lemma {:induction false} CountCharAbsent(a: string, c: char)
    requires c !in a
    ensures CountChar(a, c) == 0
  {
    if a != [] {
      CountCharAbsent(a[1..], c);
    }
  }
}
