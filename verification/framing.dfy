/** The protocol by which the parser hands its result to the server over the child process's
    standard output: the lines `main` prints (parse_deepwiki.py) and how the server's `data`
    handler reads them back, one complete line at a time (server.js). */
module Framing {
  import opened Options
  import opened Strings

  const BeginMarker := "--------- Markdown 内容 ---------"
  const EndMarker := "--------- Markdown 结束 ---------"
  const EmptyWarning := "警告: Markdown内容为空"

  // ---------------------------------------------------------------------------
  // The sending half
  // ---------------------------------------------------------------------------

  /** The lines `main` prints for a converted page: the begin marker, every line of
      `markdown.split('\n')` (or the warning when the Markdown is empty), the end marker.
      `main` returns before printing anything when the Markdown is empty, so the warning
      branch is never reached from `main`; it is kept because the printing code has it. */
  function FramedLines(markdown: string): (r: seq<string>)
    ensures |r| >= 3 && r[0] == BeginMarker && r[|r| - 1] == EndMarker
  {
    [BeginMarker] + (if markdown != [] then SplitOn(markdown, '\n') else [EmptyWarning]) + [EndMarker]
  }

  /** What those `print` calls write: each line followed by a newline, so that splitting the
      output at its newlines gives back the printed lines and an empty tail. */
  function FramedOutput(markdown: string): (out: string)
    ensures SplitOn(out, '\n') == FramedLines(markdown) + [""]
  {
    FramedLinesFlat(markdown);
    SplitTerminated(FramedLines(markdown), "");
    assert Terminated(FramedLines(markdown)) + "" == Terminated(FramedLines(markdown));
    Terminated(FramedLines(markdown))
  }

  /** No printed line of the frame holds a newline: the markers and the warning hold none, and
      the pieces of `split('\n')` hold none. */
  lemma FramedLinesFlat(markdown: string)
    ensures forall i :: 0 <= i < |FramedLines(markdown)| ==> '\n' !in FramedLines(markdown)[i]
  {
    var ls := FramedLines(markdown);
    assert '\n' !in BeginMarker && '\n' !in EndMarker && '\n' !in EmptyWarning;
    if markdown != [] {
      var pieces := SplitOn(markdown, '\n');
      SplitOnPieces(markdown, '\n');
      assert ls == [BeginMarker] + pieces + [EndMarker];
      forall i | 0 <= i < |ls| ensures '\n' !in ls[i] {
        if 0 < i < |ls| - 1 {
          assert ls[i] == pieces[i - 1];
        }
      }
    } else {
      assert ls == [BeginMarker, EmptyWarning, EndMarker];
    }
  }

  /** The line `progress_callback` prints: `[stage] percentage%: message`. */
  function ProgressLine(stage: string, percentage: nat, message: string): string {
    "[" + stage + "]" + (" " + NatToString(percentage) + "%: " + message)
  }

  // ---------------------------------------------------------------------------
  // The progress pattern /\[(.*?)\]\s*(\d+)%:\s*(.*)/
  // ---------------------------------------------------------------------------

  /** The three groups of a match: the stage, the digits of the percentage, the message. */
  datatype Progress = Progress(stage: string, digits: string, message: string)

  /** The end of the longest run of characters satisfying `p` that starts at `i`. */
  function Span(s: string, i: nat, p: char -> bool): (j: nat)
    requires i <= |s|
    ensures i <= j <= |s|
    decreases |s| - i
  {
    if i < |s| && p(s[i]) then Span(s, i + 1, p) else i
  }

  /** A run of `p` characters from `i` to `k`, ended by the text or by a character that is
      not `p`, is what `Span` finds. */
  lemma {:induction false} SpanTo(s: string, i: nat, k: nat, p: char -> bool)
    requires i <= k <= |s|
    requires forall m :: i <= m < k ==> p(s[m])
    requires k == |s| || !p(s[k])
    ensures Span(s, i, p) == k
    decreases k - i
  {
    if i < k {
      SpanTo(s, i + 1, k, p);
    }
  }

  /** A character that regex `.` matches. */
  predicate NotLineTerminator(c: char) {
    !JsIsLineTerminator(c)
  }

  /** What follows a `]`: `\s*` (greedy), `(\d+)` (greedy), `%:`, `\s*` (greedy) and `(.*)`,
      which stops at the first line terminator. White space and digits are disjoint, so the
      greedy choices are the only ones that can succeed. */
  function AfterClose(t: string): Option<(string, string)> {
    var d0 := Span(t, 0, JsIsSpace);
    var d1 := Span(t, d0, IsDigit);
    if d1 == d0 || d1 + 2 > |t| || t[d1] != '%' || t[d1 + 1] != ':' then None
    else
      var m0 := Span(t, d1 + 2, JsIsSpace);
      var m1 := Span(t, m0, NotLineTerminator);
      Some((t[d0..d1], t[m0..m1]))
  }

  /** The match whose `[` is at `i`, trying the `]` candidates nearest first from `j` on: the
      lazy `(.*?)` grows one character at a time and cannot cross a line terminator. */
  function MatchAt(s: string, i: nat, j: nat): (r: Option<Progress>)
    requires i < j <= |s|
    decreases |s| - j
  {
    if j == |s| || JsIsLineTerminator(s[j]) then None
    else if s[j] == ']' && AfterClose(s[j + 1..]).Some? then
      var after := AfterClose(s[j + 1..]).value;
      Some(Progress(s[i + 1..j], after.0, after.1))
    else MatchAt(s, i, j + 1)
  }

  /** The match that starts at the leftmost `[` from `i` on at which the pattern matches. */
  function MatchFrom(s: string, i: nat): (r: Option<Progress>)
    requires i <= |s|
    decreases |s| - i
  {
    if i == |s| then None
    else if s[i] == '[' && MatchAt(s, i, i + 1).Some? then MatchAt(s, i, i + 1)
    else MatchFrom(s, i + 1)
  }

  /** `line.match(/\[(.*?)\]\s*(\d+)%:\s*(.*)/)`: the pattern is not anchored. */
  function MatchProgress(line: string): (r: Option<Progress>)
    ensures r.Some? ==> r.value.digits != [] && forall i :: 0 <= i < |r.value.digits| ==> IsDigit(r.value.digits[i])
  {
    MatchFromDigits(line, 0);
    MatchFrom(line, 0)
  }

  lemma {:induction false} MatchFromDigits(s: string, i: nat)
    requires i <= |s|
    ensures var r := MatchFrom(s, i);
            r.Some? ==> r.value.digits != [] && forall k :: 0 <= k < |r.value.digits| ==> IsDigit(r.value.digits[k])
    decreases |s| - i
  {
    if i < |s| {
      if s[i] == '[' && MatchAt(s, i, i + 1).Some? {
        MatchAtDigits(s, i, i + 1);
      } else {
        MatchFromDigits(s, i + 1);
      }
    }
  }

  lemma {:induction false} MatchAtDigits(s: string, i: nat, j: nat)
    requires i < j <= |s|
    ensures var r := MatchAt(s, i, j);
            r.Some? ==> r.value.digits != [] && forall k :: 0 <= k < |r.value.digits| ==> IsDigit(r.value.digits[k])
    decreases |s| - j
  {
    if j < |s| && !JsIsLineTerminator(s[j]) {
      if s[j] == ']' && AfterClose(s[j + 1..]).Some? {
        var t := s[j + 1..];
        SpanRun(t, Span(t, 0, JsIsSpace), IsDigit);
      } else {
        MatchAtDigits(s, i, j + 1);
      }
    }
  }

  /** Every character `Span` passes over satisfies `p`. */
  lemma {:induction false} SpanRun(s: string, i: nat, p: char -> bool)
    requires i <= |s|
    ensures forall m :: i <= m < Span(s, i, p) ==> p(s[m])
    decreases |s| - i
  {
    if i < |s| && p(s[i]) {
      SpanRun(s, i + 1, p);
    }
  }

  /** A `]` candidate that is not the right one is passed over. */
  lemma {:induction false} MatchAtScan(s: string, i: nat, j: nat, close: nat)
    requires i < j <= close < |s|
    requires forall m :: j <= m < close ==> s[m] != ']' && !JsIsLineTerminator(s[m])
    requires s[close] == ']' && AfterClose(s[close + 1..]).Some?
    ensures MatchAt(s, i, j) ==
            Some(Progress(s[i + 1..close], AfterClose(s[close + 1..]).value.0, AfterClose(s[close + 1..]).value.1))
    decreases close - j
  {
    if j < close {
      MatchAtScan(s, i, j + 1, close);
    }
  }

  /** The text after the `]` of a printed progress line yields its digits and message. */
  lemma AfterCloseOf(digits: string, message: string)
    requires digits != [] && forall k :: 0 <= k < |digits| ==> IsDigit(digits[k])
    requires forall k :: 0 <= k < |message| ==> NotLineTerminator(message[k])
    requires message != [] ==> !JsIsSpace(message[0])
    ensures AfterClose(" " + digits + "%: " + message) == Some((digits, message))
  {
    var t := " " + digits + "%: " + message;
    var d1 := 1 + |digits|;
    assert t[0] == ' ' && t[d1] == '%' && t[d1 + 1] == ':' && t[d1 + 2] == ' ';
    assert t[1..d1] == digits;
    assert t[d1 + 3..] == message;
    SpanTo(t, 0, 1, JsIsSpace);
    SpanTo(t, 1, d1, IsDigit);
    SpanTo(t, d1 + 2, d1 + 3, JsIsSpace);
    SpanTo(t, d1 + 3, |t|, NotLineTerminator);
    assert t[d1 + 3..|t|] == message;
  }

  /** What `progress_callback` prints is read back as the same stage, percentage and message,
      provided the stage holds no `]` and no line terminator and the message holds no line
      terminator and does not start with white space (which `\s*` would swallow). */
  lemma ProgressRoundTrip(stage: string, percentage: nat, message: string)
    requires forall k :: 0 <= k < |stage| ==> stage[k] != ']' && !JsIsLineTerminator(stage[k])
    requires forall k :: 0 <= k < |message| ==> NotLineTerminator(message[k])
    requires message != [] ==> !JsIsSpace(message[0])
    ensures MatchProgress(ProgressLine(stage, percentage, message)) ==
            Some(Progress(stage, NatToString(percentage), message))
    ensures ParseDecimal(NatToString(percentage)) == percentage
  {
    var digits := NatToString(percentage);
    var t := " " + digits + "%: " + message;
    var s := ProgressLine(stage, percentage, message);
    var close := 1 + |stage|;
    BracketedParts(stage, t);
    AfterCloseOf(digits, message);
    MatchBracketed(s, close);
    ParseNatToString(percentage);
  }

  /** Where the parts of `[stage]` followed by `t` sit. */
  lemma BracketedParts(stage: string, t: string)
    ensures var s, close := "[" + stage + "]" + t, 1 + |stage|;
      && |s| == close + 1 + |t| && s[0] == '[' && s[close] == ']'
      && s[1..close] == stage && s[close + 1..] == t
      && forall m :: 1 <= m < close ==> s[m] == stage[m - 1]
  {
  }

  /** A line that opens with `[`, whose first `]` (before any line terminator) is followed by
      the rest of the pattern, matches with the text between the brackets as its stage. */
  lemma MatchBracketed(s: string, close: nat)
    requires 1 <= close < |s| && s[0] == '['
    requires forall m :: 1 <= m < close ==> s[m] != ']' && !JsIsLineTerminator(s[m])
    requires s[close] == ']' && AfterClose(s[close + 1..]).Some?
    ensures MatchProgress(s) ==
            Some(Progress(s[1..close], AfterClose(s[close + 1..]).value.0, AfterClose(s[close + 1..]).value.1))
  {
    MatchAtScan(s, 0, 1, close);
  }

  // ---------------------------------------------------------------------------
  // The receiving half, line by line
  // ---------------------------------------------------------------------------

  /** What the `data` handler keeps between lines: `isCollectingMarkdown`, `markdownLines`
      and `markdown`. */
  datatype Receiver = Receiver(collecting: bool, lines: seq<string>, markdown: string)

  const Initial := Receiver(false, [], "")

  /** One complete line: a line holding the begin marker starts a new collection, a line
      holding the end marker stops it and joins what was collected; any other line is
      collected while collecting and left alone otherwise. Marker lines are never collected. */
  function Receive(r: Receiver, line: string): Receiver {
    if Contains(line, BeginMarker) then Receiver(true, [], r.markdown)
    else if Contains(line, EndMarker) then r.(collecting := false, markdown := JoinWith(r.lines, "\n"))
    else if r.collecting then r.(lines := r.lines + [line])
    else r
  }

  /** The progress report a line carries: only a line outside the Markdown, holding neither
      marker, that matches the pattern. */
  function ProgressOf(r: Receiver, line: string): Option<Progress> {
    if Contains(line, BeginMarker) || Contains(line, EndMarker) || r.collecting then None
    else MatchProgress(line)
  }

  /** A begin-marker line starts a fresh collection and is not collected; an end-marker line
      stops collecting, is not collected and joins the collected lines into the Markdown; any
      other line is collected exactly when collecting. */
  lemma ReceiveRules(r: Receiver, line: string)
    ensures var r' := Receive(r, line);
            (Contains(line, BeginMarker) ==> r'.collecting && r'.lines == [] && r'.markdown == r.markdown) &&
            (!Contains(line, BeginMarker) && Contains(line, EndMarker) ==>
               !r'.collecting && r'.lines == r.lines && r'.markdown == JoinWith(r.lines, "\n")) &&
            (!Contains(line, BeginMarker) && !Contains(line, EndMarker) ==>
               r'.collecting == r.collecting && r'.markdown == r.markdown &&
               r'.lines == if r.collecting then r.lines + [line] else r.lines)
  {
  }

  /** A line read while collecting, or holding a marker, is never a progress report; any other
      line is one exactly when it matches the pattern. */
  lemma ProgressRules(r: Receiver, line: string)
    ensures r.collecting ==> ProgressOf(r, line) == None
    ensures !NoMarker(line) ==> ProgressOf(r, line) == None
    ensures !r.collecting && NoMarker(line) ==> ProgressOf(r, line) == MatchProgress(line)
  {
  }

  /** The state after the first `k` lines. */
  function ReceiveAll(r: Receiver, ls: seq<string>, k: nat): Receiver
    requires k <= |ls|
  {
    if k == 0 then r else Receive(ReceiveAll(r, ls, k - 1), ls[k - 1])
  }

  predicate NoMarker(line: string) {
    !Contains(line, BeginMarker) && !Contains(line, EndMarker)
  }

  /** Collected lines never hold a marker, whatever lines arrive. */
  lemma {:induction false} CollectedHaveNoMarker(r: Receiver, ls: seq<string>, k: nat)
    requires k <= |ls|
    requires forall i :: 0 <= i < |r.lines| ==> NoMarker(r.lines[i])
    ensures forall i :: 0 <= i < |ReceiveAll(r, ls, k).lines| ==> NoMarker(ReceiveAll(r, ls, k).lines[i])
  {
    if k > 0 {
      CollectedHaveNoMarker(r, ls, k - 1);
      var prev, line := ReceiveAll(r, ls, k - 1), ls[k - 1];
      var cur := ReceiveAll(r, ls, k);
      assert cur == Receive(prev, line);
      if NoMarker(line) && prev.collecting {
        forall i | 0 <= i < |cur.lines| ensures NoMarker(cur.lines[i]) {
          if i < |prev.lines| {
            assert cur.lines[i] == prev.lines[i];
          } else {
            assert cur.lines[i] == line;
          }
        }
      } else if Contains(line, BeginMarker) {
        assert cur.lines == [];
      } else {
        assert cur.lines == prev.lines;
      }
    }
  }

  /** While collecting, lines without a marker are appended one by one. */
  lemma {:induction false} CollectRun(r: Receiver, ls: seq<string>, k: nat)
    requires k <= |ls| && r.collecting
    requires forall i :: 0 <= i < |ls| ==> NoMarker(ls[i])
    ensures ReceiveAll(r, ls, k) == r.(lines := r.lines + ls[..k])
  {
    if k > 0 {
      CollectRun(r, ls, k - 1);
      TakeSnoc(ls, k - 1);
      assert r.lines + ls[..k - 1] + [ls[k - 1]] == r.lines + ls[..k];
    } else {
      assert r.lines + ls[..0] == r.lines;
    }
  }

  lemma BeginHasBegin()
    ensures Contains(BeginMarker, BeginMarker)
  {
    assert OccursAt(BeginMarker, BeginMarker, 0);
  }

  lemma EndHasEndOnly()
    ensures Contains(EndMarker, EndMarker) && !Contains(EndMarker, BeginMarker)
  {
    assert OccursAt(EndMarker, EndMarker, 0);
    assert |EndMarker| == |BeginMarker|;
    assert !OccursAt(EndMarker, BeginMarker, 0);
  }

  /** Walking the lines of `a + b` is walking `a`, then `b`. */
  lemma {:induction false} ReceiveAllAppend(r: Receiver, a: seq<string>, b: seq<string>, k: nat)
    requires k <= |b|
    ensures ReceiveAll(r, a + b, |a| + k) == ReceiveAll(ReceiveAll(r, a, |a|), b, k)
  {
    if k == 0 {
      ReceiveAllPrefix(r, a + b, a, |a|);
    } else {
      ReceiveAllAppend(r, a, b, k - 1);
      assert (a + b)[|a| + k - 1] == b[k - 1];
    }
  }

  /** Only the lines walked so far matter. */
  lemma {:induction false} ReceiveAllPrefix(r: Receiver, ls: seq<string>, ms: seq<string>, k: nat)
    requires k <= |ls| && k <= |ms| && ls[..k] == ms[..k]
    ensures ReceiveAll(r, ls, k) == ReceiveAll(r, ms, k)
  {
    if k > 0 {
      assert ls[k - 1] == ls[..k][k - 1] == ms[..k][k - 1] == ms[k - 1];
      assert ls[..k - 1] == ls[..k][..k - 1];
      assert ms[..k - 1] == ms[..k][..k - 1];
      ReceiveAllPrefix(r, ls, ms, k - 1);
    }
  }

  /** Round trip: whatever the receiver's state, the framed lines of a non-empty Markdown text
      whose lines hold no marker leave it not collecting, with those lines collected and the
      Markdown text recovered exactly. */
  lemma FramedRoundTrip(r: Receiver, markdown: string)
    requires markdown != []
    requires forall i :: 0 <= i < |SplitOn(markdown, '\n')| ==> NoMarker(SplitOn(markdown, '\n')[i])
    ensures var pieces := SplitOn(markdown, '\n');
            ReceiveAll(r, FramedLines(markdown), |FramedLines(markdown)|) == Receiver(false, pieces, markdown)
  {
    var pieces := SplitOn(markdown, '\n');
    var body := [BeginMarker] + pieces;
    assert FramedLines(markdown) == body + [EndMarker];
    var started := Receiver(true, [], r.markdown);
    ReceiveBegin(r);
    ReceiveAllAppend(r, [BeginMarker], pieces, |pieces|);
    CollectRun(started, pieces, |pieces|);
    assert [] + pieces[..|pieces|] == pieces;
    var collected := Receiver(true, pieces, r.markdown);
    assert ReceiveAll(r, body, |body|) == collected;
    ReceiveAllAppend(r, body, [EndMarker], 1);
    ReceiveEnd(collected);
    JoinSplit(markdown, '\n');
  }

  lemma ReceiveBegin(r: Receiver)
    ensures ReceiveAll(r, [BeginMarker], 1) == Receiver(true, [], r.markdown)
  {
    BeginHasBegin();
  }

  lemma ReceiveEnd(r: Receiver)
    ensures ReceiveAll(r, [EndMarker], 1) == Receiver(false, r.lines, JoinWith(r.lines, "\n"))
  {
    EndHasEndOnly();
  }

  /** Were an empty Markdown text framed, the receiver would take the warning line for the
      Markdown. `main` never frames an empty Markdown text: it returns before the frame when
      the conversion gives nothing. */
  lemma EmptyFramedGivesWarning(r: Receiver)
    ensures ReceiveAll(r, FramedLines(""), 3).markdown == EmptyWarning
  {
    assert |EmptyWarning| < |BeginMarker| == |EndMarker|;
    assert NoMarker(EmptyWarning);
    var ls := FramedLines("");
    assert ls == [BeginMarker, EmptyWarning, EndMarker];
    BeginHasBegin();
    EndHasEndOnly();
    assert ReceiveAll(r, ls, 2).lines == [EmptyWarning];
    assert JoinWith([EmptyWarning], "\n") == EmptyWarning;
  }
}
