/** One parse as the server sees it (`parseDeepWiki` in server.js): the `data` handler of the
    child's standard output, which carries an incomplete last line over to the next chunk and
    feeds each complete line to the Markdown collector and the progress pattern, the standard
    error handler and the `close` handler. */
module ParseSession {
  import opened Options
  import opened Strings
  import opened Framing
  import opened Tasks

  // ---------------------------------------------------------------------------
  // Cutting the stream into lines
  // ---------------------------------------------------------------------------

  /** The complete lines of `s`: every piece of `s.split("\n")` but the last. */
  function CompleteLines(s: string): seq<string> {
    var pieces := SplitOn(s, '\n');
    pieces[..|pieces| - 1]
  }

  /** `lines.pop() || ""`: the last piece, what is left after the last newline. */
  function Tail(s: string): string {
    var pieces := SplitOn(s, '\n');
    pieces[|pieces| - 1]
  }

  predicate NewlineFree(ls: seq<string>) {
    forall i :: 0 <= i < |ls| ==> '\n' !in ls[i]
  }

  /** The complete lines, each given back its newline, followed by the tail are the text; no
      line and not the tail holds a newline. */
  lemma SplitStream(s: string)
    ensures NewlineFree(CompleteLines(s)) && '\n' !in Tail(s)
    ensures Terminated(CompleteLines(s)) + Tail(s) == s
  {
    var pieces := SplitOn(s, '\n');
    SplitOnPieces(s, '\n');
    assert pieces == CompleteLines(s) + [Tail(s)];
    JoinSplit(s, '\n');
    JoinIsTerminated(CompleteLines(s), Tail(s));
  }

  /** Appending a chunk to the buffer and handling its complete lines keeps the handled lines
      and the buffer an exact account of what arrived. */
  lemma StreamStep(processed: seq<string>, buffer: string, chunk: string)
    requires NewlineFree(processed)
    ensures var all := buffer + chunk;
            NewlineFree(processed + CompleteLines(all)) && '\n' !in Tail(all) &&
            Terminated(processed + CompleteLines(all)) + Tail(all) == Terminated(processed) + buffer + chunk
  {
    var all := buffer + chunk;
    SplitStream(all);
    TerminatedAppend(processed, CompleteLines(all));
    AppendAssoc(Terminated(processed), Terminated(CompleteLines(all)), Tail(all));
    AppendAssoc(Terminated(processed), buffer, chunk);
  }

  // ---------------------------------------------------------------------------
  // What the lines do to the task
  // ---------------------------------------------------------------------------

  /** The notice sent for one line: one for a progress report, none otherwise. */
  function Report(r: Receiver, line: string): (ns: seq<Notice>)
    ensures |ns| <= 1 && (ns != [] ==> ns[0].ProgressNotice?)
    ensures ns == [] <==> ProgressOf(r, line) == None
  {
    match ProgressOf(r, line)
    case None => []
    case Some(p) => [ProgressNoticeOf(p)]
  }

  /** The progress notices sent for the first `k` lines, read from receiver state `r` on. */
  function Reports(r: Receiver, ls: seq<string>, k: nat): seq<Notice>
    requires k <= |ls|
  {
    if k == 0 then [] else Reports(r, ls, k - 1) + Report(ReceiveAll(r, ls, k - 1), ls[k - 1])
  }

  /** The task as the last of a run of notices describes it; unchanged when there is none. */
  function Latest(t: Task, ns: seq<Notice>): Task {
    if ns == [] then t else ApplyProgress(t, ns[|ns| - 1])
  }

  /** Notices applied in two runs leave the task as the two runs applied together, when the
      second run ends in a progress notice: that notice overwrites every field an earlier one set. */
  lemma LatestAppend(t: Task, ns: seq<Notice>, more: seq<Notice>)
    requires more == [] || more[|more| - 1].ProgressNotice?
    ensures Latest(Latest(t, ns), more) == Latest(t, ns + more)
  {
    if more == [] {
      assert ns + more == ns;
    } else {
      var n := more[|more| - 1];
      assert (ns + more)[|ns + more| - 1] == n;
      var u := Latest(t, ns);
      assert u.(stage := t.stage, progress := t.progress, message := t.message) == t;
    }
  }

  /** One more line: the receiver takes it and its report, if any, is appended. */
  lemma LineStep(r: Receiver, ls: seq<string>, i: nat)
    requires i < |ls|
    ensures ReceiveAll(r, ls, i + 1) == Receive(ReceiveAll(r, ls, i), ls[i])
    ensures Reports(r, ls, i + 1) == Reports(r, ls, i) + Report(ReceiveAll(r, ls, i), ls[i])
  {
  }

  /** One more line of the `for` loop: its notice, if sent, extends the notices and the
      table update of the lines before it. */
  lemma NoticesStep(t0: map<string, Task>, t1: map<string, Task>, taskId: string, r0: Receiver,
                    ls: seq<string>, i: nat, notices: seq<Notice>, reported: seq<Notice>)
    requires i < |ls|
    requires notices == Sent(t0, taskId, Reports(r0, ls, i)) && t1 == Updated(t0, taskId, notices)
    requires reported == Sent(t1, taskId, Report(ReceiveAll(r0, ls, i), ls[i]))
    ensures notices + reported == Sent(t0, taskId, Reports(r0, ls, i + 1))
    ensures Updated(t1, taskId, reported) == Updated(t0, taskId, notices + reported)
  {
    LineStep(r0, ls, i);
    UpdatedAppend(t0, taskId, notices, reported);
  }

  /** The notices actually sent: none when the task is not in the table (`if (task)`). */
  function Sent(tasks: map<string, Task>, taskId: string, ns: seq<Notice>): seq<Notice> {
    if taskId in tasks then ns else []
  }

  /** The table after notices `ns` about `taskId`: the task, if present, as the last one
      describes it; every other entry unchanged. */
  function Updated(tasks: map<string, Task>, taskId: string, ns: seq<Notice>): (r: map<string, Task>)
    ensures r.Keys == tasks.Keys
    ensures forall id :: id in tasks && id != taskId ==> r[id] == tasks[id]
  {
    if taskId in tasks then tasks[taskId := Latest(tasks[taskId], ns)] else tasks
  }

  /** Updating the table with two runs of notices about one task is updating it with both,
      when the second run ends in a progress notice. */
  lemma UpdatedAppend(tasks: map<string, Task>, taskId: string, ns: seq<Notice>, more: seq<Notice>)
    requires more == [] || more[|more| - 1].ProgressNotice?
    ensures Updated(Updated(tasks, taskId, ns), taskId, more) == Updated(tasks, taskId, ns + more)
  {
    if taskId in tasks {
      LatestAppend(tasks[taskId], ns, more);
    }
  }

  /** The line at index `i` carries no progress report. */
  predicate Quiet(r: Receiver, ls: seq<string>, i: nat)
    requires i < |ls|
  {
    ProgressOf(ReceiveAll(r, ls, i), ls[i]) == None
  }

  /** None of the first `k` lines carries a progress report. */
  predicate AllQuiet(r: Receiver, ls: seq<string>, k: nat)
    requires k <= |ls|
  {
    k == 0 || (AllQuiet(r, ls, k - 1) && Quiet(r, ls, k - 1))
  }

  /** Lines none of which is a progress report send nothing, so they leave the task alone. */
  lemma {:induction false} QuietLines(r: Receiver, ls: seq<string>, k: nat)
    requires k <= |ls| && AllQuiet(r, ls, k)
    ensures Reports(r, ls, k) == []
  {
    if k > 0 {
      QuietLines(r, ls, k - 1);
      QuietStep(r, ls, k);
    }
  }

  lemma QuietStep(r: Receiver, ls: seq<string>, k: nat)
    requires 0 < k <= |ls|
    requires Reports(r, ls, k - 1) == [] && Quiet(r, ls, k - 1)
    ensures Reports(r, ls, k) == []
  {
  }

  /** The framed Markdown moves no progress: its lines are collected, never matched, even a
      line that looks like a progress report. */
  lemma FramedIsQuiet(r: Receiver, markdown: string)
    requires markdown != []
    requires forall i :: 0 <= i < |SplitOn(markdown, '\n')| ==> NoMarker(SplitOn(markdown, '\n')[i])
    ensures Reports(r, FramedLines(markdown), |FramedLines(markdown)|) == []
  {
    FramedQuietUpTo(r, markdown, |FramedLines(markdown)|);
    QuietLines(r, FramedLines(markdown), |FramedLines(markdown)|);
  }

  lemma {:induction false} FramedQuietUpTo(r: Receiver, markdown: string, k: nat)
    requires markdown != []
    requires forall i :: 0 <= i < |SplitOn(markdown, '\n')| ==> NoMarker(SplitOn(markdown, '\n')[i])
    requires k <= |FramedLines(markdown)|
    ensures AllQuiet(r, FramedLines(markdown), k)
  {
    if k > 0 {
      FramedQuietUpTo(r, markdown, k - 1);
      var ls := FramedLines(markdown);
      if k - 1 == 0 {
        BeginHasBegin();
      } else if k - 1 == |ls| - 1 {
        EndHasEndOnly();
      } else {
        BodyIsCollected(r, markdown, k - 1);
      }
      ProgressRules(ReceiveAll(r, ls, k - 1), ls[k - 1]);
    }
  }

  /** Inside the frame the receiver is collecting. */
  lemma BodyIsCollected(r: Receiver, markdown: string, i: nat)
    requires markdown != []
    requires forall i :: 0 <= i < |SplitOn(markdown, '\n')| ==> NoMarker(SplitOn(markdown, '\n')[i])
    requires 0 < i < |FramedLines(markdown)| - 1
    ensures ReceiveAll(r, FramedLines(markdown), i).collecting
  {
    var ls := FramedLines(markdown);
    var pieces := SplitOn(markdown, '\n');
    assert ls == [BeginMarker] + pieces + [EndMarker];
    assert ls[..i] == [BeginMarker] + pieces[..i - 1];
    ReceiveAllPrefix(r, ls, [BeginMarker] + pieces[..i - 1], i);
    ReceiveBegin(r);
    ReceiveAllAppend(r, [BeginMarker], pieces[..i - 1], i - 1);
    CollectRun(Receiver(true, [], r.markdown), pieces[..i - 1], i - 1);
  }

  /** Round trip through the stream: whatever complete lines the parser printed before the
      frame (its progress lines and the converted address), and however the output was cut
      into chunks, once all of it has arrived no partial line is left, the handled lines are
      those lines followed by the frame, and the Markdown is recovered exactly. */
  lemma {:induction false} StreamRoundTrip(processed: seq<string>, buffer: string,
                                           pre: seq<string>, markdown: string)
    requires NewlineFree(processed) && '\n' !in buffer && NewlineFree(pre)
    requires Terminated(processed) + buffer == Terminated(pre) + FramedOutput(markdown)
    requires markdown != []
    requires forall i :: 0 <= i < |SplitOn(markdown, '\n')| ==> NoMarker(SplitOn(markdown, '\n')[i])
    ensures buffer == [] && processed == pre + FramedLines(markdown)
    ensures ReceiveAll(Initial, processed, |processed|) == Receiver(false, SplitOn(markdown, '\n'), markdown)
  {
    FramedStreamLines(processed, buffer, pre, markdown);
    var r := ReceiveAll(Initial, pre, |pre|);
    ReceiveAllAppend(Initial, pre, FramedLines(markdown), |FramedLines(markdown)|);
    FramedRoundTrip(r, markdown);
  }

  /** Complete lines followed by the frame, once all of it has arrived, leave no partial line,
      and the handled lines are those lines followed by the printed frame. */
  lemma FramedStreamLines(processed: seq<string>, buffer: string, pre: seq<string>, markdown: string)
    requires NewlineFree(processed) && '\n' !in buffer && NewlineFree(pre)
    requires Terminated(processed) + buffer == Terminated(pre) + FramedOutput(markdown)
    ensures buffer == [] && processed == pre + FramedLines(markdown)
  {
    var ls := FramedLines(markdown);
    FramedLinesFlat(markdown);
    NewlineFreeAppend(pre, ls);
    TerminatedAppend(pre, ls);
    assert Terminated(pre + ls) + [] == Terminated(pre) + FramedOutput(markdown);
    TerminatedInjective(processed, buffer, pre + ls, []);
  }

  lemma NewlineFreeAppend(a: seq<string>, b: seq<string>)
    requires NewlineFree(a) && forall i :: 0 <= i < |b| ==> '\n' !in b[i]
    ensures NewlineFree(a + b)
  {
    forall i | 0 <= i < |a + b| ensures '\n' !in (a + b)[i] {
      if i >= |a| {
        assert (a + b)[i] == b[i - |a|];
      }
    }
  }

  // ---------------------------------------------------------------------------
  // The handlers
  // ---------------------------------------------------------------------------

  /** The closure state of one `parseDeepWiki` call. `received` is everything the standard
      output has delivered and `processed` the complete lines handled so far; both exist only
      for the proof. */
  class Session {
    const table: TaskTable
    const taskId: string
    var buffer: string
    var collecting: bool
    var lines: seq<string>
    var markdown: string
    var errorOutput: string
    ghost var received: string
    ghost var processed: seq<string>

    function State(): Receiver
      reads this
    {
      Receiver(collecting, lines, markdown)
    }

    /** The buffer holds no newline; the handled lines, each with its newline, followed by the
        buffer are what arrived; and the collector is where those lines lead from the start. */
    ghost predicate Valid()
      reads this
    {
      '\n' !in buffer && NewlineFree(processed) &&
      Terminated(processed) + buffer == received &&
      State() == ReceiveAll(Initial, processed, |processed|)
    }

    /** A parse starts: the task is stored as running and the handlers' state is empty. */
    constructor (table: TaskTable, taskId: string, socketId: string)
      modifies table
      ensures Valid() && received == [] && processed == [] && errorOutput == []
      ensures this.table == table && this.taskId == taskId
      ensures table.tasks == old(table.tasks)[taskId := NewTask(socketId)]
    {
      this.table := table;
      this.taskId := taskId;
      buffer, collecting, lines, markdown, errorOutput := "", false, [], "", "";
      received, processed := "", [];
      new;
      table.Start(taskId, socketId);
    }

    /** The standard output `data` handler: the chunk is appended to the buffer, the complete
        lines are handled in order and the incomplete tail stays in the buffer. A line with
        the begin marker starts collecting afresh, a line with the end marker joins the
        collected lines into the Markdown, a collected line is only kept, and any other line
        that matches the progress pattern updates the task, if there is one, and is reported. */
    method OnData(chunk: string) returns (notices: seq<Notice>)
      requires Valid()
      modifies this, table
      ensures Valid()
      ensures received == old(received) + chunk
      ensures processed == old(processed) + CompleteLines(old(buffer) + chunk)
      ensures buffer == Tail(old(buffer) + chunk)
      ensures State() == ReceiveAll(old(State()), CompleteLines(old(buffer) + chunk), |CompleteLines(old(buffer) + chunk)|)
      ensures var ls := CompleteLines(old(buffer) + chunk);
              notices == Sent(old(table.tasks), taskId, Reports(old(State()), ls, |ls|))
      ensures table.tasks == Updated(old(table.tasks), taskId, notices)
      ensures errorOutput == old(errorOutput)
    {
      var all := buffer + chunk;
      var pieces := SplitOn(all, '\n');
      var complete := pieces[..|pieces| - 1];
      buffer := pieces[|pieces| - 1];
      assert complete == CompleteLines(all) && buffer == Tail(all);
      notices := HandleLines(complete);
      StreamStep(processed, old(buffer), chunk);
      ReceiveAllAppend(Initial, processed, complete, |complete|);
      received := received + chunk;
      processed := processed + complete;
    }

    /** The `for` loop of the `data` handler: the complete lines in order. */
    method HandleLines(complete: seq<string>) returns (notices: seq<Notice>)
      modifies this, table
      ensures State() == ReceiveAll(old(State()), complete, |complete|)
      ensures notices == Sent(old(table.tasks), taskId, Reports(old(State()), complete, |complete|))
      ensures table.tasks == Updated(old(table.tasks), taskId, notices)
      ensures buffer == old(buffer) && errorOutput == old(errorOutput)
      ensures received == old(received) && processed == old(processed)
    {
      ghost var r0 := State();
      ghost var t0 := table.tasks;
      notices := [];
      var i := 0;
      while i < |complete|
        invariant 0 <= i <= |complete|
        invariant State() == ReceiveAll(r0, complete, i)
        invariant notices == Sent(t0, taskId, Reports(r0, complete, i))
        invariant table.tasks == Updated(t0, taskId, notices)
        invariant buffer == old(buffer) && errorOutput == old(errorOutput)
        invariant received == old(received) && processed == old(processed)
      {
        ghost var t1 := table.tasks;
        var reported := HandleLine(complete[i]);
        NoticesStep(t0, t1, taskId, r0, complete, i, notices, reported);
        notices := notices + reported;
        i := i + 1;
      }
    }

    /** The body of the `for` loop of the `data` handler: one complete line. */
    method HandleLine(line: string) returns (reported: seq<Notice>)
      modifies this, table
      ensures State() == Receive(old(State()), line)
      ensures reported == Sent(old(table.tasks), taskId, Report(old(State()), line))
      ensures table.tasks == Updated(old(table.tasks), taskId, reported)
      ensures buffer == old(buffer) && errorOutput == old(errorOutput)
      ensures received == old(received) && processed == old(processed)
    {
      reported := [];
      if Contains(line, BeginMarker) {
        collecting, lines := true, [];
      } else if Contains(line, EndMarker) {
        collecting, markdown := false, JoinWith(lines, "\n");
      } else if collecting {
        lines := lines + [line];
      } else {
        var m := MatchProgress(line);
        if m.Some? && taskId in table.tasks {
          var notice := ProgressNoticeOf(m.value);
          table.tasks := table.tasks[taskId := ApplyProgress(table.tasks[taskId], notice)];
          reported := [notice];
        }
      }
    }

    /** The standard error `data` handler: the chunk is appended to the error text. */
    method OnStderr(chunk: string)
      modifies this
      ensures errorOutput == old(errorOutput) + chunk
      ensures buffer == old(buffer) && State() == old(State())
      ensures received == old(received) && processed == old(processed)
    {
      errorOutput := errorOutput + chunk;
    }

    /** The `close` handler. The task, when there is one, becomes completed or failed by the
        exit code, with the error the settlement records; the client's notice and the
        promise's outcome are the settlement's. The handler reads `task.error` unguarded when
        the exit code is 0 but the Markdown is blank or cannot be saved, so the task must exist
        then. */
    method OnClose(code: Option<int>, writeError: Option<string>) returns (notice: Notice, outcome: Outcome)
      requires taskId in table.tasks || Settle(code, markdown, errorOutput, writeError).errorNote.None?
      modifies table
      ensures var s := Settle(code, markdown, errorOutput, writeError);
              notice == s.notice && outcome == s.outcome &&
              table.tasks == if taskId in old(table.tasks)
                             then old(table.tasks)[taskId := Closed(old(table.tasks)[taskId], s, code, errorOutput)]
                             else old(table.tasks)
    {
      if taskId in table.tasks {
        var t := table.tasks[taskId];
        t := t.(status := if code == Some(0) then Completed else Failed,
                error := if code != Some(0) then Some(errorOutput) else None);
        table.tasks := table.tasks[taskId := t];
      }
      if code == Some(0) {
        if markdown == [] || JsBlank(markdown) {
          table.tasks := table.tasks[taskId := table.tasks[taskId].(error := Some(EmptyError))];
          return FailedNotice(EmptyNotice), Rejected(EmptyError);
        }
        if writeError.Some? {
          var e := WritePrefix + writeError.value;
          table.tasks := table.tasks[taskId := table.tasks[taskId].(error := Some(e))];
          return FailedNotice(e), Rejected(writeError.value);
        }
        return CompletedNotice(SuccessMessage), Resolved(markdown);
      } else {
        var reason := FailPrefix + (if errorOutput != [] then errorOutput else UnknownError);
        return FailedNotice(reason), Rejected(reason);
      }
    }
  }

  /** However the output was chunked, a session that has received some complete lines and
      then all of a framed Markdown text has no partial line left, has handled those lines and
      the frame, is not collecting and holds exactly that Markdown. */
  lemma SessionRoundTrip(s: Session, pre: seq<string>, markdown: string)
    requires s.Valid() && NewlineFree(pre) && s.received == Terminated(pre) + FramedOutput(markdown)
    requires markdown != []
    requires forall i :: 0 <= i < |SplitOn(markdown, '\n')| ==> NoMarker(SplitOn(markdown, '\n')[i])
    ensures s.buffer == [] && s.processed == pre + FramedLines(markdown)
    ensures !s.collecting && s.lines == SplitOn(markdown, '\n') && s.markdown == markdown
  {
    StreamRoundTrip(s.processed, s.buffer, pre, markdown);
  }
}
