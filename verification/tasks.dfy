/** The server's record of parse tasks (`activeTasks` in server.js) and the transitions that
    the close, cancel and disconnect handlers apply to a task. */
module Tasks {
  import opened Options
  import opened Strings
  import opened Framing

  datatype Status = Running | Completed | Failed | Cancelled

  /** An entry of `activeTasks`. A task is created together with its child process, so the
      process is always present; only whether `kill()` has been called on it is kept. */
  datatype Task = Task(socketId: string, status: Status, stage: string, progress: nat,
                       message: Option<string>, error: Option<string>, killed: bool)

  const StartStage := "启动"
  const EmptyError := "解析成功，但Markdown内容为空"
  const EmptyNotice := "解析成功，但Markdown内容为空，请重试"
  const WritePrefix := "文件写入错误: "
  const FailPrefix := "解析失败: "
  const UnknownError := "未知错误"
  const SuccessMessage := "解析成功"
  const CancelMessage := "任务已取消"

  /** What the server sends to the client's socket about a task. */
  datatype Notice =
    | ProgressNotice(stage: string, progress: nat, message: string)
    | CompletedNotice(message: string)
    | FailedNotice(error: string)

  /** How the promise of `parseDeepWiki` settles. */
  datatype Outcome = Resolved(markdown: string) | Rejected(reason: string)

  /** The record stored when a parse starts: running, at the start stage, at 0%. */
  function NewTask(socketId: string): (t: Task)
    ensures t.socketId == socketId && t.status == Running && t.stage == StartStage && t.progress == 0
    ensures t.message == None && t.error == None && !t.killed
  {
    Task(socketId, Running, StartStage, 0, None, None, false)
  }

  // ---------------------------------------------------------------------------
  // Progress
  // ---------------------------------------------------------------------------

  /** The notice a matched progress line gives: its stage, its percentage read with
      `parseInt(digits, 10)`, and its message. */
  function ProgressNoticeOf(p: Progress): (n: Notice)
    requires forall i :: 0 <= i < |p.digits| ==> IsDigit(p.digits[i])
    ensures n.ProgressNotice? && n.stage == p.stage && n.message == p.message
  {
    ProgressNotice(p.stage, ParseDecimal(p.digits), p.message)
  }

  /** The task as a progress notice describes it: the notice's stage, percentage and message,
      everything else as it was. Other notices leave it alone. */
  function ApplyProgress(t: Task, n: Notice): (u: Task)
    ensures u.(stage := t.stage, progress := t.progress, message := t.message) == t
    ensures n.ProgressNotice? ==> u.stage == n.stage && u.progress == n.progress && u.message == Some(n.message)
    ensures !n.ProgressNotice? ==> u == t
  {
    match n
    case ProgressNotice(stage, progress, message) => t.(stage := stage, progress := progress, message := Some(message))
    case _ => t
  }

  /** A progress line printed by the parser is recorded as the stage, percentage and message
      it was printed with. */
  lemma PrintedProgressRecorded(t: Task, stage: string, percentage: nat, message: string)
    requires forall k :: 0 <= k < |stage| ==> stage[k] != ']' && !JsIsLineTerminator(stage[k])
    requires forall k :: 0 <= k < |message| ==> NotLineTerminator(message[k])
    requires message != [] ==> !JsIsSpace(message[0])
    ensures MatchProgress(ProgressLine(stage, percentage, message)).Some?
    ensures ProgressNoticeOf(MatchProgress(ProgressLine(stage, percentage, message)).value) ==
            ProgressNotice(stage, percentage, message)
    ensures ApplyProgress(t, ProgressNoticeOf(MatchProgress(ProgressLine(stage, percentage, message)).value)) ==
            t.(stage := stage, progress := percentage, message := Some(message))
  {
    ProgressRoundTrip(stage, percentage, message);
  }

  // ---------------------------------------------------------------------------
  // Close
  // ---------------------------------------------------------------------------

  /** The first thing the `close` handler does: the task is completed exactly when the exit
      code is 0 (`null`, the code of a process ended by a signal, is not 0), and its error is
      the standard error text exactly when it is not completed. Nothing else changes. */
  function Ended(t: Task, code: Option<int>, errorOutput: string): (r: Task)
    ensures r.status == Completed <==> code == Some(0)
    ensures r.status == Failed <==> code != Some(0)
    ensures r.error == (if code == Some(0) then None else Some(errorOutput))
    ensures r.(status := t.status, error := t.error) == t
  {
    if code == Some(0) then t.(status := Completed, error := None)
    else t.(status := Failed, error := Some(errorOutput))
  }

  /** What the rest of the `close` handler decides: a note that overwrites the task's error, the
      notice sent to the client and how the promise settles. `writeError` is the message of the
      error thrown while saving the Markdown, if one is thrown. */
  datatype Settlement = Settlement(errorNote: Option<string>, notice: Notice, outcome: Outcome)

  function Settle(code: Option<int>, markdown: string, errorOutput: string,
                  writeError: Option<string>): (s: Settlement)
    ensures s.outcome.Resolved? <==> code == Some(0) && !JsBlank(markdown) && writeError.None?
    ensures s.outcome.Resolved? ==> s.outcome.markdown == markdown && s.notice == CompletedNotice(SuccessMessage)
    ensures s.outcome.Rejected? <==> s.notice.FailedNotice?
    ensures s.errorNote.Some? <==> code == Some(0) && s.outcome.Rejected?
    ensures code != Some(0) ==>
              s.outcome == Rejected(FailPrefix + (if errorOutput == [] then UnknownError else errorOutput))
  {
    if code != Some(0) then
      var reason := FailPrefix + (if errorOutput == [] then UnknownError else errorOutput);
      Settlement(None, FailedNotice(reason), Rejected(reason))
    else if JsBlank(markdown) then
      Settlement(Some(EmptyError), FailedNotice(EmptyNotice), Rejected(EmptyError))
    else if writeError.Some? then
      var e := WritePrefix + writeError.value;
      Settlement(Some(e), FailedNotice(e), Rejected(writeError.value))
    else
      Settlement(None, CompletedNotice(SuccessMessage), Resolved(markdown))
  }

  /** The task after the `close` handler: completed exactly for exit code 0; the error is the
      settlement's note when it has one, and otherwise the standard error text exactly when
      not completed; nothing but the status and the error changes. */
  function Closed(t: Task, s: Settlement, code: Option<int>, errorOutput: string): (c: Task)
    ensures c.(status := t.status, error := t.error) == t
    ensures c.status == Completed <==> code == Some(0)
    ensures c.status == Failed <==> code != Some(0)
    ensures c.error == if s.errorNote.Some? then s.errorNote else if code == Some(0) then None else Some(errorOutput)
  {
    var e := Ended(t, code, errorOutput);
    if s.errorNote.Some? then e.(error := s.errorNote) else e
  }

  /** Exit code 0 with no Markdown, or with white space only, never resolves: the client is
      told of a failure and the promise is rejected. As written, the status set at the start of
      the handler stays "completed" and only the error records the problem. */
  lemma BlankNeverResolves(t: Task, markdown: string, errorOutput: string, writeError: Option<string>)
    requires JsBlank(markdown)
    ensures var s := Settle(Some(0), markdown, errorOutput, writeError);
            s.outcome == Rejected(EmptyError) && s.notice == FailedNotice(EmptyNotice) &&
            Closed(t, s, Some(0), errorOutput).status == Completed &&
            Closed(t, s, Some(0), errorOutput).error == Some(EmptyError)
  {
  }

  /** A failure to save the Markdown is likewise reported while the status stays "completed". */
  lemma WriteErrorKeepsCompleted(t: Task, markdown: string, errorOutput: string, message: string)
    requires !JsBlank(markdown)
    ensures var s := Settle(Some(0), markdown, errorOutput, Some(message));
            s.outcome == Rejected(message) &&
            Closed(t, s, Some(0), errorOutput).status == Completed &&
            Closed(t, s, Some(0), errorOutput).error == Some(WritePrefix + message)
  {
  }

  /** Only a completed, resolved close leaves the task without an error. */
  lemma ResolvedMeansClean(t: Task, code: Option<int>, markdown: string, errorOutput: string,
                           writeError: Option<string>)
    ensures var s := Settle(code, markdown, errorOutput, writeError);
            var c := Closed(t, s, code, errorOutput);
            (c.error == None <==> s.outcome.Resolved?) &&
            (s.outcome.Resolved? ==> c.status == Completed)
  {
  }

  // ---------------------------------------------------------------------------
  // Cancel and disconnect
  // ---------------------------------------------------------------------------

  /** The cancel route's rule for one task: a task whose process has not been killed yet is
      killed and marked cancelled, whatever its status; a killed one is left alone. */
  function CancelTask(t: Task): (c: Task)
    ensures c.killed
    ensures t.killed ==> c == t
    ensures !t.killed ==> c.status == Cancelled
    ensures c.(status := t.status, killed := t.killed) == t
  {
    if t.killed then t else t.(killed := true, status := Cancelled)
  }

  /** The disconnect handler's rule for one task: only a running task of that socket is
      cancelled. It changes exactly the running, unkilled tasks of the socket, which become
      cancelled with their process killed. */
  function DisconnectTask(t: Task, socketId: string): (d: Task)
    ensures d != t <==> t.socketId == socketId && t.status == Running && !t.killed
    ensures d != t ==> d == t.(status := Cancelled, killed := true)
  {
    if t.socketId == socketId && t.status == Running then CancelTask(t) else t
  }

  /** Cancelling twice is cancelling once. */
  lemma CancelIdempotent(t: Task)
    ensures CancelTask(CancelTask(t)) == CancelTask(t)
  {
  }

  /** As written, a task that has already completed or failed is still marked cancelled when its
      process has not been killed. */
  lemma CancelAfterClose(t: Task, code: Option<int>, errorOutput: string)
    requires !t.killed
    ensures CancelTask(Ended(t, code, errorOutput)).status == Cancelled
  {
  }

  /** A cancelled task whose process then closes (with the `null` code of a signalled process)
      ends up "failed": the close handler overwrites the cancelled status. */
  lemma CancelOverwrittenByClose(t: Task, errorOutput: string)
    ensures Ended(CancelTask(t), None, errorOutput).status == Failed
    ensures Ended(CancelTask(t), None, errorOutput).error == Some(errorOutput)
  {
  }

  /** A second disconnect of the same socket changes nothing. */
  lemma DisconnectIdempotent(t: Task, socketId: string)
    ensures DisconnectTask(DisconnectTask(t, socketId), socketId) == DisconnectTask(t, socketId)
  {
  }

  /** `activeTasks`: tasks are added and updated in place, never removed. */
  class TaskTable {
    var tasks: map<string, Task>

    constructor ()
      ensures tasks == map[]
    {
      tasks := map[];
    }

    /** The new task is stored in `activeTasks` when a parse starts. */
    method Start(taskId: string, socketId: string)
      modifies this
      ensures tasks == old(tasks)[taskId := NewTask(socketId)]
    {
      tasks := tasks[taskId := NewTask(socketId)];
    }

    /** `DELETE /api/task/:taskId`: `found` is false for an unknown task (the 404 reply) and
        nothing changes; otherwise the task is cancelled, and the client is told so when its
        process had not been killed yet. */
    method Cancel(taskId: string) returns (found: bool, notice: Option<Notice>)
      modifies this
      ensures found <==> taskId in old(tasks)
      ensures tasks == if found then old(tasks)[taskId := CancelTask(old(tasks)[taskId])] else old(tasks)
      ensures notice.Some? <==> found && !old(tasks)[taskId].killed
      ensures notice.Some? ==> notice.value == FailedNotice(CancelMessage)
    {
      if taskId !in tasks {
        return false, None;
      }
      var t := tasks[taskId];
      found, notice := true, None;
      if !t.killed {
        tasks := tasks[taskId := t.(killed := true, status := Cancelled)];
        notice := Some(FailedNotice(CancelMessage));
      }
    }

    /** The socket `disconnect` handler: every entry is visited once and the disconnect rule is
        applied to it; no entry is added or removed. */
    method Disconnect(socketId: string)
      modifies this
      ensures tasks.Keys == old(tasks).Keys
      ensures forall id :: id in tasks ==> tasks[id] == DisconnectTask(old(tasks)[id], socketId)
    {
      var remaining := tasks.Keys;
      while remaining != {}
        invariant remaining <= tasks.Keys == old(tasks).Keys
        invariant forall id :: id in tasks ==>
                    tasks[id] == if id in remaining then old(tasks)[id] else DisconnectTask(old(tasks)[id], socketId)
        decreases remaining
      {
        var id :| id in remaining;
        var t := tasks[id];
        if t.socketId == socketId && t.status == Running {
          if !t.killed {
            tasks := tasks[id := t.(killed := true, status := Cancelled)];
          }
        }
        remaining := remaining - {id};
      }
    }
  }
}
