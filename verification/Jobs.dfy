/** One command at a time, with heartbeats reading its progress and cancelling it meanwhile. Every
    block under a mutex is one step. */
module Jobs {
  import opened PathNames
  import opened Outbox

  type Instant = int

  datatype Activity = AtRest | BackingUp | Restoring

  datatype Kind = Backup | Restore | Unknown

  datatype Command = Command(id: string, kind: Kind, backupId: string)

  /** What the goroutines share: the hook of the running job (by job number), the operator's request,
      the live progress, and the job contexts cancelled so far. */
  datatype Shared = Shared(
    jobCancel: Option<nat>, cancelAsked: bool,
    activity: Activity, startedAt: Option<Instant>, bytesDone: int, bytesTotal: int,
    cancelled: set<nat>)

  const FRESH := Shared(None, false, AtRest, None, 0, 0, {})

  // ---------------------------------------------------------------------------------------------
  // The blocks under a mutex.

  function JobStarted(v: Shared, job: nat): Shared {
    v.(jobCancel := Some(job), cancelAsked := false)
  }

  function JobEnded(v: Shared): Shared {
    if v.jobCancel.Some? then v.(cancelled := v.cancelled + {v.jobCancel.value}, jobCancel := None) else v
  }

  function Captured(v: Shared): Shared {
    if v.jobCancel.Some? then v.(cancelAsked := true) else v
  }

  function Fired(v: Shared, hook: Option<nat>): Shared {
    if hook.Some? then v.(cancelled := v.cancelled + {hook.value}) else v
  }

  function ActivitySet(v: Shared, a: Activity): Shared {
    v.(activity := a)
  }

  function ProgressBegun(v: Shared, total: int, now: Instant): Shared {
    v.(startedAt := Some(now), bytesDone := 0, bytesTotal := total)
  }

  function BytesAdded(v: Shared, n: int): Shared {
    v.(bytesDone := v.bytesDone + n)
  }

  function ActivityEnded(v: Shared): Shared {
    v.(activity := AtRest, startedAt := None, bytesDone := 0, bytesTotal := 0)
  }

  class Runner {
    var jobCancel: Option<nat>
    var cancelAsked: bool
    var activity: Activity
    var startedAt: Option<Instant>
    var bytesDone: int
    var bytesTotal: int
    var cancelled: set<nat>

    function View(): Shared
      reads this
    {
      Shared(jobCancel, cancelAsked, activity, startedAt, bytesDone, bytesTotal, cancelled)
    }

    constructor ()
      ensures View() == FRESH
    {
      jobCancel, cancelAsked, cancelled := None, false, {};
      activity, startedAt, bytesDone, bytesTotal := AtRest, None, 0, 0;
    }

    method StartJob(job: nat)
      modifies this
      ensures View() == JobStarted(old(View()), job)
    {
      jobCancel, cancelAsked := Some(job), false;
    }

    method EndJob()
      modifies this
      ensures View() == JobEnded(old(View()))
    {
      if jobCancel.Some? {
        cancelled := cancelled + {jobCancel.value};
      }
      jobCancel := None;
    }

    /** The part of a cancel request under the mutex: capture the hook and note the request. */
    method CaptureHook() returns (hook: Option<nat>)
      modifies this
      ensures View() == Captured(old(View())) && hook == old(jobCancel)
    {
      hook := jobCancel;
      if hook.Some? {
        cancelAsked := true;
      }
    }

    /** The part after it. */
    method Fire(hook: Option<nat>)
      modifies this
      ensures View() == Fired(old(View()), hook)
    {
      if hook.Some? {
        cancelled := cancelled + {hook.value};
      }
    }

    method RequestCancel()
      modifies this
      ensures View() == Fired(Captured(old(View())), old(jobCancel))
    {
      var hook := CaptureHook();
      Fire(hook);
    }

    method SetActivity(a: Activity)
      modifies this
      ensures View() == ActivitySet(old(View()), a)
    {
      activity := a;
    }

    method BeginProgress(total: int, now: Instant)
      modifies this
      ensures View() == ProgressBegun(old(View()), total, now)
    {
      startedAt, bytesDone, bytesTotal := Some(now), 0, total;
    }

    method AddBytes(n: int)
      modifies this
      ensures View() == BytesAdded(old(View()), n)
    {
      bytesDone := bytesDone + n;
    }

    /** A counted write or read: only a positive count is added. */
    method Count(n: int)
      modifies this
      ensures View() == if n > 0 then BytesAdded(old(View()), n) else old(View())
    {
      if n > 0 {
        AddBytes(n);
      }
    }

    method EndActivity()
      modifies this
      ensures View() == ActivityEnded(old(View()))
    {
      activity, startedAt, bytesDone, bytesTotal := AtRest, None, 0, 0;
    }
  }

  // ---------------------------------------------------------------------------------------------
  // Interleaving.

  datatype Phase =
    | Waiting
    | Begun(cmd: Command)
    | Active(cmd: Command)
    | Working(cmd: Command)
    | Finished(cmd: Command, res: Result)
    | Ended(cmd: Command, res: Result)
    | Reporting(cmd: Command, res: Result)
    | Handed(cmd: Command)

  /** The executing goroutine's phase, the hook the heartbeat goroutine has captured but not fired,
      the commands executed so far, and what was passed to report, in order. */
  datatype State = State(
    shared: Shared, phase: Phase, hook: Option<nat>, parentDone: bool,
    commands: seq<Command>, reports: seq<Report>)

  datatype Event =
    | StartJob(cmd: Command)
    | SetActivity
    | BeginProgress(total: int, now: Instant)
    | Count(n: int)
    | Finish(res: Result)
    | EndActivity
    | ReadCancelled
    | HandOver
    | EndJob
    | Capture
    | Fire
    | Shutdown

  const START := State(FRESH, Waiting, None, false, [], [])

  /** A restore without a backup id fails before any progress is begun. */
  predicate LacksId(cmd: Command) {
    cmd.kind.Restore? && cmd.backupId == ""
  }

  predicate Enabled(s: State, e: Event) {
    match e
    case StartJob(_) => s.phase.Waiting?
    case SetActivity => s.phase.Begun? && !s.phase.cmd.kind.Unknown?
    case BeginProgress(_, _) => s.phase.Active? && !LacksId(s.phase.cmd)
    case Count(_) => s.phase.Working?
    case Finish(res) =>
      && (s.phase.Working? || (s.phase.Active? && LacksId(s.phase.cmd)) ||
          (s.phase.Begun? && s.phase.cmd.kind.Unknown?))
      && !res.status.Cancelled? && (!s.phase.Working? ==> res.status.Failed?)
    case EndActivity => s.phase.Finished?
    case ReadCancelled => s.phase.Ended?
    case HandOver => s.phase.Reporting?
    case EndJob => s.phase.Handed?
    case Capture => s.hook.None?
    case Fire => s.hook.Some?
    case Shutdown => true
  }

  /** What a cancelled command reports: the backup id and nothing else of its result. */
  function CancelledResult(res: Result): Result {
    Result(Cancelled, res.backupId, 0, "", "")
  }

  function After(s: State, e: Event): State
    requires Enabled(s, e)
  {
    match e
    case StartJob(cmd) =>
      s.(shared := JobStarted(s.shared, |s.commands|), phase := Begun(cmd), commands := s.commands + [cmd])
    case SetActivity =>
      s.(shared := ActivitySet(s.shared, if s.phase.cmd.kind.Backup? then BackingUp else Restoring),
         phase := Active(s.phase.cmd))
    case BeginProgress(total, now) =>
      s.(shared := ProgressBegun(s.shared, total, now), phase := Working(s.phase.cmd))
    case Count(n) => if n > 0 then s.(shared := BytesAdded(s.shared, n)) else s
    case Finish(res) => s.(phase := Finished(s.phase.cmd, res))
    case EndActivity => s.(shared := ActivityEnded(s.shared), phase := Ended(s.phase.cmd, s.phase.res))
    case ReadCancelled =>
      s.(phase := Reporting(s.phase.cmd, if s.shared.cancelAsked then CancelledResult(s.phase.res) else s.phase.res))
    case HandOver => s.(reports := s.reports + [Report(s.phase.cmd.id, s.phase.res)], phase := Handed(s.phase.cmd))
    case EndJob => s.(shared := JobEnded(s.shared), phase := Waiting)
    case Capture => s.(shared := Captured(s.shared), hook := s.shared.jobCancel)
    case Fire => s.(shared := Fired(s.shared, s.hook), hook := None)
    case Shutdown => s.(parentDone := true)
  }

  ghost predicate Runs(s: State, run: seq<Event>)
    decreases run
  {
    run == [] || (Enabled(s, run[0]) && Runs(After(s, run[0]), run[1..]))
  }

  function From(s: State, run: seq<Event>): State
    requires Runs(s, run)
    decreases run
  {
    if run == [] then s else From(After(s, run[0]), run[1..])
  }

  /** A job's context is done if its hook was called or the process is shutting down. */
  predicate ContextDone(s: State, job: nat) {
    s.parentDone || job in s.shared.cancelled
  }

  // ---------------------------------------------------------------------------------------------
  // What every reachable state satisfies.

  ghost predicate OneReportEach(s: State) {
    && |s.reports| == |s.commands| - (if s.phase.Waiting? || s.phase.Handed? then 0 else 1)
    && (forall k | 0 <= k < |s.reports| :: s.reports[k].cmdId == s.commands[k].id)
    && (!s.phase.Waiting? ==> s.commands != [] && s.commands[|s.commands| - 1] == s.phase.cmd)
  }

  ghost predicate HooksKept(s: State) {
    && s.shared.jobCancel == (if s.phase.Waiting? then None else Some(|s.commands| - 1))
    && (s.hook.Some? ==> s.hook.value < |s.commands|)
    && (forall k | k in s.shared.cancelled :: k < |s.commands|)
    && (forall k: nat | k < |s.commands| :: s.shared.jobCancel == Some(k) || k in s.shared.cancelled)
    && (s.hook.Some? && s.hook == s.shared.jobCancel ==> s.shared.cancelAsked)
    && (s.shared.jobCancel.Some? ==>
          (s.shared.jobCancel.value in s.shared.cancelled || s.hook == s.shared.jobCancel <==> s.shared.cancelAsked))
  }

  /** The command at work shows; nothing shows before its activity is set and after it ended. */
  ghost predicate Shows(s: State, kind: Kind) {
    (s.phase.Active? || s.phase.Working? || s.phase.Finished?) && s.phase.cmd.kind == kind
  }

  ghost predicate ProgressKept(s: State) {
    && (s.shared.activity.BackingUp? <==> Shows(s, Backup))
    && (s.shared.activity.Restoring? <==> Shows(s, Restore))
    && (!(s.phase.Working? || s.phase.Finished?) || s.shared.activity.AtRest? ==>
          s.shared.bytesDone == 0 && s.shared.bytesTotal == 0 && s.shared.startedAt.None?)
    && s.shared.bytesDone >= 0
    && (s.phase.Active? || s.phase.Working? ==> !s.phase.cmd.kind.Unknown?)
  }

  /** The work itself never ends in a cancelled result; only the reading of the flag makes one. A
      command that cannot be worked on never ends well. */
  ghost predicate ResultKept(s: State) {
    && (s.phase.Finished? || s.phase.Ended? ==> !s.phase.res.status.Cancelled?)
    && (s.phase.Finished? || s.phase.Ended? || s.phase.Reporting? ==> NotFaked(s.phase.cmd, s.phase.res))
    && (s.phase.Working? ==> Workable(s.phase.cmd))
  }

  predicate Workable(cmd: Command) {
    !cmd.kind.Unknown? && !(cmd.kind.Restore? && cmd.backupId == "")
  }

  ghost predicate NotFaked(cmd: Command, res: Result) {
    res.status.Done? ==> Workable(cmd)
  }

  ghost predicate NothingFaked(s: State) {
    forall k | 0 <= k < |s.reports| && k < |s.commands| :: NotFaked(s.commands[k], s.reports[k].result)
  }

  ghost predicate Inv(s: State) {
    OneReportEach(s) && HooksKept(s) && ProgressKept(s) && ResultKept(s) && NothingFaked(s)
  }

  lemma {:induction false} StepReports(s: State, e: Event)
    requires Enabled(s, e) && Inv(s)
    ensures OneReportEach(After(s, e))
  {
  }

  lemma {:induction false} StepHooks(s: State, e: Event)
    requires Enabled(s, e) && Inv(s)
    ensures HooksKept(After(s, e))
  {
  }

  lemma {:induction false} StepProgress(s: State, e: Event)
    requires Enabled(s, e) && Inv(s)
    ensures ProgressKept(After(s, e))
  {
  }

  lemma {:induction false} StepResult(s: State, e: Event)
    requires Enabled(s, e) && Inv(s)
    ensures ResultKept(After(s, e)) && NothingFaked(After(s, e))
  {
  }

  lemma {:induction false} StepKeeps(s: State, e: Event)
    requires Enabled(s, e) && Inv(s)
    ensures Inv(After(s, e))
  {
    StepReports(s, e);
    StepHooks(s, e);
    StepProgress(s, e);
    StepResult(s, e);
  }

  lemma {:induction false} RunKeeps(s: State, run: seq<Event>)
    requires Runs(s, run) && Inv(s)
    ensures Inv(From(s, run))
    decreases run
  {
    if run != [] {
      StepKeeps(s, run[0]);
      RunKeeps(After(s, run[0]), run[1..]);
    }
  }

  /** Every executed command is handed to report exactly once, in order, under its own id; only the
      command being executed may still be missing. */
  lemma {:induction false} EachReportedOnce(run: seq<Event>)
    requires Runs(START, run)
    ensures var s := From(START, run);
            && |s.reports| == |s.commands| - (if s.phase.Waiting? || s.phase.Handed? then 0 else 1)
            && forall k | 0 <= k < |s.reports| :: s.reports[k].cmdId == s.commands[k].id
  {
    RunKeeps(START, run);
  }

  /** No command of an unknown kind, and no restore without a backup id, is ever reported as done. */
  lemma {:induction false} NeverFaked(run: seq<Event>, k: nat)
    requires Runs(START, run) && k < |From(START, run).reports|
    ensures k < |From(START, run).commands|
    ensures var cmd := From(START, run).commands[k];
            From(START, run).reports[k].result.status.Done? ==>
              !cmd.kind.Unknown? && !(cmd.kind.Restore? && cmd.backupId == "")
  {
    RunKeeps(START, run);
    assert NothingFaked(From(START, run));
  }

  /** A captured hook is kept until it is called. */
  lemma {:induction false} HookStays(s: State, run: seq<Event>)
    requires Runs(s, run) && s.hook.Some? && Fire !in run
    ensures From(s, run).hook == s.hook
    decreases run
  {
    if run != [] {
      assert run[0] in run;
      HookStays(After(s, run[0]), run[1..]);
    }
  }

  /** A cancel request between two jobs changes nothing. */
  lemma {:induction false} IdleRequest(run: seq<Event>)
    requires Runs(START, run) && From(START, run).phase.Waiting? && From(START, run).hook.None?
    ensures Enabled(From(START, run), Capture) && After(From(START, run), Capture) == From(START, run)
  {
    RunKeeps(START, run);
  }

  // ---------------------------------------------------------------------------------------------
  // Executing one command with the runner's own blocks.

  /** What the work of a command amounts to: the connector's result, or a failure before any work. */
  function Outcome(cmd: Command, work: Result): Result {
    if cmd.kind.Unknown? then Result(Failed, cmd.backupId, 0, "unknown command type", "")
    else if LacksId(cmd) then Result(Failed, "", 0, "restore requires a backup_id", "")
    else work
  }

  /** A command that cannot be worked on fails, with its own backup id; for any other the work's backup
      id is reported, and all of its result unless it was cancelled. */
  ghost predicate IsOutcomeOf(res: Result, cmd: Command, work: Result) {
    if cmd.kind.Unknown? || (cmd.kind.Restore? && cmd.backupId == "") then
      && res.backupId == cmd.backupId && res.bytes == 0 && res.cursor == ""
      && !res.status.Done?
      && (res.status.Failed? ==> res.error != "")
    else
      res.backupId == work.backupId && (res.status.Cancelled? || res == work)
  }

  lemma {:induction false} Took(s: State, run: seq<Event>, e: Event)
    requires Runs(s, run) && Enabled(From(s, run), e)
    ensures Runs(s, run + [e]) && From(s, run + [e]) == After(From(s, run), e)
    decreases run
  {
    if run == [] {
      assert [e][1..] == [] && [] + [e] == [e];
    } else {
      Took(After(s, run[0]), run[1..], e);
      assert (run + [e])[1..] == run[1..] + [e];
    }
  }

  /** Between two blocks of the executing goroutine a heartbeat may bring a cancel request. */
  method Interrupt(r: Runner, ghost s: State, ghost run: seq<Event>, asked: bool) returns (ghost more: seq<Event>)
    requires Runs(s, run) && From(s, run).shared == r.View() && From(s, run).hook.None?
    requires r.jobCancel.Some?
    modifies r
    ensures Runs(s, more) && From(s, more) == From(s, run).(shared := r.View())
    ensures r.View() == if asked then Fired(Captured(old(r.View())), old(r.jobCancel)) else old(r.View())
  {
    more := run;
    if asked {
      r.RequestCancel();
      Took(s, run, Capture);
      Took(s, run + [Capture], Fire);
      more := run + [Capture] + [Fire];
    }
  }

  /** Some of the first n interruptions was a cancel request. */
  ghost predicate AskedBefore(asks: nat -> bool, n: nat) {
    exists i | 0 <= i < n :: asks(i)
  }

  /** How often a command can be interrupted before its request flag is read. */
  function Interruptions(cmd: Command, counts: seq<int>): nat {
    if cmd.kind.Unknown? then 3 else if LacksId(cmd) then 4 else 5 + |counts|
  }

  /** The runner while it executes job number job, after n possible interruptions. */
  ghost predicate Running(r: Runner, job: nat, before: set<nat>, asks: nat -> bool, n: nat)
    reads r
  {
    && r.jobCancel == Some(job) && (r.cancelAsked <==> AskedBefore(asks, n))
    && r.cancelled == (if AskedBefore(asks, n) then before + {job} else before)
  }

  lemma {:induction false} AskedOnce(asks: nat -> bool, n: nat)
    ensures AskedBefore(asks, n + 1) <==> AskedBefore(asks, n) || asks(n)
  {
  }

  /** Start the job and set the activity; begin progress and pass the counted bytes on if there is
      work to do. A cancel request may come in after each of these steps. */
  method Work(r: Runner, ghost s: State, cmd: Command, job: nat, total: int, now: Instant, counts: seq<int>,
              work: Result, asks: nat -> bool)
    returns (res: Result, ghost run: seq<Event>)
    requires s.shared == r.View() && s.phase.Waiting? && s.hook.None? && job == |s.commands|
    requires !work.status.Cancelled?
    modifies r
    ensures res == Outcome(cmd, work) && Runs(s, run)
    ensures From(s, run) == s.(shared := r.View(), phase := Finished(cmd, res), commands := s.commands + [cmd])
    ensures Running(r, job, old(r.cancelled), asks, Interruptions(cmd, counts) - 2)
  {
    r.StartJob(job);
    Took(s, [], StartJob(cmd));
    run := Interrupt(r, s, [] + [StartJob(cmd)], asks(0));
    AskedOnce(asks, 0);
    assert Running(r, job, old(r.cancelled), asks, 1);
    if !cmd.kind.Unknown? {
      r.SetActivity(if cmd.kind.Backup? then BackingUp else Restoring);
      Took(s, run, SetActivity);
      run := Interrupt(r, s, run + [SetActivity], asks(1));
      AskedOnce(asks, 1);
      assert Running(r, job, old(r.cancelled), asks, 2);
      if !LacksId(cmd) {
        run := Transfer(r, s, run, cmd, job, total, now, counts, old(r.cancelled), asks);
      }
    }
    res := Outcome(cmd, work);
    Took(s, run, Finish(res));
    run := run + [Finish(res)];
  }

  /** Begin progress and pass the counted bytes on. */
  method Transfer(r: Runner, ghost s: State, ghost before: seq<Event>, cmd: Command, job: nat, total: int,
                  now: Instant, counts: seq<int>, ghost wasCancelled: set<nat>, asks: nat -> bool)
    returns (ghost run: seq<Event>)
    requires Runs(s, before) && From(s, before).phase == Active(cmd) && !LacksId(cmd)
    requires From(s, before).shared == r.View() && From(s, before).hook.None?
    requires Running(r, job, wasCancelled, asks, 2)
    modifies r
    ensures Runs(s, run) && From(s, run) == From(s, before).(shared := r.View(), phase := Working(cmd))
    ensures Running(r, job, wasCancelled, asks, 3 + |counts|)
  {
    r.BeginProgress(total, now);
    Took(s, before, BeginProgress(total, now));
    run := Interrupt(r, s, before + [BeginProgress(total, now)], asks(2));
    AskedOnce(asks, 2);
    for i := 0 to |counts|
      invariant Runs(s, run) && From(s, run) == From(s, before).(shared := r.View(), phase := Working(cmd))
      invariant Running(r, job, wasCancelled, asks, 3 + i)
    {
      r.Count(counts[i]);
      Took(s, run, Count(counts[i]));
      run := Interrupt(r, s, run + [Count(counts[i])], asks(3 + i));
      AskedOnce(asks, 3 + i);
    }
  }

  /** Read the request flag, hand the report over and end the job. */
  method Conclude(r: Runner, ghost s: State, ghost before: seq<Event>, cmd: Command, res: Result)
    returns (report: Report, ghost run: seq<Event>)
    requires Runs(s, before) && From(s, before).phase == Ended(cmd, res)
    requires From(s, before).shared == r.View() && r.jobCancel.Some?
    modifies r
    ensures Runs(s, run) && var t := From(s, before);
            From(s, run) == t.(shared := r.View(), phase := Waiting, reports := t.reports + [report])
    ensures report == Report(cmd.id, if old(r.cancelAsked) then CancelledResult(res) else res)
    ensures r.View() == JobEnded(old(r.View()))
  {
    report := Report(cmd.id, if r.cancelAsked then CancelledResult(res) else res);
    Took(s, before, ReadCancelled);
    run := before + [ReadCancelled];
    Took(s, run, HandOver);
    run := run + [HandOver];
    r.EndJob();
    Took(s, run, EndJob);
    run := run + [EndJob];
  }

  /** Execute a command from start to report. The steps are a run of the interleaving model; a cancel
      request between any two of them, up to the reading of the flag, decides what is reported. */
  method Execute(r: Runner, ghost s: State, cmd: Command, job: nat, total: int, now: Instant, counts: seq<int>,
                 work: Result, asks: nat -> bool)
    returns (report: Report, ghost run: seq<Event>)
    requires s.shared == r.View() && s.phase.Waiting? && s.hook.None? && job == |s.commands|
    requires !work.status.Cancelled?
    modifies r
    ensures var asked := AskedBefore(asks, Interruptions(cmd, counts));
            && report.cmdId == cmd.id && (report.result.status.Cancelled? <==> asked)
            && (asked ==> report.result.bytes == 0 && report.result.error == report.result.cursor == "")
            && r.View() == Shared(None, asked, AtRest, None, 0, 0, old(r.cancelled) + {job})
    ensures IsOutcomeOf(report.result, cmd, work)
    ensures Runs(s, run)
    ensures From(s, run) == s.(shared := r.View(), commands := s.commands + [cmd], reports := s.reports + [report])
  {
    var res;
    var n := Interruptions(cmd, counts);
    res, run := Work(r, s, cmd, job, total, now, counts, work, asks);
    run := Interrupt(r, s, run, asks(n - 2));
    AskedOnce(asks, n - 2);
    r.EndActivity();
    Took(s, run, EndActivity);
    run := Interrupt(r, s, run + [EndActivity], asks(n - 1));
    AskedOnce(asks, n - 1);
    report, run := Conclude(r, s, run, cmd, res);
  }

  // ---------------------------------------------------------------------------------------------
  // Who cancelled what.

  ghost predicate Requested(run: seq<Event>) {
    Capture in run
  }

  /** No other job begins in the run. */
  ghost predicate SameJob(run: seq<Event>) {
    forall i | 0 <= i < |run| :: !run[i].StartJob?
  }

  lemma {:induction false} StaysWaiting(s: State, run: seq<Event>)
    requires Runs(s, run) && s.phase.Waiting? && SameJob(run)
    ensures From(s, run).phase.Waiting?
    decreases run
  {
    if run != [] {
      assert !run[0].StartJob?;
      StaysWaiting(After(s, run[0]), run[1..]);
    }
  }

  lemma {:induction false} AskedIff(s: State, run: seq<Event>)
    requires Runs(s, run) && Inv(s) && SameJob(run) && !From(s, run).phase.Waiting?
    ensures From(s, run).shared.cancelAsked <==> s.shared.cancelAsked || Requested(run)
    ensures From(s, run).shared.jobCancel == s.shared.jobCancel
    decreases run
  {
    if run != [] {
      var e, t := run[0], After(s, run[0]);
      assert run == [e] + run[1..];
      StepKeeps(s, e);
      if t.phase.Waiting? {
        StaysWaiting(t, run[1..]);
      }
      AskedIff(t, run[1..]);
      assert Requested(run) <==> e.Capture? || Requested(run[1..]);
    }
  }

  /** The run of one job: it starts, anything but another start happens, its request flag is read. */
  lemma {:induction false} CancelledIffRequested(before: seq<Event>, cmd: Command, during: seq<Event>)
    requires Runs(START, before)
    requires Enabled(From(START, before), StartJob(cmd)) && SameJob(during)
    requires Runs(After(From(START, before), StartJob(cmd)), during)
    requires From(After(From(START, before), StartJob(cmd)), during).phase.Ended?
    ensures var s := From(After(From(START, before), StartJob(cmd)), during);
            var t := After(s, ReadCancelled);
            && t.phase.Reporting? && t.phase.cmd == s.phase.cmd
            && (t.phase.res.status.Cancelled? <==> Requested(during))
            && t.phase.res.backupId == s.phase.res.backupId
            && (Requested(during) ==> t.phase.res.bytes == 0 && t.phase.res.error == t.phase.res.cursor == "")
            && (!Requested(during) ==> t.phase.res == s.phase.res)
  {
    var s0 := From(START, before);
    RunKeeps(START, before);
    StepKeeps(s0, StartJob(cmd));
    AskedIff(After(s0, StartJob(cmd)), during);
    RunKeeps(After(s0, StartJob(cmd)), during);
  }

  /** Without a shutdown, the running job's context is done only if a cancel was requested during this
      very job: a hook captured for an earlier job never reaches a later one. Conversely a request is
      on its way or has arrived. */
  lemma {:induction false} OnlyOwnRequestAborts(before: seq<Event>, cmd: Command, during: seq<Event>)
    requires Runs(START, before)
    requires Enabled(From(START, before), StartJob(cmd)) && SameJob(during)
    requires Runs(After(From(START, before), StartJob(cmd)), during)
    ensures var s := From(After(From(START, before), StartJob(cmd)), during);
            var job := |From(START, before).commands|;
            && (!s.phase.Waiting? && !s.parentDone && ContextDone(s, job) ==> Requested(during))
            && (!s.phase.Waiting? && Requested(during) ==> ContextDone(s, job) || s.hook == Some(job))
  {
    var s0 := From(START, before);
    RunKeeps(START, before);
    var s1 := After(s0, StartJob(cmd));
    StepKeeps(s0, StartJob(cmd));
    RunKeeps(s1, during);
    if !From(s1, during).phase.Waiting? {
      AskedIff(s1, during);
    }
  }

  lemma {:induction false} ShutdownStays(s: State, run: seq<Event>)
    requires Runs(s, run)
    ensures From(s, run).parentDone <==> s.parentDone || Shutdown in run
    decreases run
  {
    if run != [] {
      assert run == [run[0]] + run[1..];
      ShutdownStays(After(s, run[0]), run[1..]);
    }
  }

  /** No context outlives its job, and none a shutdown, whoever is at work then. */
  lemma {:induction false} ContextsEnd(run: seq<Event>, job: nat)
    requires Runs(START, run)
    ensures var s := From(START, run);
            && (Shutdown in run ==> ContextDone(s, job))
            && (job < |s.commands| && (s.phase.Waiting? || job < |s.commands| - 1) ==> ContextDone(s, job))
  {
    RunKeeps(START, run);
    ShutdownStays(START, run);
  }

  lemma {:induction false} Cons(s: State, e: Event, rest: seq<Event>)
    requires Enabled(s, e) && Runs(After(s, e), rest)
    ensures Runs(s, [e] + rest) && From(s, [e] + rest) == From(After(s, e), rest)
  {
    assert ([e] + rest)[1..] == rest;
  }

  lemma {:induction false} SameJobCons(e: Event, rest: seq<Event>)
    requires !e.StartJob? && SameJob(rest)
    ensures SameJob([e] + rest)
  {
  }

  /** A request that comes in after the work and before the flag is read. */
  lemma {:induction false} CancelledLate(s: State, res: Result) returns (run: seq<Event>)
    requires s.phase.Finished? && s.phase.res == res && s.hook.None? && s.shared.jobCancel.Some?
    ensures Runs(s, run) && SameJob(run)
    ensures From(s, run).reports == s.reports + [Report(s.phase.cmd.id, Result(Cancelled, res.backupId, 0, "", ""))]
  {
    var s5 := After(s, EndActivity);
    var s6 := After(s5, Capture);
    var s7 := After(s6, ReadCancelled);
    Cons(s7, HandOver, []);
    run := [HandOver] + [];
    Cons(s6, ReadCancelled, run);
    run := [ReadCancelled] + run;
    Cons(s5, Capture, run);
    run := [Capture] + run;
    Cons(s, EndActivity, run);
    run := [EndActivity] + run;
  }

  /** A cancelled report does not say that nothing was stored: for every backup command and every
      result there is a run in which the backup finished with that result and the report is
      cancelled, because the request came in before the flag was read. */
  lemma {:induction false} CancelledAfterDone(cmd: Command, res: Result, total: int,
            now: Instant) returns (run: seq<Event>)
    requires cmd.kind.Backup? && res.status.Done?
    ensures Runs(START, run) && Finish(res) in run && run[0] == StartJob(cmd) && SameJob(run[1..])
    ensures From(START, run).reports == [Report(cmd.id, Result(Cancelled, res.backupId, 0, "", ""))]
  {
    var s1 := After(START, StartJob(cmd));
    var s2 := After(s1, SetActivity);
    var s3 := After(s2, BeginProgress(total, now));
    var late := CancelledLate(After(s3, Finish(res)), res);
    Cons(s3, Finish(res), late);
    SameJobCons(Finish(res), late);
    var r3 := [Finish(res)] + late;
    Cons(s2, BeginProgress(total, now), r3);
    SameJobCons(BeginProgress(total, now), r3);
    var r2 := [BeginProgress(total, now)] + r3;
    Cons(s1, SetActivity, r2);
    SameJobCons(SetActivity, r2);
    var r1 := [SetActivity] + r2;
    Cons(START, StartJob(cmd), r1);
    run := [StartJob(cmd)] + r1;
    assert run[1..] == r1 && run[3] == Finish(res);
  }

  ghost predicate NobodyCancelled(s: State) {
    && !s.shared.cancelAsked
    && (s.phase.Finished? || s.phase.Ended? || s.phase.Reporting? ==> !s.phase.res.status.Cancelled?)
    && forall k | 0 <= k < |s.reports| :: !s.reports[k].result.status.Cancelled?
  }

  lemma {:induction false} UncancelledStays(s: State, run: seq<Event>)
    requires Runs(s, run) && NobodyCancelled(s) && !Requested(run)
    ensures NobodyCancelled(From(s, run))
    decreases run
  {
    if run != [] {
      assert run == [run[0]] + run[1..];
      assert run[0] != Capture;
      UncancelledStays(After(s, run[0]), run[1..]);
    }
  }

  /** Shutting the process down never yields a cancelled report by itself. */
  lemma {:induction false} ShutdownIsNotCancellation(run: seq<Event>, k: nat)
    requires Runs(START, run) && !Requested(run) && k < |From(START, run).reports|
    ensures !From(START, run).reports[k].result.status.Cancelled?
  {
    UncancelledStays(START, run);
  }

  // ---------------------------------------------------------------------------------------------
  // Progress.

  /** The bytes the counters passed on in a run. */
  function Counted(run: seq<Event>): int {
    if run == [] then 0
    else (if run[0].Count? && run[0].n > 0 then run[0].n else 0) + Counted(run[1..])
  }

  lemma {:induction false} CountedGrows(s: State, run: seq<Event>)
    requires Runs(s, run) && s.phase.Working? && From(s, run).phase.Working? && SameJob(run)
    ensures From(s, run).shared.bytesDone == s.shared.bytesDone + Counted(run) && Counted(run) >= 0
    decreases run
  {
    if run != [] {
      var t := After(s, run[0]);
      if !t.phase.Working? {
        NeverWorksAgain(t, run[1..]);
      }
      CountedGrows(t, run[1..]);
    }
  }

  lemma {:induction false} NeverWorksAgain(s: State, run: seq<Event>)
    requires Runs(s, run) && SameJob(run) && !s.phase.Begun? && !s.phase.Active? && !s.phase.Working?
    ensures !From(s, run).phase.Working?
    decreases run
  {
    if run != [] {
      assert !run[0].StartJob?;
      NeverWorksAgain(After(s, run[0]), run[1..]);
    }
  }

  /** While a job works, the progress a heartbeat sees is exactly what its counters have passed on
      since progress began, over all streams of the job, and it never goes down. */
  lemma {:induction false} ProgressIsExact(before: seq<Event>, total: int, now: Instant, during: seq<Event>,
            more: seq<Event>)
    requires Runs(START, before) && Enabled(From(START, before), BeginProgress(total, now))
    requires var s := After(From(START, before), BeginProgress(total, now));
             && SameJob(during) && Runs(s, during) && From(s, during).phase.Working?
             && SameJob(more) && Runs(From(s, during), more) && From(From(s, during), more).phase.Working?
    ensures var s := From(After(From(START, before), BeginProgress(total, now)), during);
            && s.shared.bytesDone == Counted(during) && s.shared.startedAt == Some(now) && s.shared.bytesTotal == total
            && From(s, more).shared.bytesDone >= s.shared.bytesDone
  {
    var s := After(From(START, before), BeginProgress(total, now));
    CountedGrows(s, during);
    CountedGrows(From(s, during), more);
    FramedWhileWorking(s, during);
  }

  lemma {:induction false} FramedWhileWorking(s: State, run: seq<Event>)
    requires Runs(s, run) && s.phase.Working? && From(s, run).phase.Working? && SameJob(run)
    ensures var t := From(s, run);
            t.shared.startedAt == s.shared.startedAt && t.shared.bytesTotal == s.shared.bytesTotal
    decreases run
  {
    if run != [] {
      var t := After(s, run[0]);
      if !t.phase.Working? {
        NeverWorksAgain(t, run[1..]);
      }
      FramedWhileWorking(t, run[1..]);
    }
  }

  /** What a heartbeat shows: a backup or a restore exactly while a command of that kind is at work. */
  lemma {:induction false} ActivityShown(run: seq<Event>)
    requires Runs(START, run)
    ensures var s := From(START, run);
            var atWork := s.phase.Active? || s.phase.Working? || s.phase.Finished?;
            && (s.shared.activity.BackingUp? <==> atWork && s.phase.cmd.kind.Backup?)
            && (s.shared.activity.Restoring? <==> atWork && s.phase.cmd.kind.Restore?)
  {
    RunKeeps(START, run);
  }

  /** A heartbeat that says idle never carries progress, and outside a job there is none to carry. */
  lemma {:induction false} IdleHasNoProgress(run: seq<Event>)
    requires Runs(START, run)
    ensures var v := From(START, run).shared;
            && (v.activity.AtRest? || From(START, run).phase.Waiting? ==>
                  v.bytesDone == 0 && v.bytesTotal == 0 && v.startedAt.None?)
            && (From(START, run).phase.Waiting? ==> v.activity.AtRest?)
  {
    RunKeeps(START, run);
  }
}
