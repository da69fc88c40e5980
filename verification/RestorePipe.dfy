/** Restoring through the data plane: the child process writes to an OS pipe, a copying goroutine
    moves its bytes into an in-memory rendezvous pipe, the consumer reads them, and a waiting
    goroutine closes that pipe with the child's verdict. Each event is one step of one of them. */
module RestorePipe {
  import opened FileTree
  import opened Restore
  import opened Chain

  /** The child: the bytes it has not written yet, and how it ended. An exit counts as clean only
      if its status is zero and the context did not interrupt it. */
  datatype Status = Running | Exited(ok: bool)

  /** The copying goroutine: reading the OS pipe, or offering the unread rest of one chunk. */
  datatype Copier = Reading | Offering(chunk: Bytes) | Ended(ok: bool)

  /** The write end of the rendezvous pipe, closed with nil or with an error. */
  datatype Verdict = Open | Closed(ok: bool)

  /** The consumer: still reading, told that the stream is over (cleanly or not), or returned. */
  datatype Consumer = Consuming | Told(ok: bool) | Returned(ok: bool)

  datatype Outcome = Pending | Success | WaitError | ConsumeError

  datatype State = State(
    plan: Bytes, child: Status, emitted: Bytes, osbuf: Bytes, copier: Copier, got: Bytes,
    verdict: Verdict, sent: bool, consumer: Consumer, closed: bool, outcome: Outcome)

  datatype Event =
    | Emit(n: nat)
    | Exit(ok: bool)
    | CopyRead(n: nat)
    | CopyEnd
    | CopyWritten
    | CopyBroken
    | ReadSome(n: nat)
    | ReadEnd
    | Return(ok: bool)
    | CloseReader
    | WaitDone
    | SendVerdict
    | Collect

  function Start(plan: Bytes): State {
    State(plan, Running, [], [], Reading, [], Open, false, Consuming, false, Pending)
  }

  /** What each step waits for; capacity is that of the OS pipe. */
  predicate Enabled(capacity: nat, s: State, e: Event) {
    match e
    case Emit(n) => s.child.Running? && !s.copier.Ended? && 1 <= n <= |s.plan| && |s.osbuf| + n <= capacity
    case Exit(_) => s.child.Running?
    case CopyRead(n) => s.copier.Reading? && 1 <= n <= |s.osbuf|
    case CopyEnd => s.copier.Reading? && s.osbuf == [] && s.child.Exited?
    case CopyWritten => s.copier == Offering([])
    case CopyBroken => s.copier.Offering? && s.copier.chunk != [] && s.closed
    case ReadSome(n) => s.consumer.Consuming? && s.copier.Offering? && 1 <= n <= |s.copier.chunk|
    case ReadEnd => s.consumer.Consuming? && s.verdict.Closed?
    case Return(_) => !s.consumer.Returned?
    case CloseReader => s.consumer == Returned(false) && !s.closed
    case WaitDone => s.child.Exited? && s.copier.Ended? && s.verdict.Open?
    case SendVerdict => s.verdict.Closed? && !s.sent
    case Collect =>
      s.sent && s.verdict.Closed? && s.consumer.Returned? && (s.consumer.ok || s.closed) && s.outcome.Pending?
  }

  function After(capacity: nat, s: State, e: Event): State
    requires Enabled(capacity, s, e)
  {
    match e
    case Emit(n) => s.(plan := s.plan[n..], emitted := s.emitted + s.plan[..n], osbuf := s.osbuf + s.plan[..n])
    case Exit(ok) => s.(child := Exited(ok))
    case CopyRead(n) => s.(osbuf := s.osbuf[n..], copier := Offering(s.osbuf[..n]))
    case CopyEnd => s.(copier := Ended(true))
    case CopyWritten => s.(copier := Reading)
    case CopyBroken => s.(copier := Ended(false))
    case ReadSome(n) => s.(got := s.got + s.copier.chunk[..n], copier := Offering(s.copier.chunk[n..]))
    case ReadEnd => s.(consumer := Told(s.verdict.ok))
    case Return(ok) => s.(consumer := Returned(ok))
    case CloseReader => s.(closed := true)
    case WaitDone => s.(verdict := Closed(s.child.ok && s.copier.ok))
    case SendVerdict => s.(sent := true)
    case Collect =>
      s.(outcome := if !s.verdict.ok then WaitError else if !s.consumer.ok then ConsumeError else Success)
  }

  /** All events of the run happen, one after the other. */
  ghost predicate Runs(capacity: nat, s: State, run: seq<Event>)
    decreases run
  {
    run == [] || (Enabled(capacity, s, run[0]) && Runs(capacity, After(capacity, s, run[0]), run[1..]))
  }

  function From(capacity: nat, s: State, run: seq<Event>): State
    requires Runs(capacity, s, run)
    decreases run
  {
    if run == [] then s else From(capacity, After(capacity, s, run[0]), run[1..])
  }

  // ---------------------------------------------------------------------------------------------
  // What every reachable state satisfies.

  function Held(c: Copier): Bytes {
    if c.Offering? then c.chunk else []
  }

  /** Nothing the child wrote is lost or reordered before the consumer gives up. */
  ghost predicate InOrder(whole: Bytes, s: State) {
    && s.emitted + s.plan == whole
    && (s.copier != Ended(false) ==> s.got + Held(s.copier) + s.osbuf == s.emitted)
    && (s.copier == Ended(true) ==> s.child.Exited? && s.osbuf == [])
  }

  ghost predicate Settled(s: State) {
    && (s.closed ==> s.consumer == Returned(false))
    && (s.copier == Ended(false) ==> s.closed)
    && (s.verdict.Closed? ==> s.child.Exited? && s.copier.Ended? && s.verdict.ok == (s.child.ok && s.copier.ok))
    && (s.consumer.Told? ==> s.verdict == Closed(s.consumer.ok))
    && (s.sent ==> s.verdict.Closed?)
  }

  ghost predicate Judged(s: State) {
    !s.outcome.Pending? ==>
      && s.sent && s.verdict.Closed? && s.consumer.Returned? && (s.consumer.ok || s.closed)
      && s.outcome == if !s.verdict.ok then WaitError else if !s.consumer.ok then ConsumeError else Success
  }

  ghost predicate Inv(whole: Bytes, s: State) {
    InOrder(whole, s) && Settled(s) && Judged(s)
  }

  lemma {:induction false} StepInOrder(capacity: nat, whole: Bytes, s: State, e: Event)
    requires Enabled(capacity, s, e) && Inv(whole, s)
    ensures InOrder(whole, After(capacity, s, e))
  {
    match e
    case Emit(n) => assert s.plan == s.plan[..n] + s.plan[n..];
    case CopyRead(n) => assert s.osbuf == s.osbuf[..n] + s.osbuf[n..];
    case ReadSome(n) => assert s.copier.chunk == s.copier.chunk[..n] + s.copier.chunk[n..];
    case _ =>
  }

  lemma {:induction false} StepSettled(capacity: nat, whole: Bytes, s: State, e: Event)
    requires Enabled(capacity, s, e) && Inv(whole, s)
    ensures Settled(After(capacity, s, e)) && Judged(After(capacity, s, e))
  {
  }

  lemma {:induction false} RunKeeps(capacity: nat, whole: Bytes, s: State, run: seq<Event>)
    requires Runs(capacity, s, run) && Inv(whole, s)
    ensures Inv(whole, From(capacity, s, run))
    decreases run
  {
    if run != [] {
      StepInOrder(capacity, whole, s, run[0]);
      StepSettled(capacity, whole, s, run[0]);
      RunKeeps(capacity, whole, After(capacity, s, run[0]), run[1..]);
    }
  }

  /** The copy ends cleanly only when the child is gone and nothing is left in the pipe, and with an error
      only in a write that the closed reader refuses. */
  lemma {:induction false} CopyEnds(capacity: nat, s: State, e: Event)
    requires Enabled(capacity, s, e) && !s.copier.Ended? && After(capacity, s, e).copier.Ended?
    ensures if After(capacity, s, e).copier.ok then s.copier.Reading? && s.child.Exited? && s.osbuf == []
            else s.copier.Offering? && s.copier.chunk != [] && s.closed
  {
  }

  /** After the copy has ended, nothing the child writes arrives anywhere. */
  lemma {:induction false} NothingAfterCopy(capacity: nat, s: State, run: seq<Event>)
    requires Runs(capacity, s, run) && s.copier.Ended?
    ensures var t := From(capacity, s, run);
            t.copier == s.copier && t.emitted == s.emitted && t.osbuf == s.osbuf && t.got == s.got
    decreases run
  {
    if run != [] {
      NothingAfterCopy(capacity, After(capacity, s, run[0]), run[1..]);
    }
  }

  // ---------------------------------------------------------------------------------------------
  // Completeness.

  /** Restore returns nil exactly if the child exited cleanly, the copy ended cleanly and the
      consumer returned nil; then the consumer was handed the child's whole output in order. */
  lemma {:induction false} NilMeansComplete(capacity: nat, whole: Bytes, run: seq<Event>)
    requires Runs(capacity, Start(whole), run) && !From(capacity, Start(whole), run).outcome.Pending?
    ensures var s := From(capacity, Start(whole), run);
            && s.child.Exited? && s.copier.Ended? && s.consumer.Returned?
            && (s.outcome.Success? <==> s.child.ok && s.copier.ok && s.consumer.ok)
            && (s.outcome.WaitError? <==> !(s.child.ok && s.copier.ok))
            && (s.copier.ok ==> s.got == s.emitted && s.emitted + s.plan == whole)
  {
    RunKeeps(capacity, whole, Start(whole), run);
  }

  /** The consumer is told of a clean end only after a clean exit and having been handed everything;
      after a failing exit it is told of an error. */
  lemma {:induction false} CleanEndIsComplete(capacity: nat, whole: Bytes, run: seq<Event>)
    requires Runs(capacity, Start(whole), run) && From(capacity, Start(whole), run).consumer.Told?
    ensures var s := From(capacity, Start(whole), run);
            && s.child.Exited? && s.got == s.emitted
            && (s.consumer.ok <==> s.child.ok)
  {
    RunKeeps(capacity, whole, Start(whole), run);
  }

  // ---------------------------------------------------------------------------------------------
  // Progress. A move is owed if its actor cannot but make it: the child writes while there is room,
  // exits at the end of its output or on a broken pipe, and the consumer returns once told of the
  // end. Leaving early, failing and giving up are possible but not owed.

  predicate Owed(capacity: nat, s: State, e: Event) {
    && Enabled(capacity, s, e)
    && (e.Exit? ==> s.plan == [] || s.copier.Ended?)
    && (e.Return? ==> s.consumer.Told?)
  }

  function Weight(s: State): nat {
    5 * |s.plan| + 4 * |s.osbuf|
    + (match s.copier case Reading => 1 case Offering(chunk) => 2 + 2 * |chunk| case Ended(_) => 0)
    + (if s.child.Running? then 1 else 0)
    + (match s.consumer case Consuming => 2 case Told(_) => 1 case Returned(_) => 0)
    + (if s.closed then 0 else 1) + (if s.verdict.Open? then 1 else 0)
    + (if s.sent then 0 else 1) + (if s.outcome.Pending? then 1 else 0)
  }

  predicate MovesBytes(e: Event) {
    e.Emit? || e.CopyRead? || e.ReadSome?
  }

  lemma {:induction false} MovesDecrease(capacity: nat, s: State, e: Event)
    requires Enabled(capacity, s, e) && MovesBytes(e)
    ensures Weight(After(capacity, s, e)) < Weight(s)
  {
  }

  lemma {:induction false} OthersDecrease(capacity: nat, s: State, e: Event)
    requires Enabled(capacity, s, e) && !MovesBytes(e)
    ensures Weight(After(capacity, s, e)) < Weight(s)
  {
  }

  lemma {:induction false} StepsDecrease(capacity: nat, s: State, e: Event)
    requires Enabled(capacity, s, e)
    ensures Weight(After(capacity, s, e)) < Weight(s)
  {
    if MovesBytes(e) {
      MovesDecrease(capacity, s, e);
    } else {
      OthersDecrease(capacity, s, e);
    }
  }

  /** No run is longer than the weight it starts with, whatever the child and the consumer do. */
  lemma {:induction false} RunsAreFinite(capacity: nat, s: State, run: seq<Event>)
    requires Runs(capacity, s, run)
    ensures |run| + Weight(From(capacity, s, run)) <= Weight(s)
    decreases run
  {
    if run != [] {
      StepsDecrease(capacity, s, run[0]);
      RunsAreFinite(capacity, After(capacity, s, run[0]), run[1..]);
    }
  }

  ghost predicate Stuck(capacity: nat, s: State) {
    forall e: Event :: !Owed(capacity, s, e)
  }

  /** The consumer returned nil while the copier still offers bytes, and the child can do no more. */
  ghost predicate Abandoned(capacity: nat, s: State) {
    && s.consumer == Returned(true) && s.copier.Offering? && s.copier.chunk != []
    && (s.child.Exited? || (s.plan != [] && |s.osbuf| >= capacity))
  }

  /** The only way to be stuck before Restore returns is a consumer that returned nil too early. */
  lemma {:induction false} StuckIffAbandoned(capacity: nat, whole: Bytes, run: seq<Event>)
    requires capacity > 0 && Runs(capacity, Start(whole), run)
    requires From(capacity, Start(whole), run).outcome.Pending?
    ensures var s := From(capacity, Start(whole), run); Stuck(capacity, s) <==> Abandoned(capacity, s)
  {
    RunKeeps(capacity, whole, Start(whole), run);
    var s := From(capacity, Start(whole), run);
    if !Abandoned(capacity, s) {
      var e := NextOwed(capacity, whole, s);
    }
  }

  lemma {:induction false} NextOwed(capacity: nat, whole: Bytes, s: State) returns (e: Event)
    requires capacity > 0 && Inv(whole, s) && s.outcome.Pending? && !Abandoned(capacity, s)
    ensures Owed(capacity, s, e)
  {
    if s.child.Running? && s.plan == [] {
      e := Exit(true);
    } else if s.child.Running? && s.copier.Ended? {
      e := Exit(false);
    } else if s.child.Running? && |s.osbuf| < capacity {
      e := Emit(1);
    } else if s.copier == Offering([]) {
      e := CopyWritten;
    } else if s.copier.Reading? {
      e := if s.osbuf != [] then CopyRead(1) else CopyEnd;
    } else if s.consumer == Returned(false) && !s.closed {
      e := CloseReader;
    } else if s.copier.Offering? {
      e := if s.closed then CopyBroken else ReadSome(1);
    } else if s.verdict.Open? {
      e := WaitDone;
    } else if !s.sent {
      e := SendVerdict;
    } else {
      e := match s.consumer case Consuming => ReadEnd case Told(_) => Return(true) case Returned(_) => Collect;
    }
  }

  lemma {:induction false} Prefixed(capacity: nat, s: State, e: Event, rest: seq<Event>)
    requires Enabled(capacity, s, e) && Runs(capacity, After(capacity, s, e), rest)
    ensures Runs(capacity, s, [e] + rest)
    ensures From(capacity, s, [e] + rest) == From(capacity, After(capacity, s, e), rest)
  {
    assert ([e] + rest)[1..] == rest;
  }

  /** And it happens, for every output that is not empty: the consumer returns nil with one byte
      offered and not read. */
  lemma {:induction false} AbandonExists(capacity: nat, whole: Bytes)
    requires capacity > 0 && whole != []
    ensures var run := [Emit(1)] + ([CopyRead(1)] + ([Return(true)] + ([Exit(true)] + [])));
            && Runs(capacity, Start(whole), run)
            && Abandoned(capacity, From(capacity, Start(whole), run))
            && From(capacity, Start(whole), run).outcome.Pending?
  {
    var s1 := After(capacity, Start(whole), Emit(1));
    var s2 := After(capacity, s1, CopyRead(1));
    var s3 := After(capacity, s2, Return(true));
    Prefixed(capacity, s3, Exit(true), []);
    Prefixed(capacity, s2, Return(true), [Exit(true)] + []);
    Prefixed(capacity, s1, CopyRead(1), [Return(true)] + ([Exit(true)] + []));
    Prefixed(capacity, Start(whole), Emit(1), [CopyRead(1)] + ([Return(true)] + ([Exit(true)] + [])));
  }

  /** The consumer returns nil only after being told that the stream is over. */
  ghost predicate ReadsToEnd(capacity: nat, s: State, run: seq<Event>)
    requires Runs(capacity, s, run)
    decreases run
  {
    run == [] || (
      && (run[0] == Return(true) ==> s.consumer.Told?)
      && ReadsToEnd(capacity, After(capacity, s, run[0]), run[1..]))
  }

  lemma {:induction false} NeverAbandons(capacity: nat, whole: Bytes, s: State, run: seq<Event>)
    requires Runs(capacity, s, run) && ReadsToEnd(capacity, s, run) && Inv(whole, s)
    requires s.consumer == Returned(true) ==> s.verdict.Closed?
    ensures var t := From(capacity, s, run); t.consumer == Returned(true) ==> t.verdict.Closed?
    decreases run
  {
    if run != [] {
      StepInOrder(capacity, whole, s, run[0]);
      StepSettled(capacity, whole, s, run[0]);
      NeverAbandons(capacity, whole, After(capacity, s, run[0]), run[1..]);
    }
  }

  /** With a consumer that reads to the end or returns an error, every run that has not finished
      can go on, and by RunsAreFinite it finishes. */
  lemma {:induction false} DisciplinedFinishes(capacity: nat, whole: Bytes, run: seq<Event>)
    requires capacity > 0 && Runs(capacity, Start(whole), run) && ReadsToEnd(capacity, Start(whole), run)
    ensures var s := From(capacity, Start(whole), run); Stuck(capacity, s) ==> !s.outcome.Pending?
  {
    RunKeeps(capacity, whole, Start(whole), run);
    NeverAbandons(capacity, whole, Start(whole), run);
    var s := From(capacity, Start(whole), run);
    if s.outcome.Pending? {
      var e := NextOwed(capacity, whole, s);
    }
  }

  /** Once the consumer has returned nil with bytes in the pipes, nothing that happens later, not
      even killing the child, lets Restore return. */
  lemma {:induction false} HangsForever(capacity: nat, whole: Bytes, s: State, run: seq<Event>)
    requires Runs(capacity, s, run) && Inv(whole, s)
    requires s.consumer == Returned(true) && Held(s.copier) + s.osbuf != []
    ensures var t := From(capacity, s, run); t.outcome.Pending? && t.consumer == Returned(true)
    decreases run
  {
    if run != [] {
      StepInOrder(capacity, whole, s, run[0]);
      StepSettled(capacity, whole, s, run[0]);
      HangsForever(capacity, whole, After(capacity, s, run[0]), run[1..]);
    }
  }

  // ---------------------------------------------------------------------------------------------
  // A consumer that returns nil without having read to the end, exactly.

  /** Only moves that are owed: the child writes all it has before it exits. */
  ghost predicate OwedRun(capacity: nat, s: State, run: seq<Event>)
    requires Runs(capacity, s, run)
    decreases run
  {
    run == [] || (Owed(capacity, s, run[0]) && OwedRun(capacity, After(capacity, s, run[0]), run[1..]))
  }

  /** Some of the child's output has not reached the consumer. */
  predicate Unread(s: State) {
    Held(s.copier) + s.osbuf != [] || (s.child.Running? && s.plan != [])
  }

  lemma {:induction false} UnreadStays(capacity: nat, whole: Bytes, s: State, run: seq<Event>)
    requires Runs(capacity, s, run) && OwedRun(capacity, s, run) && Inv(whole, s) && s.consumer == Returned(true)
    ensures var t := From(capacity, s, run); t.consumer == Returned(true) && (Unread(t) <==> Unread(s))
    decreases run
  {
    if run != [] {
      var t := After(capacity, s, run[0]);
      StepInOrder(capacity, whole, s, run[0]);
      StepSettled(capacity, whole, s, run[0]);
      assert Unread(t) <==> Unread(s);
      UnreadStays(capacity, whole, t, run[1..]);
    }
  }

  /** Every state has such a rest of a run: owed moves only, until none is left. */
  lemma {:induction false} OwedRunExists(capacity: nat, s: State) returns (run: seq<Event>)
    ensures Runs(capacity, s, run) && OwedRun(capacity, s, run) && Stuck(capacity, From(capacity, s, run))
    decreases Weight(s)
  {
    run := [];
    if e :| Owed(capacity, s, e) {
      StepsDecrease(capacity, s, e);
      run := OwedRunExists(capacity, After(capacity, s, e));
      Prefixed(capacity, s, e, run);
      run := [e] + run;
    }
  }

  lemma {:induction false} OwedReadsToEnd(capacity: nat, s: State, run: seq<Event>)
    requires Runs(capacity, s, run) && OwedRun(capacity, s, run)
    ensures ReadsToEnd(capacity, s, run)
    decreases run
  {
    if run != [] {
      OwedReadsToEnd(capacity, After(capacity, s, run[0]), run[1..]);
    }
  }

  /** One element's transfer: the child's output, the steps taken, and the capacity of its OS pipe. */
  datatype Transfer = Transfer(capacity: nat, whole: Bytes, run: seq<Event>)

  ghost predicate Completed(t: Transfer) {
    && Runs(t.capacity, Start(t.whole), t.run)
    && !From(t.capacity, Start(t.whole), t.run).outcome.Pending?
  }

  ghost predicate ReadAndDone(t: Transfer) {
    Completed(t) && ReadsToEnd(t.capacity, Start(t.whole), t.run)
  }

  /** For every output there is a completed transfer whose consumer reads to the end. */
  lemma {:induction false} TransferExists(capacity: nat, whole: Bytes)
    requires capacity > 0
    ensures exists run :: ReadAndDone(Transfer(capacity, whole, run))
  {
    var run := OwedRunExists(capacity, Start(whole));
    OwedReadsToEnd(capacity, Start(whole), run);
    DisciplinedFinishes(capacity, whole, run);
    assert ReadAndDone(Transfer(capacity, whole, run));
  }

  /** When the consumer has returned nil, the rest of the run ends with Restore returning if and
      only if the consumer had read everything the child writes. */
  lemma {:induction false} ReturnsIffAllRead(capacity: nat, whole: Bytes, s: State, run: seq<Event>)
    requires capacity > 0 && Inv(whole, s) && s.consumer == Returned(true)
    requires Runs(capacity, s, run) && OwedRun(capacity, s, run) && Stuck(capacity, From(capacity, s, run))
    ensures !From(capacity, s, run).outcome.Pending? <==> !Unread(s)
  {
    RunKeeps(capacity, whole, s, run);
    UnreadStays(capacity, whole, s, run);
    var t := From(capacity, s, run);
    if t.outcome.Pending? && !Abandoned(capacity, t) {
      var e := NextOwed(capacity, whole, t);
    }
  }

  // ---------------------------------------------------------------------------------------------
  // A chain.

  ghost function End(t: Transfer): State
    requires Completed(t)
  {
    From(t.capacity, Start(t.whole), t.run)
  }

  lemma {:induction false} DoneMeansEveryElement(tree: Tree, db: Db, ds: seq<Delivery>, k: nat)
    requires RestoredChain(tree, db, ds).ok && k < |ds|
    ensures ds[k].planeOk && ds[k].eof
  {
    if k < |ds| - 1 {
      DoneMeansEveryElement(tree, db, ds[..|ds| - 1], k);
    }
  }

  /** The stream a sequence of bytes is read as; the archive format itself is left to `parse`. */
  ghost predicate ReadFrom(parse: Bytes -> Stream, d: Delivery, t: Transfer)
    requires Completed(t)
  {
    && d.entries == Entries(parse(End(t).got).members) && d.eof == parse(End(t).got).eof
    && (d.planeOk <==> End(t).outcome.Success?)
  }

  /** A chain restore that is reported done streamed every element completely and in order: what the
      connector applied is what the child's whole output reads as. */
  lemma {:induction false} DoneChainIsComplete(tree: Tree, db: Db, ds: seq<Delivery>, ts: seq<Transfer>,
                                               parse: Bytes -> Stream, k: nat)
    requires |ts| == |ds| && k < |ds| && forall j | 0 <= j < |ts| :: Completed(ts[j])
    requires forall j | 0 <= j < |ts| :: ReadFrom(parse, ds[j], ts[j])
    requires RestoredChain(tree, db, ds).ok
    ensures var s := End(ts[k]);
            && s.child == Exited(true) && s.consumer == Returned(true)
            && s.got == s.emitted && s.emitted + s.plan == ts[k].whole
            && ds[k].entries == Entries(parse(s.emitted).members) && parse(s.emitted).eof
            && (s.plan == [] ==> ds[k].entries == Entries(parse(ts[k].whole).members))
  {
    DoneMeansEveryElement(tree, db, ds, k);
    assert ReadFrom(parse, ds[k], ts[k]);
    var t := ts[k];
    NilMeansComplete(t.capacity, t.whole, t.run);
    assert End(t).plan == [] ==> End(t).emitted == t.whole;
  }
}
