/** Backing up through the data plane: the producer writes into an in-memory rendezvous pipe, a
    copying goroutine moves the bytes into the child's standard input, the child reads them. Each
    event is one step of one of them. */
module BackupPipe {
  import opened FileTree

  /** The producer between writes, inside a write of which some bytes are not taken yet, returned. */
  datatype Producer = Ready | Offering(chunk: Bytes) | Returned(ok: bool)

  /** The copying goroutine. A broken standard input ends it without an error, because a child may
      stop reading whenever it likes; the producer's error ends it with that error. */
  datatype Copier = Reading | Holding(chunk: Bytes) | Ended(ok: bool)

  datatype Child = Running | AtEnd | Exited(ok: bool)

  datatype Outcome = Pending | Success | ProduceError | WaitError

  /** left: what the producer would still write; written: what it has handed over or is offering;
      taken: what the child has read; drained: whether the child saw the end of its input. */
  datatype State = State(
    left: Bytes, producer: Producer, written: Bytes, closed: bool, copier: Copier,
    osbuf: Bytes, child: Child, taken: Bytes, drained: bool, outcome: Outcome)

  datatype Event =
    | Offer(n: nat)
    | OfferDone
    | Return(ok: bool)
    | CloseWriter
    | CopyTake(n: nat)
    | CopyPut(n: nat)
    | CopyWritten
    | CopyEnd
    | CopyBroken
    | ChildRead(n: nat)
    | ChildEnd
    | Exit(ok: bool)
    | Collect

  function Start(source: Bytes): State {
    State(source, Ready, [], false, Reading, [], Running, [], false, Pending)
  }

  predicate Enabled(capacity: nat, s: State, e: Event) {
    match e
    case Offer(n) => s.producer.Ready? && 1 <= n <= |s.left|
    case OfferDone => s.producer == Offering([])
    case Return(_) => s.producer.Ready?
    case CloseWriter => s.producer.Returned? && !s.closed
    case CopyTake(n) => s.copier.Reading? && s.producer.Offering? && 1 <= n <= |s.producer.chunk|
    case CopyPut(n) => s.copier.Holding? && !s.child.Exited? && 1 <= n <= |s.copier.chunk| && |s.osbuf| + n <= capacity
    case CopyWritten => s.copier == Holding([])
    case CopyEnd => s.copier.Reading? && s.closed && s.producer.Returned?
    case CopyBroken => s.copier.Holding? && s.copier.chunk != [] && s.child.Exited?
    case ChildRead(n) => s.child.Running? && 1 <= n <= |s.osbuf|
    case ChildEnd => s.child.Running? && s.osbuf == [] && s.copier.Ended?
    case Exit(_) => !s.child.Exited?
    case Collect => s.closed && s.producer.Returned? && s.child.Exited? && s.copier.Ended? && s.outcome.Pending?
  }

  function After(capacity: nat, s: State, e: Event): State
    requires Enabled(capacity, s, e)
  {
    match e
    case Offer(n) => s.(left := s.left[n..], producer := Offering(s.left[..n]), written := s.written + s.left[..n])
    case OfferDone => s.(producer := Ready)
    case Return(ok) => s.(producer := Returned(ok))
    case CloseWriter => s.(closed := true)
    case CopyTake(n) => s.(producer := Offering(s.producer.chunk[n..]), copier := Holding(s.producer.chunk[..n]))
    case CopyPut(n) => s.(copier := Holding(s.copier.chunk[n..]), osbuf := s.osbuf + s.copier.chunk[..n])
    case CopyWritten => s.(copier := Reading)
    case CopyEnd => s.(copier := Ended(s.producer.ok))
    case CopyBroken => s.(copier := Ended(true))
    case ChildRead(n) => s.(osbuf := s.osbuf[n..], taken := s.taken + s.osbuf[..n])
    case ChildEnd => s.(child := AtEnd, drained := true)
    case Exit(ok) => s.(child := Exited(ok))
    case Collect =>
      s.(outcome := if !s.producer.ok then ProduceError else if s.child.ok && s.copier.ok then Success else WaitError)
  }

  ghost predicate Runs(capacity: nat, s: State, run: seq<Event>)
    decreases run
  {
    run == [] || (Enabled(capacity, s, run[0]) && Runs(capacity, After(capacity, s, run[0]), run[1..]))
  }

  function From(capacity: nat, s: State, run: seq<Event>): State
    requires Runs(capacity, s, run)
    decreases run
  {
    if run == [] then s else From(capacity, After(capacity, s, run[0]), run[1..])
  }

  // ---------------------------------------------------------------------------------------------
  // What every reachable state satisfies.

  function Offered(p: Producer): Bytes {
    if p.Offering? then p.chunk else []
  }

  function Held(c: Copier): Bytes {
    if c.Holding? then c.chunk else []
  }

  /** Where the bytes written so far are. */
  function InFlight(s: State): Bytes {
    s.taken + s.osbuf + Held(s.copier) + Offered(s.producer)
  }

  ghost predicate InOrder(source: Bytes, s: State) {
    && s.written + s.left == source
    && (!s.copier.Ended? || !s.child.Exited? || s.drained ==>
          InFlight(s) == s.written)
    && (s.drained ==> s.osbuf == [] && s.copier.Ended? && s.closed)
  }

  ghost predicate Settled(s: State) {
    && (s.closed ==> s.producer.Returned?)
    && (s.copier.Ended? ==> s.child.Exited? || (s.closed && s.copier.ok == s.producer.ok))
    && (s.copier == Ended(false) ==> s.closed && s.producer == Returned(false))
    && (s.child.AtEnd? ==> s.drained)
    && (s.drained ==> !s.child.Running?)
  }

  ghost predicate Judged(s: State) {
    !s.outcome.Pending? ==>
      && s.closed && s.producer.Returned? && s.child.Exited? && s.copier.Ended?
      && s.outcome == if !s.producer.ok then ProduceError else if s.child.ok then Success else WaitError
  }

  ghost predicate Inv(source: Bytes, s: State) {
    InOrder(source, s) && Settled(s) && Judged(s)
  }

  lemma {:induction false} OfferKeeps(capacity: nat, s: State, n: nat)
    requires Enabled(capacity, s, Offer(n))
    ensures var t := After(capacity, s, Offer(n));
            && (InFlight(s) == s.written ==> InFlight(t) == t.written) && t.written + t.left == s.written + s.left
  {
    assert s.left == s.left[..n] + s.left[n..];
  }

  lemma {:induction false} MovesKeep(capacity: nat, s: State, e: Event)
    requires Enabled(capacity, s, e) && (e.CopyTake? || e.CopyPut? || e.ChildRead?)
    ensures InFlight(After(capacity, s, e)) == InFlight(s)
  {
    match e
    case CopyTake(n) => Moved(s.taken + s.osbuf, s.producer.chunk, [], n);
    case CopyPut(n) => CopyPutKeeps(s.taken, s.osbuf, s.copier.chunk, Offered(s.producer), n);
    case ChildRead(n) => Moved(s.taken, s.osbuf, Held(s.copier) + Offered(s.producer), n);
  }

  lemma {:induction false} Moved(x: Bytes, chunk: Bytes, y: Bytes, n: nat)
    requires n <= |chunk|
    ensures x + chunk[..n] + chunk[n..] == x + chunk
    ensures x + chunk[..n] + chunk[n..] + y == x + chunk + y
  {
    assert chunk[..n] + chunk[n..] == chunk;
    assert x + chunk[..n] + chunk[n..] == x + (chunk[..n] + chunk[n..]);
  }

  lemma {:induction false} CopyPutKeeps(x: Bytes, buf: Bytes, chunk: Bytes, y: Bytes, n: nat)
    requires n <= |chunk|
    ensures x + (buf + chunk[..n]) + chunk[n..] + y == x + buf + chunk + y
  {
    assert x + (buf + chunk[..n]) == x + buf + chunk[..n];
    Moved(x + buf, chunk, y, n);
  }

  lemma {:induction false} StepInOrder(capacity: nat, source: Bytes, s: State, e: Event)
    requires Enabled(capacity, s, e) && Inv(source, s)
    ensures InOrder(source, After(capacity, s, e))
  {
    if e.Offer? {
      OfferKeeps(capacity, s, e.n);
    } else if e.CopyTake? || e.CopyPut? || e.ChildRead? {
      MovesKeep(capacity, s, e);
    } else {
      assert !e.CopyBroken? ==> InFlight(After(capacity, s, e)) == InFlight(s);
    }
  }

  lemma {:induction false} StepSettled(capacity: nat, source: Bytes, s: State, e: Event)
    requires Enabled(capacity, s, e) && Inv(source, s)
    ensures Settled(After(capacity, s, e)) && Judged(After(capacity, s, e))
  {
  }

  lemma {:induction false} RunKeeps(capacity: nat, source: Bytes, s: State, run: seq<Event>)
    requires Runs(capacity, s, run) && Inv(source, s)
    ensures Inv(source, From(capacity, s, run))
    decreases run
  {
    if run != [] {
      StepInOrder(capacity, source, s, run[0]);
      StepSettled(capacity, source, s, run[0]);
      RunKeeps(capacity, source, After(capacity, s, run[0]), run[1..]);
    }
  }

  // ---------------------------------------------------------------------------------------------
  // What success and the end of input mean.

  /** Backup succeeds exactly if the producer returned nil and the child exited cleanly; the
      producer's error wins over the child's. A child that has seen the end of its input was handed
      everything the producer wrote, in order. */
  lemma {:induction false} SuccessIff(capacity: nat, source: Bytes, run: seq<Event>)
    requires Runs(capacity, Start(source), run) && !From(capacity, Start(source), run).outcome.Pending?
    ensures var s := From(capacity, Start(source), run);
            && s.producer.Returned? && s.child.Exited?
            && (s.outcome.Success? <==> s.producer.ok && s.child.ok)
            && (s.outcome.ProduceError? <==> !s.producer.ok)
            && (s.drained ==> s.taken == s.written && s.written + s.left == source)
  {
    RunKeeps(capacity, source, Start(source), run);
  }

  lemma {:induction false} Appended(capacity: nat, s: State, first: seq<Event>, second: seq<Event>)
    requires Runs(capacity, s, first) && Runs(capacity, From(capacity, s, first), second)
    ensures Runs(capacity, s, first + second)
    ensures From(capacity, s, first + second) == From(capacity, From(capacity, s, first), second)
    decreases first
  {
    if first == [] {
      assert first + second == second;
    } else {
      Appended(capacity, After(capacity, s, first[0]), first[1..], second);
      assert (first + second)[1..] == first[1..] + second;
    }
  }

  lemma {:induction false} Prefixed(capacity: nat, s: State, e: Event, rest: seq<Event>)
    requires Enabled(capacity, s, e) && Runs(capacity, After(capacity, s, e), rest)
    ensures Runs(capacity, s, [e] + rest)
    ensures From(capacity, s, [e] + rest) == From(capacity, After(capacity, s, e), rest)
  {
    assert ([e] + rest)[1..] == rest;
  }

  /** Move the next byte all the way into the child. */
  lemma {:induction false} CarryOne(capacity: nat, s: State) returns (run: seq<Event>, t: State)
    requires capacity > 0 && s.producer.Ready? && s.copier.Reading? && s.child.Running? && s.osbuf == [] && s.left != []
    ensures Runs(capacity, s, run) && t == From(capacity, s, run)
    ensures t == s.(left := s.left[1..], written := s.written + s.left[..1], taken := s.taken + s.left[..1])
  {
    var byte := s.left[..1];
    var s1 := s.(left := s.left[1..], producer := Offering(byte), written := s.written + byte);
    var s2 := s1.(producer := Offering([]), copier := Holding(byte));
    var s3 := s2.(producer := Ready);
    var s4 := s3.(copier := Holding([]), osbuf := byte);
    var s5 := s4.(copier := Reading);
    t := s.(left := s.left[1..], written := s.written + byte, taken := s.taken + byte);
    assert byte[..1] == byte && byte[1..] == [] && [] + byte == byte;
    assert After(capacity, s5, ChildRead(1)) == t;
    Prefixed(capacity, s5, ChildRead(1), []);
    run := [ChildRead(1)] + [];
    Prefixed(capacity, s4, CopyWritten, run);
    run := [CopyWritten] + run;
    assert After(capacity, s3, CopyPut(1)) == s4;
    Prefixed(capacity, s3, CopyPut(1), run);
    run := [CopyPut(1)] + run;
    Prefixed(capacity, s2, OfferDone, run);
    run := [OfferDone] + run;
    assert After(capacity, s1, CopyTake(1)) == s2;
    Prefixed(capacity, s1, CopyTake(1), run);
    run := [CopyTake(1)] + run;
    Prefixed(capacity, s, Offer(1), run);
    run := [Offer(1)] + run;
  }

  /** Move the next n bytes, one by one. */
  lemma {:induction false} Carry(capacity: nat, s: State, n: nat) returns (run: seq<Event>)
    requires capacity > 0 && s.producer.Ready? && s.copier.Reading? && s.child.Running? && s.osbuf == []
    requires n <= |s.left|
    ensures Runs(capacity, s, run)
    ensures From(capacity, s, run) ==
            s.(left := s.left[n..], written := s.written + s.left[..n], taken := s.taken + s.left[..n])
    decreases n
  {
    if n == 0 {
      run := [];
      assert s.left[0..] == s.left && s.written + [] == s.written && s.taken + [] == s.taken;
    } else {
      var first, t := CarryOne(capacity, s);
      var rest := Carry(capacity, t, n - 1);
      Appended(capacity, s, first, rest);
      run := first + rest;
      SplitFirst(s.written, s.left, n);
      SplitFirst(s.taken, s.left, n);
    }
  }

  lemma {:induction false} SplitFirst(x: Bytes, left: Bytes, n: nat)
    requires 0 < n <= |left|
    ensures x + left[..1] + left[1..][..n - 1] == x + left[..n] && left[1..][n - 1..] == left[n..]
  {
    assert left[..1] + left[1..][..n - 1] == left[..n];
    assert x + left[..1] + left[1..][..n - 1] == x + (left[..1] + left[1..][..n - 1]);
  }

  /** A producer's error does not reach the child: for every amount written before the error there is
      a run in which the child sees the same bytes and the same clean end as after a nil return, and
      even exits cleanly. Only Backup's own result tells the two apart. */
  lemma {:induction false} TruncationLooksClean(capacity: nat, source: Bytes, n: nat,
            ok: bool) returns (run: seq<Event>)
    requires capacity > 0 && n <= |source|
    ensures Runs(capacity, Start(source), run)
    ensures var s := From(capacity, Start(source), run);
            && s.producer == Returned(ok) && s.child == Exited(true) && s.drained && s.taken == source[..n]
            && s.outcome == if ok then Success else ProduceError
  {
    var carried := Carry(capacity, Start(source), n);
    var s := From(capacity, Start(source), carried);
    var s1 := s.(producer := Returned(ok));
    var s2 := s1.(closed := true);
    var s3 := s2.(copier := Ended(ok));
    var s4 := s3.(child := AtEnd, drained := true);
    var s5 := s4.(child := Exited(true));
    Prefixed(capacity, s5, Collect, []);
    Prefixed(capacity, s4, Exit(true), [Collect] + []);
    var r := [Exit(true)] + ([Collect] + []);
    Prefixed(capacity, s3, ChildEnd, r);
    Prefixed(capacity, s2, CopyEnd, [ChildEnd] + r);
    Prefixed(capacity, s1, CloseWriter, [CopyEnd] + ([ChildEnd] + r));
    var tail := [CloseWriter] + ([CopyEnd] + ([ChildEnd] + r));
    Prefixed(capacity, s, Return(ok), tail);
    Appended(capacity, Start(source), carried, [Return(ok)] + tail);
    run := carried + ([Return(ok)] + tail);
  }

  /** The same event with the producer's verdict turned round. */
  function Flip(e: Event): Event {
    if e.Return? then Return(!e.ok) else e
  }

  function Flipped(run: seq<Event>): seq<Event> {
    seq(|run|, i requires 0 <= i < |run| => Flip(run[i]))
  }

  /** Two states that differ in nothing but the producer's verdict and what was concluded from it. */
  ghost predicate Twins(s: State, t: State) {
    && t == s.(producer := t.producer, copier := t.copier, outcome := t.outcome)
    && (if s.producer.Returned? then t.producer == Returned(!s.producer.ok) else t.producer == s.producer)
    && (if s.copier.Ended? then t.copier.Ended? else t.copier == s.copier)
    && (s.outcome.Pending? <==> t.outcome.Pending?)
  }

  lemma {:induction false} TwinStep(capacity: nat, s: State, t: State, e: Event)
    requires Twins(s, t) && Enabled(capacity, s, e)
    ensures Enabled(capacity, t, Flip(e)) && Twins(After(capacity, s, e), After(capacity, t, Flip(e)))
  {
  }

  lemma {:induction false} TwinRuns(capacity: nat, s: State, t: State, run: seq<Event>)
    requires Twins(s, t) && Runs(capacity, s, run)
    ensures Runs(capacity, t, Flipped(run)) && Twins(From(capacity, s, run), From(capacity, t, Flipped(run)))
    decreases run
  {
    if run != [] {
      TwinStep(capacity, s, t, run[0]);
      TwinRuns(capacity, After(capacity, s, run[0]), After(capacity, t, Flip(run[0])), run[1..]);
      assert Flipped(run)[1..] == Flipped(run[1..]);
    }
  }

  /** Whatever happens, the producer's error is invisible to the child: every run is also a run with
      the producer's verdict turned round, in which the child reads the same bytes, sees the same end
      and exits the same way. */
  lemma {:induction false} VerdictIsInvisible(capacity: nat, source: Bytes, run: seq<Event>)
    requires Runs(capacity, Start(source), run)
    ensures Runs(capacity, Start(source), Flipped(run))
    ensures var s, t := From(capacity, Start(source), run), From(capacity, Start(source), Flipped(run));
            && t.child == s.child && t.osbuf == s.osbuf && t.taken == s.taken && t.drained == s.drained
            && (s.producer.Returned? ==> t.producer == Returned(!s.producer.ok))
  {
    TwinRuns(capacity, Start(source), Start(source), run);
  }

  /** The OS pipe never holds more than it can. */
  lemma {:induction false} PipeIsBounded(capacity: nat, s: State, run: seq<Event>)
    requires Runs(capacity, s, run) && |s.osbuf| <= capacity
    ensures |From(capacity, s, run).osbuf| <= capacity
    decreases run
  {
    if run != [] {
      PipeIsBounded(capacity, After(capacity, s, run[0]), run[1..]);
    }
  }

  /** The goroutine that feeds the child ends with the producer's verdict after the last write, or,
      without an error, in a write to a child that is gone; while it waits for a write it does not
      notice that the child is gone. */
  lemma {:induction false} CopyEnds(capacity: nat, s: State, e: Event)
    requires Enabled(capacity, s, e) && !s.copier.Ended? && After(capacity, s, e).copier.Ended?
    ensures var ok := After(capacity, s, e).copier.ok;
            if s.copier.Reading? then s.closed && s.producer == Returned(ok)
            else ok && s.copier.chunk != [] && s.child.Exited?
  {
  }

  // ---------------------------------------------------------------------------------------------
  // Progress. Owed moves: the producer writes what it has and then returns, the child reads to the
  // end of its input and then exits.

  predicate Owed(capacity: nat, s: State, e: Event) {
    && Enabled(capacity, s, e)
    && (e.Exit? ==> s.child.AtEnd?)
    && (e.Return? ==> s.left == [])
  }

  function Weight(s: State): nat {
    6 * |s.left| + |s.osbuf|
    + (match s.producer case Ready => 1 case Offering(chunk) => 2 + 4 * |chunk| case Returned(_) => 0)
    + (match s.copier case Reading => 1 case Holding(chunk) => 2 + 2 * |chunk| case Ended(_) => 0)
    + (match s.child case Running => 2 case AtEnd => 1 case Exited(_) => 0)
    + (if s.closed then 0 else 1) + (if s.outcome.Pending? then 1 else 0)
  }

  predicate MovesBytes(e: Event) {
    e.Offer? || e.CopyTake? || e.CopyPut? || e.ChildRead?
  }

  lemma {:induction false} MovesDecrease(capacity: nat, s: State, e: Event)
    requires Enabled(capacity, s, e) && MovesBytes(e)
    ensures Weight(After(capacity, s, e)) < Weight(s)
  {
  }

  lemma {:induction false} OthersDecrease(capacity: nat, s: State, e: Event)
    requires Enabled(capacity, s, e) && !MovesBytes(e)
    ensures Weight(After(capacity, s, e)) < Weight(s)
  {
  }

  lemma {:induction false} StepsDecrease(capacity: nat, s: State, e: Event)
    requires Enabled(capacity, s, e)
    ensures Weight(After(capacity, s, e)) < Weight(s)
  {
    if MovesBytes(e) {
      MovesDecrease(capacity, s, e);
    } else {
      OthersDecrease(capacity, s, e);
    }
  }

  lemma {:induction false} RunsAreFinite(capacity: nat, s: State, run: seq<Event>)
    requires Runs(capacity, s, run)
    ensures |run| + Weight(From(capacity, s, run)) <= Weight(s)
    decreases run
  {
    if run != [] {
      StepsDecrease(capacity, s, run[0]);
      RunsAreFinite(capacity, After(capacity, s, run[0]), run[1..]);
    }
  }

  ghost predicate Stuck(capacity: nat, s: State) {
    forall e: Event :: !Owed(capacity, s, e)
  }

  /** The producer is inside a write nobody will ever read: the copier has ended. */
  ghost predicate Orphaned(s: State) {
    s.producer.Offering? && s.producer.chunk != [] && s.copier.Ended?
  }

  /** The only way to be stuck before Backup returns is a child that exited without reading to the
      end while the producer still had bytes to write. */
  lemma {:induction false} StuckIffOrphaned(capacity: nat, source: Bytes, run: seq<Event>)
    requires capacity > 0 && Runs(capacity, Start(source), run)
    requires From(capacity, Start(source), run).outcome.Pending?
    ensures var s := From(capacity, Start(source), run);
            && (Stuck(capacity, s) <==> Orphaned(s))
            && (Orphaned(s) ==> s.child.Exited? && !s.drained)
  {
    RunKeeps(capacity, source, Start(source), run);
    var s := From(capacity, Start(source), run);
    if !Orphaned(s) {
      var e := NextOwed(capacity, source, s);
    } else {
      forall e: Event
        ensures !Owed(capacity, s, e)
      {
        assert s.child.Exited?;
      }
    }
  }

  lemma {:induction false} NextOwed(capacity: nat, source: Bytes, s: State) returns (e: Event)
    requires capacity > 0 && Inv(source, s) && s.outcome.Pending? && !Orphaned(s)
    ensures Owed(capacity, s, e)
  {
    if s.child.Running? && s.osbuf != [] {
      e := ChildRead(1);
    } else if s.child.AtEnd? {
      e := Exit(true);
    } else if s.copier == Holding([]) {
      e := CopyWritten;
    } else if s.copier.Holding? {
      e := if s.child.Exited? then CopyBroken else CopyPut(1);
    } else if s.producer == Offering([]) {
      e := OfferDone;
    } else if s.producer.Offering? {
      e := CopyTake(1);
    } else if s.producer.Ready? {
      e := if s.left == [] then Return(true) else Offer(1);
    } else if !s.closed {
      e := CloseWriter;
    } else if s.copier.Reading? {
      e := CopyEnd;
    } else {
      e := if s.child.Running? then ChildEnd else Collect;
    }
  }

  /** And it happens, to every producer with two bytes to write: the child exits, the goroutine that
      feeds it notices with its next chunk, and the producer goes on to another write. */
  lemma {:induction false} OrphanExists(capacity: nat, source: Bytes)
    requires |source| >= 2
    ensures var tail := [CopyTake(1)] + ([CopyBroken] + ([OfferDone] + ([Offer(1)] + [])));
            var run := [Offer(1)] + ([Exit(true)] + tail);
            && Runs(capacity, Start(source), run)
            && Orphaned(From(capacity, Start(source), run)) && From(capacity, Start(source), run).outcome.Pending?
  {
    var s1 := After(capacity, Start(source), Offer(1));
    var s2 := After(capacity, s1, Exit(true));
    var s3 := After(capacity, s2, CopyTake(1));
    var s4 := After(capacity, s3, CopyBroken);
    var s5 := After(capacity, s4, OfferDone);
    Prefixed(capacity, s5, Offer(1), []);
    var r5 := [Offer(1)] + [];
    Prefixed(capacity, s4, OfferDone, r5);
    var r4 := [OfferDone] + r5;
    Prefixed(capacity, s3, CopyBroken, r4);
    var r3 := [CopyBroken] + r4;
    Prefixed(capacity, s2, CopyTake(1), r3);
    var r2 := [CopyTake(1)] + r3;
    Prefixed(capacity, s1, Exit(true), r2);
    Prefixed(capacity, Start(source), Offer(1), [Exit(true)] + r2);
  }

  /** Once there, nothing helps: no event at all makes Backup return. */
  lemma {:induction false} OrphanedForever(capacity: nat, s: State, run: seq<Event>)
    requires Runs(capacity, s, run) && Orphaned(s) && s.outcome.Pending?
    ensures Orphaned(From(capacity, s, run)) && From(capacity, s, run).outcome.Pending?
    decreases run
  {
    if run != [] {
      OrphanedForever(capacity, After(capacity, s, run[0]), run[1..]);
    }
  }

  /** A child that exits only after the end of its input: every run can be finished, and success
      then means that it was handed the whole source if the producer wrote it all. */
  ghost predicate ReadsToEnd(capacity: nat, s: State, run: seq<Event>)
    requires Runs(capacity, s, run)
    decreases run
  {
    run == [] || ((run[0].Exit? ==> s.child.AtEnd?) && ReadsToEnd(capacity, After(capacity, s, run[0]), run[1..]))
  }

  lemma {:induction false} ExitedDrained(capacity: nat, source: Bytes, s: State, run: seq<Event>)
    requires Runs(capacity, s, run) && ReadsToEnd(capacity, s, run) && Inv(source, s)
    requires s.child.Exited? ==> s.drained
    ensures From(capacity, s, run).child.Exited? ==> From(capacity, s, run).drained
    decreases run
  {
    if run != [] {
      StepInOrder(capacity, source, s, run[0]);
      StepSettled(capacity, source, s, run[0]);
      ExitedDrained(capacity, source, After(capacity, s, run[0]), run[1..]);
    }
  }

  lemma {:induction false} ReadingChildFinishes(capacity: nat, source: Bytes, run: seq<Event>)
    requires capacity > 0 && Runs(capacity, Start(source), run) && ReadsToEnd(capacity, Start(source), run)
    ensures var s := From(capacity, Start(source), run);
            && (Stuck(capacity, s) ==> !s.outcome.Pending?)
            && (!s.outcome.Pending? ==> s.taken == s.written)
  {
    RunKeeps(capacity, source, Start(source), run);
    ExitedDrained(capacity, source, Start(source), run);
    var s := From(capacity, Start(source), run);
    if s.outcome.Pending? {
      StuckIffOrphaned(capacity, source, run);
    }
  }

  // ---------------------------------------------------------------------------------------------
  // A child that exits early, exactly.

  ghost predicate OwedRun(capacity: nat, s: State, run: seq<Event>)
    requires Runs(capacity, s, run)
    decreases run
  {
    run == [] || (Owed(capacity, s, run[0]) && OwedRun(capacity, After(capacity, s, run[0]), run[1..]))
  }

  /** The child is gone and the goroutine that fed it has ended or will end with the chunk it holds. */
  predicate Unfed(s: State) {
    s.child.Exited? && (s.copier.Ended? || (s.copier.Holding? && s.copier.chunk != []))
  }

  /** The producer still has something to write. */
  predicate Unwritten(s: State) {
    Offered(s.producer) != [] || (!s.producer.Returned? && s.left != [])
  }

  lemma {:induction false} UnwrittenStays(capacity: nat, source: Bytes, s: State, run: seq<Event>)
    requires Runs(capacity, s, run) && OwedRun(capacity, s, run) && Inv(source, s) && Unfed(s)
    ensures var t := From(capacity, s, run); Unfed(t) && (Unwritten(t) <==> Unwritten(s))
    decreases run
  {
    if run != [] {
      var t := After(capacity, s, run[0]);
      StepInOrder(capacity, source, s, run[0]);
      StepSettled(capacity, source, s, run[0]);
      assert Unfed(t) && (Unwritten(t) <==> Unwritten(s));
      UnwrittenStays(capacity, source, t, run[1..]);
    }
  }

  /** Every state has such a rest of a run: owed moves only, until none is left. */
  lemma {:induction false} OwedRunExists(capacity: nat, s: State) returns (run: seq<Event>)
    ensures Runs(capacity, s, run) && OwedRun(capacity, s, run) && Stuck(capacity, From(capacity, s, run))
    decreases Weight(s)
  {
    run := [];
    if e :| Owed(capacity, s, e) {
      StepsDecrease(capacity, s, e);
      run := OwedRunExists(capacity, After(capacity, s, e));
      Prefixed(capacity, s, e, run);
      run := [e] + run;
    }
  }

  lemma {:induction false} OwedReadsToEnd(capacity: nat, s: State, run: seq<Event>)
    requires Runs(capacity, s, run) && OwedRun(capacity, s, run)
    ensures ReadsToEnd(capacity, s, run)
    decreases run
  {
    if run != [] {
      OwedReadsToEnd(capacity, After(capacity, s, run[0]), run[1..]);
    }
  }

  ghost predicate ReadAndDone(capacity: nat, source: Bytes, run: seq<Event>) {
    && Runs(capacity, Start(source), run) && ReadsToEnd(capacity, Start(source), run)
    && !From(capacity, Start(source), run).outcome.Pending?
  }

  /** For every source there is a finished run with a child that reads to the end. */
  lemma {:induction false} BackupExists(capacity: nat, source: Bytes)
    requires capacity > 0
    ensures exists run :: ReadAndDone(capacity, source, run)
  {
    var run := OwedRunExists(capacity, Start(source));
    OwedReadsToEnd(capacity, Start(source), run);
    ReadingChildFinishes(capacity, source, run);
    assert ReadAndDone(capacity, source, run);
  }

  /** Once nobody feeds the child any more, the rest of the run ends with Backup returning if and only
      if the producer has nothing left to write. */
  lemma {:induction false} ReturnsIffAllWritten(capacity: nat, source: Bytes, s: State, run: seq<Event>)
    requires capacity > 0 && Inv(source, s) && Unfed(s)
    requires Runs(capacity, s, run) && OwedRun(capacity, s, run) && Stuck(capacity, From(capacity, s, run))
    ensures !From(capacity, s, run).outcome.Pending? <==> !Unwritten(s)
  {
    RunKeeps(capacity, source, s, run);
    UnwrittenStays(capacity, source, s, run);
    var t := From(capacity, s, run);
    if t.outcome.Pending? && !Orphaned(t) {
      var e := NextOwed(capacity, source, t);
    }
  }
}
