/** The outbox under interleaving: one goroutine reports results, another scans and flushes, the
    process may crash between any two steps, and the server may apply a result without the
    acknowledgement arriving. */
module OutboxRuns {
  import opened Text
  import opened Outbox

  /** How ids name files, as far as the protocol depends on it. */
  datatype Naming = Naming(file: string -> string, tmp: string -> string, listed: string -> bool)

  ghost predicate ValidNaming(nm: Naming) {
    && (forall a, b :: nm.file(a) != nm.tmp(b))
    && (forall a :: nm.listed(nm.file(a)) && !nm.listed(nm.tmp(a)))
  }

  ghost predicate Injective(nm: Naming, ids: iset<string>) {
    forall a, b | a in ids && b in ids && nm.file(a) == nm.file(b) :: a == b
  }

  /** The reporting goroutine, between its steps. */
  datatype Exec = Idle | Writing(r: Report) | Written(r: Report) | Sending(r: Report) | Acking(r: Report)

  /** The retry loop: reading the scanned names one by one, delivering the snapshot, removing. */
  datatype Loop = Asleep
                | Scanning(names: seq<string>, got: seq<Report>)
                | Flushing(todo: seq<Report>)
                | Removing(r: Report, todo: seq<Report>)

  /** The disk, the two goroutines, and what has happened: results handed to report, results whose
      enqueue completed, results the server applied; for each id the last result whose enqueue
      completed, and the ids for which a result reported since then has been applied. */
  datatype State = State(dir: Directory, exec: Exec, loop: Loop,
                         reported: set<Report>, published: set<Report>, accepted: set<Report>,
                         latest: map<string, Report>, overtaken: set<string>)

  datatype Event =
    | Begin(r: Report)
    | BeginFails(r: Report)
    | WriteDone
    | WriteFails
    | RenameDone
    | RenameFails
    | ReportSent(applied: bool, acked: bool)
    | ReportAcked(removed: bool)
    | ScanStart
    | ScanRead
    | FlushSent(applied: bool, acked: bool)
    | FlushAcked(removed: bool)
    | FlushStop
    | Crash

  const START := State(map[], Idle, Asleep, {}, {}, {}, map[], {})

  function ListedNames(nm: Naming, d: Directory): set<string> {
    set n | n in d && nm.listed(n)
  }

  /** What reading one scanned name adds: nothing if it is gone, undecodable or has no id. */
  function Read(d: Directory, name: string): seq<Report> {
    if name in d && d[name].Record? && d[name].report.cmdId != "" then [d[name].report] else []
  }

  function Sent(s: State, r: Report, applied: bool, acked: bool): State {
    if applied || acked then s.(accepted := s.accepted + {r}) else s
  }

  /** One step of the reporting goroutine; an event that is not enabled changes nothing. */
  function ExecStep(nm: Naming, s: State, e: Event): State {
    match (s.exec, e)
    case (Idle, Begin(r)) =>
      s.(dir := s.dir[nm.tmp(r.cmdId) := Junk], exec := Writing(r), reported := s.reported + {r})
    case (Idle, BeginFails(r)) => s.(exec := Sending(r), reported := s.reported + {r})
    case (Writing(r), WriteDone) => s.(dir := s.dir[nm.tmp(r.cmdId) := Record(r)], exec := Written(r))
    case (Writing(r), WriteFails) => s.(exec := Sending(r))
    case (Written(r), RenameDone) =>
      s.(dir := (s.dir - {nm.tmp(r.cmdId)})[nm.file(r.cmdId) := Record(r)], exec := Sending(r),
         published := s.published + {r}, latest := s.latest[r.cmdId := r], overtaken := s.overtaken - {r.cmdId})
    case (Written(r), RenameFails) => s.(exec := Sending(r))
    case (Sending(r), ReportSent(applied, acked)) =>
      Sent(s, r, applied, acked).(
        exec := if acked then Acking(r) else Idle,
        overtaken := if applied || acked then s.overtaken + {r.cmdId} else s.overtaken)
    case (Acking(r), ReportAcked(removed)) =>
      s.(dir := if removed then s.dir - {nm.file(r.cmdId)} else s.dir, exec := Idle)
    case _ => s
  }

  function LoopStep(nm: Naming, s: State, e: Event): State {
    match (s.loop, e)
    case (Asleep, ScanStart) => s.(loop := Scanning(Sorted(ListedNames(nm, s.dir)), []))
    case (Scanning(names, got), ScanRead) =>
      if names == [] then s.(loop := Flushing(got))
      else s.(loop := Scanning(names[1..], got + Read(s.dir, names[0])))
    case (Flushing(todo), FlushSent(applied, acked)) =>
      if todo == [] then s
      else
        Sent(s, todo[0], applied, acked).(loop :=
          if acked then Removing(todo[0], todo[1..]) else Flushing(todo[1..]))
    case (Removing(r, todo), FlushAcked(removed)) =>
      s.(dir := if removed then s.dir - {nm.file(r.cmdId)} else s.dir, loop := Flushing(todo))
    case (Flushing(_), FlushStop) => s.(loop := Asleep)
    case _ => s
  }

  function After(nm: Naming, s: State, e: Event): State {
    if e.Crash? then s.(exec := Idle, loop := Asleep)
    else if e.ScanStart? || e.ScanRead? || e.FlushSent? || e.FlushAcked? || e.FlushStop? then LoopStep(nm, s, e)
    else ExecStep(nm, s, e)
  }

  function From(nm: Naming, s: State, run: seq<Event>): State
    decreases run
  {
    if run == [] then s else From(nm, After(nm, s, run[0]), run[1..])
  }

  function Final(nm: Naming, run: seq<Event>): State {
    From(nm, START, run)
  }

  ghost predicate Over(ids: iset<string>, run: seq<Event>) {
    forall i | 0 <= i < |run| && (run[i].Begin? || run[i].BeginFails?) :: run[i].r.cmdId in ids
  }

  // ---------------------------------------------------------------------------------------------
  // The invariant.

  ghost predicate AcceptedId(s: State, id: string) {
    exists q: Report :: q in s.accepted && q.cmdId == id
  }

  ghost predicate OnDisk(nm: Naming, s: State, id: string) {
    && nm.file(id) in s.dir && s.dir[nm.file(id)].Record?
    && s.dir[nm.file(id)].report.cmdId == id
  }

  /** The result's id still has its published file, or the server has applied a result for it. */
  ghost predicate Kept(nm: Naming, s: State, id: string) {
    OnDisk(nm, s, id) || AcceptedId(s, id)
  }

  ghost predicate AllKept(nm: Naming, s: State) {
    forall r: Report | r in s.published :: Kept(nm, s, r.cmdId)
  }

  /** A listed file holds a completely written, published record and is named by its id. */
  ghost predicate GoodFile(nm: Naming, s: State, n: string)
    requires n in s.dir
  {
    s.dir[n].Record? && s.dir[n].report in s.published && n == nm.file(s.dir[n].report.cmdId)
  }

  ghost predicate FilesGood(nm: Naming, s: State) {
    forall n | n in s.dir && nm.listed(n) :: GoodFile(nm, s, n)
  }

  ghost predicate ExecGood(nm: Naming, s: State) {
    match s.exec
    case Idle => true
    case Writing(r) => r in s.reported
    case Written(r) => r in s.reported && nm.tmp(r.cmdId) in s.dir && s.dir[nm.tmp(r.cmdId)] == Record(r)
    case Sending(r) => r in s.reported
    case Acking(r) => r in s.accepted
  }

  ghost predicate AllIn(rs: seq<Report>, all: set<Report>) {
    forall i | 0 <= i < |rs| :: rs[i] in all
  }

  ghost predicate LoopGood(s: State) {
    match s.loop
    case Asleep => true
    case Scanning(names, got) => AllIn(got, s.published)
    case Flushing(todo) => AllIn(todo, s.published)
    case Removing(r, todo) => r in s.accepted && AllIn(todo, s.published)
  }

  /** The names still to be read are listed ones. */
  ghost predicate NamesListed(nm: Naming, s: State) {
    s.loop.Scanning? ==> forall i | 0 <= i < |s.loop.names| :: nm.listed(s.loop.names[i])
  }

  ghost predicate IdsIn(rs: set<Report>, ids: iset<string>) {
    forall r: Report | r in rs :: r.cmdId in ids
  }

  ghost predicate Inv(nm: Naming, ids: iset<string>, s: State) {
    && s.published <= s.reported && s.accepted <= s.reported && IdsIn(s.reported, ids)
    && ExecGood(nm, s) && LoopGood(s) && NamesListed(nm, s) && FilesGood(nm, s) && AllKept(nm, s)
  }

  // ---------------------------------------------------------------------------------------------
  // Every step keeps it. First what the four kinds of change to the directory do to the files.

  /** Nothing listed changes and nothing accepted is forgotten. */
  ghost predicate SameListed(nm: Naming, s: State, t: State) {
    && t.published == s.published && s.accepted <= t.accepted
    && forall n | nm.listed(n) :: (n in t.dir <==> n in s.dir) && (n in s.dir ==> t.dir[n] == s.dir[n])
  }

  lemma {:induction false} AcceptedStays(s: State, t: State, id: string)
    requires s.accepted <= t.accepted && AcceptedId(s, id)
    ensures AcceptedId(t, id)
  {
    var q: Report :| q in s.accepted && q.cmdId == id;
    assert q in t.accepted;
  }

  lemma {:induction false} UnlistedChange(nm: Naming, s: State, t: State)
    requires ValidNaming(nm) && SameListed(nm, s, t) && FilesGood(nm, s) && AllKept(nm, s)
    ensures FilesGood(nm, t) && AllKept(nm, t)
  {
    forall r: Report | r in t.published
      ensures Kept(nm, t, r.cmdId)
    {
      assert Kept(nm, s, r.cmdId);
      if AcceptedId(s, r.cmdId) {
        AcceptedStays(s, t, r.cmdId);
      }
    }
    forall n | n in t.dir && nm.listed(n)
      ensures GoodFile(nm, t, n)
    {
      assert GoodFile(nm, s, n);
    }
  }

  lemma {:induction false} Removal(nm: Naming, ids: iset<string>, s: State, t: State, r: Report)
    requires ValidNaming(nm) && Injective(nm, ids) && IdsIn(s.reported, ids)
    requires s.published <= s.reported && r in s.accepted && s.accepted <= s.reported
    requires FilesGood(nm, s) && AllKept(nm, s)
    requires t.dir == s.dir - {nm.file(r.cmdId)} && t.published == s.published && t.accepted == s.accepted
    ensures FilesGood(nm, t) && AllKept(nm, t)
  {
    forall q: Report | q in t.published
      ensures Kept(nm, t, q.cmdId)
    {
      assert Kept(nm, s, q.cmdId);
      if OnDisk(nm, s, q.cmdId) && nm.file(q.cmdId) == nm.file(r.cmdId) {
        assert AcceptedId(t, q.cmdId);
      } else if AcceptedId(s, q.cmdId) {
        AcceptedStays(s, t, q.cmdId);
      }
    }
    forall n | n in t.dir && nm.listed(n)
      ensures GoodFile(nm, t, n)
    {
      assert GoodFile(nm, s, n);
    }
  }

  lemma {:induction false} Publication(nm: Naming, ids: iset<string>, s: State, t: State, r: Report)
    requires ValidNaming(nm) && Injective(nm, ids) && IdsIn(s.reported, ids)
    requires s.published <= s.reported && r in s.reported
    requires FilesGood(nm, s) && AllKept(nm, s)
    requires t.dir == (s.dir - {nm.tmp(r.cmdId)})[nm.file(r.cmdId) := Record(r)]
    requires t.published == s.published + {r} && t.accepted == s.accepted
    ensures FilesGood(nm, t) && AllKept(nm, t)
  {
    forall q: Report | q in t.published
      ensures Kept(nm, t, q.cmdId)
    {
      if q.cmdId != r.cmdId {
        assert Kept(nm, s, q.cmdId);
        if AcceptedId(s, q.cmdId) {
          AcceptedStays(s, t, q.cmdId);
        }
      }
    }
    forall n | n in t.dir && nm.listed(n)
      ensures GoodFile(nm, t, n)
    {
      assert n != nm.file(r.cmdId) ==> GoodFile(nm, s, n);
    }
  }

  /** The reporting goroutine changes listed files only by publishing and by removing. */
  predicate ChangesFiles(s: State, e: Event) {
    (s.exec.Written? && e.RenameDone?) || (s.exec.Acking? && e == ReportAcked(true))
  }

  lemma {:induction false} ExecSame(nm: Naming, s: State, e: Event)
    requires ValidNaming(nm) && !ChangesFiles(s, e)
    ensures var t := ExecStep(nm, s, e);
            SameListed(nm, s, t) && t.latest == s.latest && s.overtaken <= t.overtaken
  {
  }

  lemma {:induction false} ExecFilesGood(nm: Naming, ids: iset<string>, s: State, e: Event)
    requires ValidNaming(nm) && Injective(nm, ids) && Inv(nm, ids, s)
    ensures FilesGood(nm, ExecStep(nm, s, e)) && AllKept(nm, ExecStep(nm, s, e))
  {
    var t := ExecStep(nm, s, e);
    if !ChangesFiles(s, e) {
      ExecSame(nm, s, e);
      UnlistedChange(nm, s, t);
    } else if s.exec.Written? {
      Publication(nm, ids, s, t, s.exec.r);
    } else {
      Removal(nm, ids, s, t, s.exec.r);
    }
  }

  lemma {:induction false} ExecRestGood(nm: Naming, ids: iset<string>, s: State, e: Event)
    requires ValidNaming(nm) && Inv(nm, ids, s)
    requires e.Begin? || e.BeginFails? ==> e.r.cmdId in ids
    ensures var t := ExecStep(nm, s, e);
            && t.published <= t.reported && t.accepted <= t.reported && IdsIn(t.reported, ids)
            && ExecGood(nm, t) && LoopGood(t) && NamesListed(nm, t)
  {
  }

  lemma {:induction false} ExecKeeps(nm: Naming, ids: iset<string>, s: State, e: Event)
    requires ValidNaming(nm) && Injective(nm, ids) && Inv(nm, ids, s)
    requires e.Begin? || e.BeginFails? ==> e.r.cmdId in ids
    ensures Inv(nm, ids, ExecStep(nm, s, e))
  {
    ExecFilesGood(nm, ids, s, e);
    ExecRestGood(nm, ids, s, e);
  }

  lemma {:induction false} ScanGood(nm: Naming, ids: iset<string>, s: State, e: Event)
    requires Inv(nm, ids, s) && (s.loop.Asleep? || s.loop.Scanning?)
    ensures LoopGood(LoopStep(nm, s, e)) && NamesListed(nm, LoopStep(nm, s, e))
  {
    if s.loop.Scanning? && s.loop.names != [] {
      var name := s.loop.names[0];
      assert nm.listed(name);
      assert name in s.dir ==> GoodFile(nm, s, name);
      assert AllIn(Read(s.dir, name), s.published);
    } else if s.loop.Asleep? {
      var names := Sorted(ListedNames(nm, s.dir));
      forall i | 0 <= i < |names|
        ensures nm.listed(names[i])
      {
        assert names[i] in names;
      }
    }
  }

  lemma {:induction false} FlushGood(nm: Naming, ids: iset<string>, s: State, e: Event)
    requires Inv(nm, ids, s) && (s.loop.Flushing? || s.loop.Removing?)
    ensures LoopGood(LoopStep(nm, s, e)) && LoopStep(nm, s, e).accepted <= s.reported
  {
  }

  lemma {:induction false} LoopKeeps(nm: Naming, ids: iset<string>, s: State, e: Event)
    requires ValidNaming(nm) && Injective(nm, ids) && Inv(nm, ids, s)
    ensures Inv(nm, ids, LoopStep(nm, s, e))
  {
    if s.loop.Asleep? || s.loop.Scanning? {
      ScanGood(nm, ids, s, e);
      UnlistedChange(nm, s, LoopStep(nm, s, e));
    } else {
      FlushGood(nm, ids, s, e);
      FlushFilesGood(nm, ids, s, e);
    }
  }

  lemma {:induction false} FlushFilesGood(nm: Naming, ids: iset<string>, s: State, e: Event)
    requires ValidNaming(nm) && Injective(nm, ids) && Inv(nm, ids, s) && (s.loop.Flushing? || s.loop.Removing?)
    ensures var t := LoopStep(nm, s, e); FilesGood(nm, t) && AllKept(nm, t) && ExecGood(nm, t)
  {
    var t := LoopStep(nm, s, e);
    if s.loop.Removing? && e == FlushAcked(true) {
      Removal(nm, ids, s, t, s.loop.r);
      TmpSurvives(nm, s, t, s.loop.r);
    } else {
      UnlistedChange(nm, s, t);
    }
  }

  lemma {:induction false} TmpSurvives(nm: Naming, s: State, t: State, r: Report)
    requires ValidNaming(nm) && ExecGood(nm, s) && s.accepted == t.accepted && s.reported == t.reported
    requires t.exec == s.exec && t.dir == s.dir - {nm.file(r.cmdId)}
    ensures ExecGood(nm, t)
  {
  }

  lemma {:induction false} AfterKeeps(nm: Naming, ids: iset<string>, s: State, e: Event)
    requires ValidNaming(nm) && Injective(nm, ids) && Inv(nm, ids, s)
    requires e.Begin? || e.BeginFails? ==> e.r.cmdId in ids
    ensures Inv(nm, ids, After(nm, s, e))
  {
    if e.Crash? {
      UnlistedChange(nm, s, After(nm, s, e));
    } else {
      ExecKeeps(nm, ids, s, e);
      LoopKeeps(nm, ids, s, e);
    }
  }

  lemma {:induction false} FromAppend(nm: Naming, s: State, first: seq<Event>, second: seq<Event>)
    ensures From(nm, s, first + second) == From(nm, From(nm, s, first), second)
    decreases first
  {
    if first == [] {
      assert first + second == second;
    } else {
      FromAppend(nm, After(nm, s, first[0]), first[1..], second);
      assert (first + second)[1..] == first[1..] + second;
    }
  }

  lemma {:induction false} One(nm: Naming, s: State, e: Event)
    ensures From(nm, s, [e]) == After(nm, s, e)
  {
    assert [e][1..] == [];
  }

  lemma {:induction false} Cons(nm: Naming, s: State, e: Event, rest: seq<Event>)
    ensures From(nm, s, [e] + rest) == From(nm, After(nm, s, e), rest)
  {
    assert ([e] + rest)[1..] == rest;
  }

  lemma {:induction false} FromKeeps(nm: Naming, ids: iset<string>, s: State, run: seq<Event>)
    requires ValidNaming(nm) && Injective(nm, ids) && Inv(nm, ids, s) && Over(ids, run)
    ensures Inv(nm, ids, From(nm, s, run))
    decreases run
  {
    if run != [] {
      AfterKeeps(nm, ids, s, run[0]);
      FromKeeps(nm, ids, After(nm, s, run[0]), run[1..]);
    }
  }

  lemma {:induction false} RunKeeps(nm: Naming, ids: iset<string>, run: seq<Event>)
    requires ValidNaming(nm) && Injective(nm, ids) && Over(ids, run)
    ensures Inv(nm, ids, Final(nm, run))
  {
    FromKeeps(nm, ids, START, run);
  }

  /** A published file that disappears in a step was accepted before that step. */
  lemma {:induction false} RemovedOnlyAfterAcceptance(nm: Naming, ids: iset<string>, run: seq<Event>, e: Event,
            id: string)
    requires ValidNaming(nm) && Injective(nm, ids) && Over(ids, run + [e]) && id in ids
    requires OnDisk(nm, Final(nm, run), id) && !OnDisk(nm, Final(nm, run + [e]), id)
    ensures (e.ReportAcked? || e.FlushAcked?) && AcceptedId(Final(nm, run), id)
  {
    assert (run + [e])[|run|] == e && forall i | 0 <= i < |run| :: (run + [e])[i] == run[i];
    RunKeeps(nm, ids, run);
    var s := Final(nm, run);
    FromAppend(nm, START, run, [e]);
    One(nm, s, e);
    assert s.exec.Acking? ==> s.exec.r.cmdId in ids;
    assert s.loop.Removing? ==> s.loop.r.cmdId in ids;
  }

  // ---------------------------------------------------------------------------------------------
  // At-least-once delivery, and what it rests on.

  /** Report a result completely: write, publish, send without reaching the server. */
  function Unheard(r: Report): seq<Event> {
    [Begin(r)] + ([WriteDone] + ([RenameDone] + [ReportSent(false, false)]))
  }

  lemma {:induction false} UnheardRun(nm: Naming, s: State, r: Report)
    requires ValidNaming(nm) && s.exec.Idle?
    ensures From(nm, s, Unheard(r)) ==
            s.(dir := (s.dir - {nm.tmp(r.cmdId)})[nm.file(r.cmdId) := Record(r)],
               reported := s.reported + {r}, published := s.published + {r},
               latest := s.latest[r.cmdId := r], overtaken := s.overtaken - {r.cmdId})
  {
    var tmp, file := nm.tmp(r.cmdId), nm.file(r.cmdId);
    var s1 := s.(dir := s.dir[tmp := Junk], exec := Writing(r), reported := s.reported + {r});
    var s2 := s1.(dir := s1.dir[tmp := Record(r)], exec := Written(r));
    var s3 := s2.(dir := (s2.dir - {tmp})[file := Record(r)], exec := Sending(r), published := s.published + {r},
                  latest := s.latest[r.cmdId := r], overtaken := s.overtaken - {r.cmdId});
    Cons(nm, s, Begin(r), [WriteDone] + ([RenameDone] + [ReportSent(false, false)]));
    Cons(nm, s1, WriteDone, [RenameDone] + [ReportSent(false, false)]);
    Cons(nm, s2, RenameDone, [ReportSent(false, false)]);
    One(nm, s3, ReportSent(false, false));
    assert s2.dir - {tmp} == s.dir - {tmp};
  }

  lemma {:induction false} Collision(nm: Naming, a: Report, b: Report) returns (run: seq<Event>)
    requires ValidNaming(nm) && a.cmdId != b.cmdId && nm.file(a.cmdId) == nm.file(b.cmdId)
    ensures run == Unheard(a) + Unheard(b)
    ensures a in Final(nm, run).published && !Kept(nm, Final(nm, run), a.cmdId)
  {
    run := Unheard(a) + Unheard(b);
    FromAppend(nm, START, Unheard(a), Unheard(b));
    UnheardRun(nm, START, a);
    UnheardRun(nm, Final(nm, Unheard(a)), b);
  }

  /** In every run the id of every published result keeps its file until a result for it has been
      accepted, if and only if no two of the ids in use share a file name. */
  lemma {:induction false} AtLeastOnce(nm: Naming, ids: iset<string>)
    requires ValidNaming(nm)
    ensures Injective(nm, ids) <==> forall run | Over(ids, run) :: AllKept(nm, Final(nm, run))
  {
    if Injective(nm, ids) {
      forall run | Over(ids, run)
        ensures AllKept(nm, Final(nm, run))
      {
        RunKeeps(nm, ids, run);
      }
    } else {
      var a, b :| a in ids && b in ids && nm.file(a) == nm.file(b) && a != b;
      var none := Result(Done, "", 0, "", "");
      var run := Collision(nm, Report(a, none), Report(b, none));
      assert Over(ids, run);
      assert !AllKept(nm, Final(nm, run));
    }
  }

  /** Each id is reported with one result only. */
  /** If no id is reported twice, it is the result itself that is on disk or accepted. */
  lemma {:induction false} EachResultDelivered(nm: Naming, ids: iset<string>, run: seq<Event>, r: Report)
    requires ValidNaming(nm) && Injective(nm, ids) && Over(ids, run)
    requires var rs := Final(nm, run).reported; forall p, q | p in rs && q in rs && p.cmdId == q.cmdId :: p == q
    requires r in Final(nm, run).published
    ensures var s := Final(nm, run);
            r in s.accepted || (nm.file(r.cmdId) in s.dir && s.dir[nm.file(r.cmdId)] == Record(r))
  {
    RunKeeps(nm, ids, run);
    var s := Final(nm, run);
    assert Kept(nm, s, r.cmdId);
    if AcceptedId(s, r.cmdId) {
      var q: Report :| q in s.accepted && q.cmdId == r.cmdId;
      assert q == r;
    } else {
      assert GoodFile(nm, s, nm.file(r.cmdId));
    }
  }

  ghost predicate OverReports(rs: iset<Report>, run: seq<Event>) {
    forall i | 0 <= i < |run| && (run[i].Begin? || run[i].BeginFails?) :: run[i].r in rs
  }

  /** No two of the results that may be reported share a file. */
  ghost predicate OwnFiles(nm: Naming, rs: iset<Report>) {
    forall q: Report, r: Report | q in rs && r in rs && nm.file(q.cmdId) == nm.file(r.cmdId) :: q == r
  }

  ghost predicate Itself(nm: Naming, s: State, r: Report) {
    r in s.accepted || (nm.file(r.cmdId) in s.dir && s.dir[nm.file(r.cmdId)] == Record(r))
  }

  ghost predicate EachItself(nm: Naming, s: State) {
    forall r: Report | r in s.published :: Itself(nm, s, r)
  }

  lemma {:induction false} ReportedIsAllowed(nm: Naming, rs: iset<Report>, s: State, run: seq<Event>)
    requires OverReports(rs, run) && forall r: Report | r in s.reported :: r in rs
    ensures forall r: Report | r in From(nm, s, run).reported :: r in rs
    decreases run
  {
    if run != [] {
      ReportedIsAllowed(nm, rs, After(nm, s, run[0]), run[1..]);
    }
  }

  /** In every run each published result is itself accepted or on disk, if and only if no two of the
      results that may be reported share a file. */
  lemma {:induction false} EachResultDeliveredIff(nm: Naming, rs: iset<Report>)
    requires ValidNaming(nm)
    ensures OwnFiles(nm, rs) <==> forall run | OverReports(rs, run) :: EachItself(nm, Final(nm, run))
  {
    if OwnFiles(nm, rs) {
      forall run | OverReports(rs, run)
        ensures EachItself(nm, Final(nm, run))
      {
        OwnFilesDeliver(nm, rs, run);
      }
    } else {
      var a: Report, b: Report :| a in rs && b in rs && nm.file(a.cmdId) == nm.file(b.cmdId) && a != b;
      var run := Unheard(a) + Unheard(b);
      Overwritten(nm, a, b);
      assert OverReports(rs, run);
      assert !Itself(nm, Final(nm, run), a);
    }
  }

  lemma {:induction false} Overwritten(nm: Naming, a: Report, b: Report)
    requires ValidNaming(nm) && nm.file(a.cmdId) == nm.file(b.cmdId) && a != b
    ensures var s := Final(nm, Unheard(a) + Unheard(b)); a in s.published && !Itself(nm, s, a)
  {
    FromAppend(nm, START, Unheard(a), Unheard(b));
    UnheardRun(nm, START, a);
    UnheardRun(nm, Final(nm, Unheard(a)), b);
  }

  lemma {:induction false} OwnFilesDeliver(nm: Naming, rs: iset<Report>, run: seq<Event>)
    requires ValidNaming(nm) && OwnFiles(nm, rs) && OverReports(rs, run)
    ensures EachItself(nm, Final(nm, run))
  {
    var ids := iset r | r in rs :: r.cmdId;
    assert Over(ids, run);
    ReportedIsAllowed(nm, rs, START, run);
    forall r: Report | r in Final(nm, run).published
      ensures Itself(nm, Final(nm, run), r)
    {
      EachResultDelivered(nm, ids, run, r);
    }
  }

  /** When ids do not share file names, that condition says that no id has two results. */
  lemma {:induction false} OwnFilesIffOneResult(nm: Naming, rs: iset<Report>)
    requires Injective(nm, iset r | r in rs :: r.cmdId)
    ensures OwnFiles(nm, rs) <==> forall q: Report, r: Report | q in rs && r in rs && q.cmdId == r.cmdId :: q == r
  {
    forall q: Report, r: Report | q in rs && r in rs && nm.file(q.cmdId) == nm.file(r.cmdId)
      ensures q.cmdId == r.cmdId
    {
      var ids := iset r | r in rs :: r.cmdId;
      assert q.cmdId in ids && r.cmdId in ids;
    }
  }

  /** The last published result of every id is accepted or on disk, unless a result for the id that was
      reported after it has been accepted. */
  ghost predicate LatestSafe(nm: Naming, s: State) {
    forall id | id in s.latest :: id in s.overtaken || Itself(nm, s, s.latest[id])
  }

  /** A flush that scanned the older result, delivering it after the newer one was published. */
  function Overtaken(older: Report, newer: Report): seq<Event> {
    Unheard(older) +
    ([ScanStart] + ([ScanRead] + ([ScanRead] + (Unheard(newer) + ([FlushSent(true, true)] + [FlushAcked(true)])))))
  }

  /** Without that, a newer result for an id can vanish undelivered, although it was published after
      the older one: the flush removes the file by id, whatever the file holds by then. */
  lemma {:induction false} NewerResultCanBeLost(nm: Naming, older: Report, newer: Report)
    requires ValidNaming(nm) && older.cmdId == newer.cmdId != "" && older != newer
    ensures var s := Final(nm, Overtaken(older, newer));
            && newer in s.published && newer !in s.accepted && nm.file(newer.cmdId) !in s.dir
            && older in s.accepted && !LatestSafe(nm, s)
  {
    var file := nm.file(older.cmdId);
    var tail := [FlushSent(true, true)] + [FlushAcked(true)];
    var s1 := AloneOnDisk(nm, older);
    FromAppend(nm, START, Unheard(older), [ScanStart] + ([ScanRead] + ([ScanRead] + (Unheard(newer) + tail))));
    var s4 := ScannedAlone(nm, s1, file, Unheard(newer) + tail);
    FromAppend(nm, s4, Unheard(newer), tail);
    UnheardRun(nm, s4, newer);
    StaleDelivery(nm, From(nm, s4, Unheard(newer)), older);
    var t := Final(nm, Overtaken(older, newer));
    assert newer.cmdId in t.latest && t.latest[newer.cmdId] == newer && newer.cmdId !in t.overtaken;
  }

  lemma {:induction false} AloneOnDisk(nm: Naming, r: Report) returns (s: State)
    requires ValidNaming(nm)
    ensures s == Final(nm, Unheard(r)) == State(map[nm.file(r.cmdId) := Record(r)], Idle, Asleep, {r}, {r}, {},
                                                  map[r.cmdId := r], {})
  {
    s := Final(nm, Unheard(r));
    UnheardRun(nm, START, r);
    assert s.dir == map[nm.file(r.cmdId) := Record(r)];
  }

  lemma {:induction false} StaleDelivery(nm: Naming, s: State, older: Report)
    requires s.loop == Flushing([older])
    ensures var t := From(nm, s, [FlushSent(true, true)] + [FlushAcked(true)]);
            && t.dir == s.dir - {nm.file(older.cmdId)} && t.published == s.published
            && t.accepted == s.accepted + {older} && t.latest == s.latest && t.overtaken == s.overtaken
  {
    var s1 := s.(accepted := s.accepted + {older}, loop := Removing(older, []));
    assert [older][1..] == [];
    Cons(nm, s, FlushSent(true, true), [FlushAcked(true)]);
    One(nm, s1, FlushAcked(true));
  }

  lemma {:induction false} StartAlone(nm: Naming, s: State, file: string)
    requires s.loop.Asleep? && s.dir.Keys == {file} && nm.listed(file)
    ensures After(nm, s, ScanStart) == s.(loop := Scanning([file], []))
  {
    assert ListedNames(nm, s.dir) == {file};
    SortedSingle(file);
  }

  lemma {:induction false} ScannedAlone(nm: Naming, s: State, file: string, rest: seq<Event>) returns (t: State)
    requires s.loop.Asleep? && s.dir.Keys == {file} && nm.listed(file)
    ensures t == s.(loop := Flushing(Read(s.dir, file)))
    ensures From(nm, s, [ScanStart] + ([ScanRead] + ([ScanRead] + rest))) == From(nm, t, rest)
  {
    StartAlone(nm, s, file);
    t := s.(loop := Flushing(Read(s.dir, file)));
    var s1 := s.(loop := Scanning([file], []));
    var s2 := s.(loop := Scanning([], Read(s.dir, file)));
    Cons(nm, s, ScanStart, [ScanRead] + ([ScanRead] + rest));
    Cons(nm, s1, ScanRead, [ScanRead] + rest);
    Cons(nm, s2, ScanRead, rest);
    assert [file][1..] == [];
    assert [] + Read(s.dir, file) == Read(s.dir, file);
  }

  /** No id that a scan reads back may be reported with two results. */
  ghost predicate OneResultEach(rs: iset<Report>) {
    forall q: Report, r: Report | q in rs && r in rs && q.cmdId == r.cmdId != "" :: q == r
  }

  ghost function IdsOf(rs: iset<Report>): iset<string> {
    iset r | r in rs :: r.cmdId
  }

  ghost predicate HaveIds(rs: seq<Report>) {
    forall i | 0 <= i < |rs| :: rs[i].cmdId != ""
  }

  /** The retry loop only ever holds results with an id. */
  ghost predicate LoopHasIds(s: State) {
    match s.loop
    case Asleep => true
    case Scanning(_, got) => HaveIds(got)
    case Flushing(todo) => HaveIds(todo)
    case Removing(r, todo) => r.cmdId != "" && HaveIds(todo) && r in s.published
  }

  ghost predicate LatestKnown(s: State) {
    && (forall id | id in s.latest :: s.latest[id].cmdId == id && s.latest[id] in s.published)
    && (s.exec.Acking? && s.exec.r.cmdId in s.latest ==> s.exec.r.cmdId in s.overtaken)
  }

  ghost predicate LatestInv(nm: Naming, rs: iset<Report>, s: State) {
    && Inv(nm, IdsOf(rs), s) && (forall r: Report | r in s.reported :: r in rs)
    && LoopHasIds(s) && LatestKnown(s) && LatestSafe(nm, s)
  }

  lemma {:induction false} LatestUnlisted(nm: Naming, s: State, t: State)
    requires ValidNaming(nm) && SameListed(nm, s, t) && LatestSafe(nm, s)
    requires t.latest == s.latest && s.overtaken <= t.overtaken
    ensures LatestSafe(nm, t)
  {
    forall id | id in t.latest
      ensures id in t.overtaken || Itself(nm, t, t.latest[id])
    {
      assert id in s.overtaken || Itself(nm, s, s.latest[id]);
    }
  }

  /** Removing one id's file is harmless if its last published result is accepted or overtaken. */
  lemma {:induction false} LatestRemoval(nm: Naming, rs: iset<Report>, s: State, t: State, id: string)
    requires Injective(nm, IdsOf(rs)) && LatestInv(nm, rs, s) && id in IdsOf(rs)
    requires id in s.latest ==> id in s.overtaken || s.latest[id] in s.accepted
    requires t.dir == s.dir - {nm.file(id)} && t.latest == s.latest && t.overtaken == s.overtaken
    requires t.accepted == s.accepted
    ensures LatestSafe(nm, t)
  {
    forall other | other in t.latest
      ensures other in t.overtaken || Itself(nm, t, t.latest[other])
    {
      assert other in s.overtaken || Itself(nm, s, s.latest[other]);
      assert other in IdsOf(rs) by {
        assert s.latest[other] in rs;
      }
    }
  }

  lemma {:induction false} LatestPublication(nm: Naming, rs: iset<Report>, s: State, t: State, r: Report)
    requires ValidNaming(nm) && Injective(nm, IdsOf(rs)) && LatestInv(nm, rs, s) && r in rs
    requires t.dir == (s.dir - {nm.tmp(r.cmdId)})[nm.file(r.cmdId) := Record(r)]
    requires t.latest == s.latest[r.cmdId := r] && t.overtaken == s.overtaken - {r.cmdId}
    requires t.accepted == s.accepted
    ensures LatestSafe(nm, t)
  {
    assert r.cmdId in IdsOf(rs);
    forall other | other in t.latest
      ensures other in t.overtaken || Itself(nm, t, t.latest[other])
    {
      if other != r.cmdId {
        assert other in s.overtaken || Itself(nm, s, s.latest[other]);
        assert other in IdsOf(rs) by {
          assert s.latest[other] in rs;
        }
      }
    }
  }

  lemma {:induction false} LatestExec(nm: Naming, rs: iset<Report>, s: State, e: Event)
    requires ValidNaming(nm) && Injective(nm, IdsOf(rs)) && LatestInv(nm, rs, s)
    requires e.Begin? || e.BeginFails? ==> e.r in rs
    ensures LatestSafe(nm, ExecStep(nm, s, e))
  {
    var t := ExecStep(nm, s, e);
    if !ChangesFiles(s, e) {
      ExecSame(nm, s, e);
      LatestUnlisted(nm, s, t);
    } else if s.exec.Written? {
      LatestPublication(nm, rs, s, t, s.exec.r);
    } else {
      assert s.exec.r in rs && s.exec.r.cmdId in IdsOf(rs);
      LatestRemoval(nm, rs, s, t, s.exec.r.cmdId);
    }
  }

  lemma {:induction false} ExecKnowsLatest(nm: Naming, s: State, e: Event)
    requires LatestKnown(s)
    ensures LatestKnown(ExecStep(nm, s, e))
  {
  }

  lemma {:induction false} LoopKnowsLatest(nm: Naming, s: State, e: Event)
    requires LatestKnown(s)
    ensures LatestKnown(LoopStep(nm, s, e))
  {
  }

  lemma {:induction false} LatestLoop(nm: Naming, rs: iset<Report>, s: State, e: Event)
    requires ValidNaming(nm) && Injective(nm, IdsOf(rs)) && OneResultEach(rs) && LatestInv(nm, rs, s)
    ensures LatestSafe(nm, LoopStep(nm, s, e))
  {
    var t := LoopStep(nm, s, e);
    if s.loop.Removing? && e == FlushAcked(true) {
      RemovedIsLatest(nm, rs, s);
      LatestRemoval(nm, rs, s, t, s.loop.r.cmdId);
    } else {
      LoopSame(nm, s, e);
      LatestUnlisted(nm, s, t);
    }
  }

  lemma {:induction false} LoopSame(nm: Naming, s: State, e: Event)
    requires !(s.loop.Removing? && e == FlushAcked(true))
    ensures var t := LoopStep(nm, s, e);
            && t.dir == s.dir && t.published == s.published && s.accepted <= t.accepted
            && t.latest == s.latest && t.overtaken == s.overtaken
  {
  }

  lemma {:induction false} RemovedIsLatest(nm: Naming, rs: iset<Report>, s: State)
    requires OneResultEach(rs) && LatestInv(nm, rs, s) && s.loop.Removing?
    ensures s.loop.r.cmdId in IdsOf(rs) && s.loop.r in s.accepted
    ensures s.loop.r.cmdId in s.latest ==> s.latest[s.loop.r.cmdId] == s.loop.r
  {
    assert s.loop.r in rs;
    if s.loop.r.cmdId in s.latest {
      assert s.latest[s.loop.r.cmdId] in rs;
    }
  }

  lemma {:induction false} LoopKeepsIds(nm: Naming, rs: iset<Report>, s: State, e: Event)
    requires LatestInv(nm, rs, s)
    ensures LoopHasIds(LoopStep(nm, s, e))
  {
    if s.loop.Scanning? && s.loop.names != [] {
      assert HaveIds(Read(s.dir, s.loop.names[0]));
    }
  }

  lemma {:induction false} LatestKeepsExec(nm: Naming, rs: iset<Report>, s: State, e: Event)
    requires ValidNaming(nm) && Injective(nm, IdsOf(rs)) && LatestInv(nm, rs, s)
    requires e.Begin? || e.BeginFails? ==> e.r in rs
    ensures LatestInv(nm, rs, ExecStep(nm, s, e))
  {
    assert e.Begin? || e.BeginFails? ==> e.r.cmdId in IdsOf(rs);
    ExecKeeps(nm, IdsOf(rs), s, e);
    LatestExec(nm, rs, s, e);
    ExecKnowsLatest(nm, s, e);
  }

  lemma {:induction false} LatestKeepsLoop(nm: Naming, rs: iset<Report>, s: State, e: Event)
    requires ValidNaming(nm) && Injective(nm, IdsOf(rs)) && OneResultEach(rs) && LatestInv(nm, rs, s)
    ensures LatestInv(nm, rs, LoopStep(nm, s, e))
  {
    LoopKeeps(nm, IdsOf(rs), s, e);
    LatestLoop(nm, rs, s, e);
    LoopKnowsLatest(nm, s, e);
    LoopKeepsIds(nm, rs, s, e);
  }

  lemma {:induction false} LatestKeeps(nm: Naming, rs: iset<Report>, s: State, e: Event)
    requires ValidNaming(nm) && Injective(nm, IdsOf(rs)) && OneResultEach(rs) && LatestInv(nm, rs, s)
    requires e.Begin? || e.BeginFails? ==> e.r in rs
    ensures LatestInv(nm, rs, After(nm, s, e))
  {
    if e.Crash? {
      AfterKeeps(nm, IdsOf(rs), s, e);
      LatestUnlisted(nm, s, After(nm, s, e));
    } else {
      LatestKeepsExec(nm, rs, s, e);
      LatestKeepsLoop(nm, rs, s, e);
    }
  }

  lemma {:induction false} LatestRun(nm: Naming, rs: iset<Report>, s: State, run: seq<Event>)
    requires ValidNaming(nm) && Injective(nm, IdsOf(rs)) && OneResultEach(rs) && LatestInv(nm, rs, s)
    requires OverReports(rs, run)
    ensures LatestInv(nm, rs, From(nm, s, run))
    decreases run
  {
    if run != [] {
      LatestKeeps(nm, rs, s, run[0]);
      LatestRun(nm, rs, After(nm, s, run[0]), run[1..]);
    }
  }

  /** In every run the newest outcome of every id survives, if and only if no id that is not empty may
      be reported with two results. (An empty id is never read back, so no flush removes its file.) */
  lemma {:induction false} NewestSurvivesIff(nm: Naming, rs: iset<Report>)
    requires ValidNaming(nm) && Injective(nm, IdsOf(rs))
    ensures OneResultEach(rs) <==> forall run | OverReports(rs, run) :: LatestSafe(nm, Final(nm, run))
  {
    if OneResultEach(rs) {
      forall run | OverReports(rs, run)
        ensures LatestSafe(nm, Final(nm, run))
      {
        LatestRun(nm, rs, START, run);
      }
    } else {
      var a: Report, b: Report :| a in rs && b in rs && a.cmdId == b.cmdId != "" && a != b;
      NewerResultCanBeLost(nm, a, b);
      OvertakenIsOver(rs, a, b);
      assert !LatestSafe(nm, Final(nm, Overtaken(a, b)));
    }
  }

  lemma {:induction false} OvertakenIsOver(rs: iset<Report>, a: Report, b: Report)
    requires a in rs && b in rs
    ensures OverReports(rs, Overtaken(a, b))
  {
    var run := Overtaken(a, b);
    assert |run| == 13;
    assert forall i | 0 <= i < |run| && (run[i].Begin? || run[i].BeginFails?) ::
        run[i] == Begin(a) || run[i] == Begin(b);
  }

  // ---------------------------------------------------------------------------------------------
  // Nothing is stranded: from every reachable state, after a restart, one flush delivers the rest.

  function ReadAll(d: Directory, names: seq<string>): seq<Report> {
    if names == [] then [] else Read(d, names[0]) + ReadAll(d, names[1..])
  }

  lemma {:induction false} ReadAllHas(d: Directory, names: seq<string>, i: nat)
    requires i < |names|
    ensures forall r | r in Read(d, names[i]) :: r in ReadAll(d, names)
  {
    if i > 0 {
      ReadAllHas(d, names[1..], i - 1);
    }
  }

  lemma {:induction false} FinishScan(nm: Naming, s: State) returns (more: seq<Event>)
    requires s.loop.Scanning?
    ensures From(nm, s, more) == s.(loop := Flushing(s.loop.got + ReadAll(s.dir, s.loop.names)))
    decreases if s.loop.Scanning? then |s.loop.names| else 0
  {
    var names, got := s.loop.names, s.loop.got;
    if names == [] {
      more := [ScanRead];
      One(nm, s, ScanRead);
      assert got + [] == got;
    } else {
      var t := s.(loop := Scanning(names[1..], got + Read(s.dir, names[0])));
      var rest := FinishScan(nm, t);
      more := [ScanRead] + rest;
      Cons(nm, s, ScanRead, rest);
      assert got + Read(s.dir, names[0]) + ReadAll(s.dir, names[1..]) ==
             got + (Read(s.dir, names[0]) + ReadAll(s.dir, names[1..]));
    }
  }

  ghost function FilesOf(nm: Naming, todo: seq<Report>): set<string> {
    set i | 0 <= i < |todo| :: nm.file(todo[i].cmdId)
  }

  lemma {:induction false} FinishOne(nm: Naming, s: State) returns (t: State)
    requires s.loop.Flushing? && s.loop.todo != []
    ensures var r := s.loop.todo[0];
            && From(nm, s, [FlushSent(true, true)] + [FlushAcked(true)]) == t
            && t.loop == Flushing(s.loop.todo[1..]) && t.accepted == s.accepted + {r}
            && t.dir == s.dir - {nm.file(r.cmdId)} && t.published == s.published
  {
    var s1 := After(nm, s, FlushSent(true, true));
    t := After(nm, s1, FlushAcked(true));
    Cons(nm, s, FlushSent(true, true), [FlushAcked(true)]);
    One(nm, s1, FlushAcked(true));
  }

  lemma {:induction false} FinishFlush(nm: Naming, s: State) returns (more: seq<Event>)
    requires s.loop.Flushing?
    ensures var t := From(nm, s, more);
            && t.accepted == s.accepted + (set r | r in s.loop.todo)
            && t.dir == s.dir - FilesOf(nm, s.loop.todo)
            && t.published == s.published
    decreases if s.loop.Flushing? then |s.loop.todo| else 0
  {
    var todo := s.loop.todo;
    if todo == [] {
      more := [];
    } else {
      var t := FinishOne(nm, s);
      var rest := FinishFlush(nm, t);
      more := ([FlushSent(true, true)] + [FlushAcked(true)]) + rest;
      FromAppend(nm, s, [FlushSent(true, true)] + [FlushAcked(true)], rest);
      assert todo == [todo[0]] + todo[1..];
      FilesOfCons(nm, todo);
    }
  }

  lemma {:induction false} FilesOfCons(nm: Naming, todo: seq<Report>)
    requires todo != []
    ensures FilesOf(nm, todo) == {nm.file(todo[0].cmdId)} + FilesOf(nm, todo[1..])
  {
    forall x | x in FilesOf(nm, todo)
      ensures x in {nm.file(todo[0].cmdId)} + FilesOf(nm, todo[1..])
    {
      var i :| 0 <= i < |todo| && x == nm.file(todo[i].cmdId);
      assert i > 0 ==> todo[1..][i - 1] == todo[i];
    }
    forall x | x in FilesOf(nm, todo[1..])
      ensures x in FilesOf(nm, todo)
    {
      var i :| 0 <= i < |todo[1..]| && x == nm.file(todo[1..][i].cmdId);
      assert todo[i + 1] == todo[1..][i];
    }
  }

  lemma {:induction false} FilesOfHas(nm: Naming, todo: seq<Report>, r: Report)
    ensures r in todo ==> nm.file(r.cmdId) in FilesOf(nm, todo)
  {
    if r in todo {
      var i :| 0 <= i < |todo| && todo[i] == r;
      assert nm.file(todo[i].cmdId) in FilesOf(nm, todo);
    }
  }

  /** A restart and one flush to a server that answers: the events, and where they lead. */
  lemma {:induction false} RestartAndFlush(nm: Naming, s: State) returns (more: seq<Event>, todo: seq<Report>)
    ensures todo == ReadAll(s.dir, Sorted(ListedNames(nm, s.dir)))
    ensures var t := From(nm, s, more);
            && t.accepted == s.accepted + (set r | r in todo)
            && t.dir == s.dir - FilesOf(nm, todo) && t.published == s.published
  {
    var names := Sorted(ListedNames(nm, s.dir));
    todo := ReadAll(s.dir, names);
    var s1 := s.(exec := Idle, loop := Asleep);
    var s2 := s1.(loop := Scanning(names, []));
    var scan := FinishScan(nm, s2);
    assert [] + todo == todo;
    var s3 := s2.(loop := Flushing(todo));
    var flush := FinishFlush(nm, s3);
    more := [Crash] + ([ScanStart] + (scan + flush));
    Cons(nm, s, Crash, [ScanStart] + (scan + flush));
    Cons(nm, s1, ScanStart, scan + flush);
    FromAppend(nm, s2, scan, flush);
  }

  lemma {:induction false} OnDiskIsRead(nm: Naming, s: State, id: string)
    requires ValidNaming(nm) && OnDisk(nm, s, id) && id != ""
    ensures s.dir[nm.file(id)].report in ReadAll(s.dir, Sorted(ListedNames(nm, s.dir)))
  {
    var names := Sorted(ListedNames(nm, s.dir));
    assert nm.file(id) in names;
    var i :| 0 <= i < |names| && names[i] == nm.file(id);
    ReadAllHas(s.dir, names, i);
    assert s.dir[nm.file(id)].report in Read(s.dir, names[i]);
  }

  /** Every run extends to one in which each published result with an id has had a result for that
      id accepted and no file that a scan would report is left. An empty id is never read back. */
  lemma {:induction false} NothingStranded(nm: Naming, ids: iset<string>, run: seq<Event>) returns (more: seq<Event>)
    requires ValidNaming(nm) && Injective(nm, ids) && Over(ids, run)
    ensures var t := Final(nm, run + more);
            && (forall r: Report | r in t.published && r.cmdId != "" :: AcceptedId(t, r.cmdId))
            && forall n | n in t.dir && nm.listed(n) :: t.dir[n].Record? && t.dir[n].report.cmdId == ""
  {
    RunKeeps(nm, ids, run);
    var s := Final(nm, run);
    var todo;
    more, todo := RestartAndFlush(nm, s);
    FromAppend(nm, START, run, more);
    var t := From(nm, s, more);
    forall r: Report | r in t.published && r.cmdId != ""
      ensures AcceptedId(t, r.cmdId)
    {
      assert Kept(nm, s, r.cmdId);
      if AcceptedId(s, r.cmdId) {
        AcceptedStays(s, t, r.cmdId);
      } else {
        OnDiskIsRead(nm, s, r.cmdId);
        assert s.dir[nm.file(r.cmdId)].report in t.accepted;
      }
    }
    forall n | n in t.dir && nm.listed(n)
      ensures t.dir[n].Record? && t.dir[n].report.cmdId == ""
    {
      assert GoodFile(nm, s, n);
      var r := s.dir[n].report;
      if r.cmdId != "" {
        OnDiskIsRead(nm, s, r.cmdId);
        FilesOfHas(nm, todo, r);
      }
    }
  }

  // ---------------------------------------------------------------------------------------------
  // The names the outbox uses.

  const NAMING := Naming(FileOf, TmpOf, Listed)

  /** Ids inside the alphabet are told apart, so for them the protocol delivers at least once. */
  lemma {:induction false} AlphabetDelivers(ids: iset<string>)
    requires forall id | id in ids :: InAlphabet(id)
    ensures ValidNaming(NAMING) && Injective(NAMING, ids)
    ensures forall run | Over(ids, run) :: AllKept(NAMING, Final(NAMING, run))
  {
    OutboxNaming();
    forall a, b | a in ids && b in ids && NAMING.file(a) == NAMING.file(b)
      ensures a == b
    {
      NamesDoNotMix(a, b);
      SafeNames(a, b);
      SafeNames(b, a);
    }
    AtLeastOnce(NAMING, ids);
  }

  lemma {:induction false} OutboxNaming()
    ensures ValidNaming(NAMING)
  {
    forall a, b
      ensures NAMING.file(a) != NAMING.tmp(b) && NAMING.listed(NAMING.file(a)) && !NAMING.listed(NAMING.tmp(b))
    {
      NamesDoNotMix(a, b);
    }
  }

  // ---------------------------------------------------------------------------------------------
  // Undisturbed, the steps amount to the outbox's own operations.

  /** A report that is written, published and not heard is an enqueue. */
  lemma {:induction false} ReportIsEnqueue(s: State, r: Report)
    requires s.exec.Idle?
    ensures From(NAMING, s, Unheard(r)).dir == Enqueued(s.dir, r)
  {
    OutboxNaming();
    UnheardRun(NAMING, s, r);
    var tmp := TmpOf(r.cmdId);
    assert s.dir[tmp := Record(r)] - {tmp} == s.dir - {tmp};
  }

  /** The report's temporary file has been opened, or written as well. */
  ghost function Opened(s: State, r: Report): State {
    s.(dir := s.dir[TmpOf(r.cmdId) := Junk], exec := Writing(r), reported := s.reported + {r})
  }

  ghost function Filled(s: State, r: Report): State {
    s.(dir := s.dir[TmpOf(r.cmdId) := Record(r)], exec := Written(r), reported := s.reported + {r})
  }

  lemma {:induction false} StoringSteps(s: State, r: Report, rest: seq<Event>)
    requires s.exec.Idle?
    ensures From(NAMING, s, [Begin(r)] + rest) == From(NAMING, Opened(s, r), rest)
    ensures From(NAMING, s, [Begin(r)] + ([WriteDone] + rest)) == From(NAMING, Filled(s, r), rest)
  {
    Cons(NAMING, s, Begin(r), rest);
    Cons(NAMING, s, Begin(r), [WriteDone] + rest);
    Cons(NAMING, Opened(s, r), WriteDone, rest);
    assert After(NAMING, Opened(s, r), WriteDone) == Filled(s, r) by {
      assert Opened(s, r).dir[TmpOf(r.cmdId) := Record(r)] == s.dir[TmpOf(r.cmdId) := Record(r)];
    }
  }

  lemma {:induction false} NotStored(s: State, r: Report, run: seq<Event>)
    requires s.exec.Idle?
    requires run == [BeginFails(r)] || run == [Begin(r)] + [WriteFails] ||
             run == [Begin(r)] + ([WriteDone] + [RenameFails])
    ensures var t := From(NAMING, s, run);
            && t == s.(dir := t.dir, exec := Sending(r), reported := s.reported + {r})
            && Contents(t.dir) == Contents(s.dir)
  {
    if run == [BeginFails(r)] {
      One(NAMING, s, BeginFails(r));
    } else if run == [Begin(r)] + [WriteFails] {
      TmpIsInvisible(s.dir, r.cmdId, Junk);
      StoringSteps(s, r, [WriteFails]);
      One(NAMING, Opened(s, r), WriteFails);
    } else {
      TmpIsInvisible(s.dir, r.cmdId, Record(r));
      StoringSteps(s, r, [RenameFails]);
      One(NAMING, Filled(s, r), RenameFails);
    }
  }

  /** A result that could not be stored is sent all the same, once: it is accepted if the server applies
      it, and what the outbox holds changes only if the server answers, which removes the id's file. */
  lemma {:induction false} UnstoredIsSent(s: State, r: Report, run: seq<Event>, applied: bool, acked: bool)
    requires s.exec.Idle?
    requires run == [BeginFails(r)] || run == [Begin(r)] + [WriteFails] ||
             run == [Begin(r)] + ([WriteDone] + [RenameFails])
    ensures var t := From(NAMING, s, run + ([ReportSent(applied, acked)] + [ReportAcked(true)]));
            && t.exec.Idle? && t.published == s.published
            && t.accepted == (if applied || acked then s.accepted + {r} else s.accepted)
            && Contents(t.dir) == if acked then Contents(s.dir) - {FileOf(r.cmdId)} else Contents(s.dir)
  {
    NotStored(s, r, run);
    var t := From(NAMING, s, run);
    var sent := After(NAMING, t, ReportSent(applied, acked));
    FromAppend(NAMING, s, run, [ReportSent(applied, acked)] + [ReportAcked(true)]);
    Cons(NAMING, t, ReportSent(applied, acked), [ReportAcked(true)]);
    One(NAMING, sent, ReportAcked(true));
    AckIsRemoval(t.dir, r.cmdId);
  }

  /** A crash while a report is being stored: the disk keeps all that was published before, and the
      report only if it was renamed; both goroutines start over and nothing is sent. */
  lemma {:induction false} CrashWhileStoring(s: State, r: Report, run: seq<Event>)
    requires s.exec.Idle? && WellNamed(s.dir) && r.cmdId != ""
    requires run == [Begin(r)] || run == [Begin(r)] + [WriteDone] || run == [Begin(r)] + ([WriteDone] + [RenameDone])
    ensures var t := From(NAMING, s, run + [Crash]);
            && t.exec.Idle? && t.loop.Asleep? && t.accepted == s.accepted
            && Contents(t.dir) == if |run| == 3 then Contents(s.dir)[FileOf(r.cmdId) := r] else Contents(s.dir)
  {
    TmpIsInvisible(s.dir, r.cmdId, Junk);
    TmpIsInvisible(s.dir, r.cmdId, Record(r));
    EnqueueIsUpdate(s.dir, r);
    FromAppend(NAMING, s, run, [Crash]);
    One(NAMING, From(NAMING, s, run), Crash);
    if run == [Begin(r)] {
      One(NAMING, s, Begin(r));
    } else if run == [Begin(r)] + [WriteDone] {
      StoringSteps(s, r, []);
      assert [WriteDone] + [] == [WriteDone];
    } else {
      StoringSteps(s, r, [RenameDone]);
      One(NAMING, Filled(s, r), RenameDone);
    }
  }

  function ListedOnly(names: seq<string>): seq<string> {
    if names == [] then []
    else ListedOnly(names[..|names| - 1]) + if Listed(names[|names| - 1]) then [names[|names| - 1]] else []
  }

  lemma {:induction false} ListedOnlyHas(names: seq<string>)
    ensures forall n :: n in ListedOnly(names) <==> n in names && Listed(n)
  {
    if names != [] {
      assert names == names[..|names| - 1] + [names[|names| - 1]];
      ListedOnlyHas(names[..|names| - 1]);
    }
  }

  lemma {:induction false} ListedOnlyPending(d: Directory, names: seq<string>)
    ensures PendingIn(d, ListedOnly(names)) == PendingIn(d, names)
  {
    if names != [] {
      var init, last := names[..|names| - 1], names[|names| - 1];
      assert names == init + [last];
      ListedOnlyPending(d, init);
      OneMoreName(d, ListedOnly(init), last);
      OneMoreName(d, init, last);
      assert ListedOnly(names) == if Listed(last) then ListedOnly(init) + [last] else ListedOnly(init);
    }
  }

  lemma {:induction false} ListedOnlyIncreases(names: seq<string>)
    requires Increasing(names)
    ensures Increasing(ListedOnly(names))
  {
    if names != [] {
      var init, last := names[..|names| - 1], names[|names| - 1];
      ListedOnlyIncreases(init);
      ListedOnlyHas(init);
      var kept := ListedOnly(init);
      forall i | 0 <= i < |kept|
        ensures Leq(kept[i], last) && kept[i] != last
      {
        assert kept[i] in init;
        var j :| 0 <= j < |init| && init[j] == kept[i];
        assert names[j] == init[j];
      }
    }
  }

  lemma {:induction false} ReadAllIsPendingIn(d: Directory, names: seq<string>)
    requires forall n | n in names :: n in d && Listed(n)
    ensures ReadAll(d, names) == PendingIn(d, names)
  {
    if names != [] {
      var init, last := names[..|names| - 1], names[|names| - 1];
      assert names == init + [last];
      ReadAllIsPendingIn(d, init);
      ReadAllLast(d, init, last);
    }
  }

  lemma {:induction false} ReadAllLast(d: Directory, names: seq<string>, last: string)
    ensures ReadAll(d, names + [last]) == ReadAll(d, names) + Read(d, last)
  {
    if names == [] {
      assert [last][1..] == [] && names + [last] == [last];
    } else {
      var tail := names[1..];
      ReadAllLast(d, tail, last);
      assert (names + [last])[1..] == tail + [last];
      assert Read(d, names[0]) + (ReadAll(d, tail) + Read(d, last)) ==
             Read(d, names[0]) + ReadAll(d, tail) + Read(d, last);
    }
  }

  /** A scan nobody disturbs reads what pending lists, in its order. */
  lemma {:induction false} ScanIsPending(d: Directory)
    ensures ReadAll(d, Sorted(ListedNames(NAMING, d))) == Pending(d)
  {
    var names, all := Sorted(ListedNames(NAMING, d)), Sorted(d.Keys);
    ListedOnlyHas(all);
    ListedOnlyPending(d, all);
    ListedOnlyIncreases(all);
    IncreasingUnique(names, ListedOnly(all));
    ReadAllIsPendingIn(d, names);
  }

  /** Deliver the rest of a snapshot with the given answers, from record i on. */
  lemma {:induction false} DeliverRest(s: State, d: Directory, snapshot: seq<Report>, a: Answers, i: nat)
    returns (more: seq<Event>)
    requires i <= |snapshot| && s.loop == Flushing(snapshot[i..])
    requires !Flushed(d, snapshot, a, i).stopped && s.dir == Flushed(d, snapshot, a, i).dir
    ensures From(NAMING, s, more).dir == Flushed(d, snapshot, a, |snapshot|).dir
    ensures From(NAMING, s, more).loop.Asleep?
    decreases |snapshot| - i
  {
    if i == |snapshot| || !a.live(i) {
      more := [FlushStop];
      One(NAMING, s, FlushStop);
      if i < |snapshot| {
        StopsAt(d, snapshot, a, i);
      }
    } else {
      OneMoreDelivered(d, snapshot, a, i);
      var first, t := DeliverOne(s, snapshot, a, i);
      var rest := DeliverRest(t, d, snapshot, a, i + 1);
      more := first + rest;
      FromAppend(NAMING, s, first, rest);
    }
  }

  /** One record: sent, and removed if it was accepted and the removal works. */
  lemma {:induction false} DeliverOne(s: State, snapshot: seq<Report>, a: Answers, i: nat)
    returns (more: seq<Event>, t: State)
    requires i < |snapshot| && s.loop == Flushing(snapshot[i..])
    ensures From(NAMING, s, more) == t && t.loop == Flushing(snapshot[i + 1..])
    ensures t.dir == if a.accepts(i) && a.removes(i) then Acked(s.dir, snapshot[i].cmdId) else s.dir
  {
    var todo := snapshot[i..];
    assert todo[0] == snapshot[i] && todo[1..] == snapshot[i + 1..];
    if a.accepts(i) {
      var s1 := After(NAMING, s, FlushSent(true, true));
      t := After(NAMING, s1, FlushAcked(a.removes(i)));
      more := [FlushSent(true, true)] + [FlushAcked(a.removes(i))];
      Cons(NAMING, s, FlushSent(true, true), [FlushAcked(a.removes(i))]);
      One(NAMING, s1, FlushAcked(a.removes(i)));
    } else {
      t := After(NAMING, s, FlushSent(false, false));
      more := [FlushSent(false, false)];
      One(NAMING, s, FlushSent(false, false));
    }
  }

  lemma {:induction false} ScanFrom(nm: Naming, s: State, names: seq<string>) returns (scan: seq<Event>)
    requires s.loop.Asleep? && names == Sorted(ListedNames(nm, s.dir))
    ensures From(nm, s, scan) == s.(loop := Flushing(ReadAll(s.dir, names)))
  {
    var s1 := s.(loop := Scanning(names, []));
    assert [] + ReadAll(s.dir, names) == ReadAll(s.dir, names);
    var rest := FinishScan(nm, s1);
    Cons(nm, s, ScanStart, rest);
    scan := [ScanStart] + rest;
  }

  lemma {:induction false} UndisturbedScan(s: State) returns (scan: seq<Event>)
    requires s.loop.Asleep?
    ensures From(NAMING, s, scan) == s.(loop := Flushing(Pending(s.dir)))
  {
    var names := Sorted(ListedNames(NAMING, s.dir));
    ScanIsPending(s.dir);
    scan := ScanFrom(NAMING, s, names);
  }

  /** A flush nobody disturbs, whatever its answers are, is the outbox's flush. */
  lemma {:induction false} UndisturbedFlush(s: State, a: Answers) returns (more: seq<Event>)
    requires s.loop.Asleep?
    ensures From(NAMING, s, more).dir == Flushed(s.dir, Pending(s.dir), a, |Pending(s.dir)|).dir
    ensures From(NAMING, s, more).loop.Asleep?
  {
    var scan := UndisturbedScan(s);
    var pend, t := Pending(s.dir), s.(loop := Flushing(Pending(s.dir)));
    assert pend[0..] == pend;
    var rest := DeliverRest(t, s.dir, pend, a, 0);
    FromAppend(NAMING, s, scan, rest);
    more := scan + rest;
  }
}
