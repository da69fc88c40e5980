/** Chains: a full backup followed by deltas, restored element by element. */
module Chain {
  import opened PathNames
  import opened FileTree
  import opened Restore
  import opened Walk
  import opened Backup

  // ---------------------------------------------------------------------------------------------
  // Restoring a chain.

  /** What the data plane hands the connector for one element: the members by their meaning, whether
      the stream ended cleanly, how imports go, and whether the data plane itself reports success. */
  datatype Delivery = Delivery(entries: seq<Entry>, eof: bool, importOk: nat -> bool, planeOk: bool)

  datatype SiteResult = SiteResult(tree: Tree, db: Db, ok: bool)

  /** One element, fetched and applied: done if the connector and the data plane both succeed. */
  function Element(r: SiteResult, d: Delivery, isBase: bool): SiteResult {
    var o := Applied(r.tree, r.db, d.entries, d.eof, isBase, d.importOk);
    SiteResult(o.tree, o.db, o.error.None? && d.planeOk)
  }

  /** Elements are applied in order, the first as base; the first failure ends the restore. */
  function RestoredChain(tree: Tree, db: Db, ds: seq<Delivery>): SiteResult {
    if ds == [] then SiteResult(tree, db, true)
    else
      var r := RestoredChain(tree, db, ds[..|ds| - 1]);
      if !r.ok then r else Element(r, ds[|ds| - 1], |ds| == 1)
  }

  function Flatten(parts: seq<seq<Op>>): seq<Op> {
    if parts == [] then [] else Flatten(parts[..|parts| - 1]) + parts[|parts| - 1]
  }

  lemma {:induction false} InFlatten(parts: seq<seq<Op>>, op: Op)
    ensures op in Flatten(parts) <==> exists k :: 0 <= k < |parts| && op in parts[k]
  {
    if parts != [] {
      InFlatten(parts[..|parts| - 1], op);
    }
  }

  function OpsByElement(ds: seq<Delivery>): (parts: seq<seq<Op>>)
    ensures |parts| == |ds| && forall k | 0 <= k < |ds| :: parts[k] == Ops(ds[k].entries)
  {
    seq(|ds|, k requires 0 <= k < |ds| => Ops(ds[k].entries))
  }

  /** The extraction steps of all elements, in order. */
  function ChainOps(ds: seq<Delivery>): seq<Op> {
    Flatten(OpsByElement(ds))
  }

  lemma {:induction false} ChainOpsOfLast(ds: seq<Delivery>)
    requires ds != []
    ensures ChainOps(ds) == ChainOps(ds[..|ds| - 1]) + Ops(ds[|ds| - 1].entries)
  {
    assert OpsByElement(ds)[..|ds| - 1] == OpsByElement(ds[..|ds| - 1]);
  }

  lemma {:induction false} InChainOps(ds: seq<Delivery>, op: Op)
    ensures op in ChainOps(ds) <==> exists k :: 0 <= k < |ds| && op in OpsByElement(ds)[k]
  {
    InFlatten(OpsByElement(ds), op);
  }

  /** The last element of a successful chain restore, on its own. */
  lemma {:induction false} LastApplied(tree: Tree, db: Db, ds: seq<Delivery>)
    requires WellFormed(tree) && ds != [] && RestoredChain(tree, db, ds).ok
    ensures var prev, r, d := RestoredChain(tree, db, ds[..|ds| - 1]), RestoredChain(tree, db, ds), ds[|ds| - 1];
            var start := StartTree(prev.tree, d.entries, |ds| == 1);
            && prev.ok && WellFormed(prev.tree) && WellFormed(start) && WellFormed(r.tree)
            && Run(start, Ops(d.entries)) == Some(r.tree)
            && LastDump(d.entries).Some? && r.db == Imported(LastDump(d.entries).value)
  {
    var init, d := ds[..|ds| - 1], ds[|ds| - 1];
    var prev := RestoredChain(tree, db, init);
    if init != [] {
      LastApplied(tree, db, init);
    }
    assert WellFormed(EMPTIED);
    AppliedExact(prev.tree, prev.db, d.entries, d.eof, |ds| == 1, d.importOk);
  }

  /** Newest wins: a successful chain restore equals one overlay of all elements' steps, in order,
      over the tree the base starts from, and its database is the last element's last dump. */
  lemma {:induction false} ChainIsOneOverlay(tree: Tree, db: Db, ds: seq<Delivery>)
    requires WellFormed(tree) && ds != [] && RestoredChain(tree, db, ds).ok
    ensures var r, start := RestoredChain(tree, db, ds), StartTree(tree, ds[0].entries, true);
            && WellFormed(r.tree)
            && Run(start, ChainOps(ds)) == Some(r.tree)
            && (forall p :: Lookup(r.tree, p) == Overlay(start, ChainOps(ds), p))
            && LastDump(ds[|ds| - 1].entries).Some?
            && r.db == Imported(LastDump(ds[|ds| - 1].entries).value)
  {
    var init, d := ds[..|ds| - 1], ds[|ds| - 1];
    var start := StartTree(tree, ds[0].entries, true);
    assert WellFormed(start) by {
      assert WellFormed(EMPTIED);
    }
    LastApplied(tree, db, ds);
    ChainOpsOfLast(ds);
    if init == [] {
      assert ChainOps(ds) == Ops(d.entries);
    } else {
      ChainIsOneOverlay(tree, db, init);
      assert init[0] == ds[0];
      RunAppend(start, ChainOps(init), Ops(d.entries));
    }
    RunIsOverlay(start, ChainOps(ds));
  }

  /** A delivery nothing is wrong with, taken by itself. */
  ghost predicate Flawless(d: Delivery) {
    d.eof && d.planeOk && AllComplete(d.entries) && ImportsOk(d.entries, d.importOk) && LastDump(d.entries).Some?
  }

  ghost predicate AllFlawless(ds: seq<Delivery>) {
    forall k | 0 <= k < |ds| :: Flawless(ds[k])
  }

  /** One element succeeds exactly if it is flawless, wp-content can be emptied if it has to be, and
      its steps run. */
  lemma {:induction false} ElementSucceedsIff(r: SiteResult, d: Delivery, isBase: bool)
    requires WellFormed(r.tree)
    ensures Element(r, d, isBase).ok <==>
            && Flawless(d) && (isBase && HasContent(d.entries) ==> !IsFileIn(r.tree, []))
            && Run(StartTree(r.tree, d.entries, isBase), Ops(d.entries)).Some?
  {
    AppliedExact(r.tree, r.db, d.entries, d.eof, isBase, d.importOk);
  }

  lemma {:induction false} FewerStepsFit(tree: Tree, a: seq<Op>, b: seq<Op>)
    requires NoClash(tree, a + b)
    ensures NoClash(tree, a)
  {
    assert forall op | op in a :: op in a + b;
  }

  lemma {:induction false} FlawlessLonger(ds: seq<Delivery>)
    requires ds != []
    ensures AllFlawless(ds) <==> AllFlawless(ds[..|ds| - 1]) && Flawless(ds[|ds| - 1])
  {
    var init := ds[..|ds| - 1];
    assert forall k | 0 <= k < |init| :: init[k] == ds[k];
  }

  ghost predicate ChainFits(tree: Tree, ds: seq<Delivery>)
    requires ds != []
  {
    && AllFlawless(ds)
    && (HasContent(ds[0].entries) ==> !IsFileIn(tree, []))
    && NoClash(StartTree(tree, ds[0].entries, true), ChainOps(ds))
  }

  lemma {:induction false} ChainFitsShorter(tree: Tree, ds: seq<Delivery>)
    requires |ds| > 1
    ensures ChainFits(tree, ds) ==> ChainFits(tree, ds[..|ds| - 1]) && Flawless(ds[|ds| - 1])
  {
    if ChainFits(tree, ds) {
      var init := ds[..|ds| - 1];
      FlawlessLonger(ds);
      ChainOpsOfLast(ds);
      FewerStepsFit(StartTree(tree, ds[0].entries, true), ChainOps(init), Ops(ds[|ds| - 1].entries));
    }
  }

  /** When a chain restores, exactly: every delivery is flawless, wp-content can be emptied if the
      base has content, and no two steps of the whole chain, nor a step and the tree the base starts
      from, want one path to be a file and a directory. */
  lemma {:induction false} ChainSucceedsIff(tree: Tree, db: Db, ds: seq<Delivery>)
    requires WellFormed(tree) && ds != []
    ensures RestoredChain(tree, db, ds).ok <==> ChainFits(tree, ds)
  {
    var init, d := ds[..|ds| - 1], ds[|ds| - 1];
    if init == [] {
      BaseSucceedsIff(tree, db, d);
      assert ds == [d];
    } else {
      ChainSucceedsIff(tree, db, init);
      ChainFitsShorter(tree, ds);
      if RestoredChain(tree, db, init).ok {
        DeltaSucceedsIff(tree, db, ds);
      }
    }
  }

  lemma {:induction false} BaseSucceedsIff(tree: Tree, db: Db, d: Delivery)
    requires WellFormed(tree)
    ensures RestoredChain(tree, db, [d]).ok <==> ChainFits(tree, [d])
  {
    assert [d][..0] == [];
    ElementSucceedsIff(SiteResult(tree, db, true), d, true);
    ChainOpsOfLast([d]);
    assert [] + Ops(d.entries) == Ops(d.entries);
    assert WellFormed(EMPTIED);
    RunSucceedsIffNoClash(StartTree(tree, d.entries, true), Ops(d.entries));
  }

  lemma {:induction false} StepsLonger(tree: Tree, db: Db, ds: seq<Delivery>)
    requires WellFormed(tree) && |ds| > 1 && RestoredChain(tree, db, ds[..|ds| - 1]).ok
    ensures WellFormed(RestoredChain(tree, db, ds[..|ds| - 1]).tree)
    ensures Run(RestoredChain(tree, db, ds[..|ds| - 1]).tree, Ops(ds[|ds| - 1].entries)).Some? <==>
            NoClash(StartTree(tree, ds[0].entries, true), ChainOps(ds))
  {
    var init, d := ds[..|ds| - 1], ds[|ds| - 1];
    var start := StartTree(tree, ds[0].entries, true);
    assert WellFormed(EMPTIED);
    ChainIsOneOverlay(tree, db, init);
    ChainOpsOfLast(ds);
    RunAppend(start, ChainOps(init), Ops(d.entries));
    RunSucceedsIffNoClash(start, ChainOps(ds));
  }

  lemma {:induction false} DeltaSucceedsIff(tree: Tree, db: Db, ds: seq<Delivery>)
    requires WellFormed(tree) && |ds| > 1
    requires RestoredChain(tree, db, ds[..|ds| - 1]).ok && ChainFits(tree, ds[..|ds| - 1])
    ensures RestoredChain(tree, db, ds).ok <==> ChainFits(tree, ds)
  {
    StepsLonger(tree, db, ds);
    FlawlessLonger(ds);
    ElementSucceedsIff(RestoredChain(tree, db, ds[..|ds| - 1]), ds[|ds| - 1], false);
  }

  // ---------------------------------------------------------------------------------------------
  // Taking a chain.

  /** One backup of a chain: the instant its cursor was taken, its walk, its dump. */
  datatype Taken = Taken(start: Time, visits: Visits, dump: Bytes)

  /** The cursor element k is given: none for the base, then the previous element's. */
  function CursorFor(chain: seq<Taken>, k: nat): Cursor
    requires k < |chain|
  {
    if k == 0 then NoCursor else Instant(chain[k - 1].start)
  }

  function SinceFor(chain: seq<Taken>, k: nat): Time
    requires k < |chain|
  {
    Since(CursorFor(chain, k))
  }

  /** Element k reached q and picked it up. */
  ghost predicate PickedBy(w: World, chain: seq<Taken>, k: nat, q: Path)
    requires k < |chain|
  {
    Picked(w, chain[k].visits, SinceFor(chain, k), q)
  }

  ghost predicate During(v: Visits, after: Time) {
    (forall p :: v.listAt(p) > after && v.statAt(p) > after) && forall p, i :: v.readAt(p, i) > after
  }

  ghost predicate Before(v: Visits, end: Time) {
    (forall p :: v.listAt(p) <= end && v.statAt(p) <= end) && forall p, i :: v.readAt(p, i) <= end
  }

  /** Cursors are taken before their walk, and a backup ends before the next one begins. */
  ghost predicate Timed(chain: seq<Taken>) {
    && (forall k | 0 <= k < |chain| :: chain[k].start > ZERO && During(chain[k].visits, chain[k].start))
    && (forall k | 0 < k < |chain| :: Before(chain[k - 1].visits, chain[k].start))
  }

  ghost predicate Same(w: World, q: Path, t1: Time, t2: Time) {
    q in w.at(t1) && q in w.at(t2) && w.at(t1)[q] == w.at(t2)[q]
  }

  /** Every change to a path stamps its instant: a file whose stamp is no later than t1 has been
      the same file ever since. */
  ghost predicate HonestAt(w: World, q: Path) {
    forall t1, t2 | t1 <= t2 && IsFileAt(w, t2, q) && w.at(t2)[q].mtime <= t1 :: Same(w, q, t1, t2)
  }

  ghost predicate Honest(w: World) {
    forall q :: HonestAt(w, q)
  }

  /** A delivery carries exactly the archive a backup wrote. */
  ghost predicate Delivers(w: World, v: Visits, since: Time, dump: Bytes, d: Delivery)
    requires ValidWorld(w)
  {
    && Written(w, v, since, Some(dump)).Some?
    && d.entries == Entries(Written(w, v, since, Some(dump)).value)
  }

  /** The deliveries carry exactly the archives the chain's backups wrote. */
  ghost predicate DeliversChain(w: World, chain: seq<Taken>, ds: seq<Delivery>)
    requires ValidWorld(w)
  {
    && |ds| == |chain|
    && forall k | 0 <= k < |chain| ::
         Delivers(w, chain[k].visits, SinceFor(chain, k), chain[k].dump, ds[k])
  }

  /** The content of a visited file: what was read, or what was there when it was skipped. */
  ghost function Seen(w: World, v: Visits, since: Time, q: Path): Bytes
    requires IsFileAt(w, v.statAt(q), q)
    requires PicksUp(w, v, since, q) ==> ReadOf(w, v, q).Some?
  {
    if PicksUp(w, v, since, q) then ReadOf(w, v, q).value else w.at(v.statAt(q))[q].content
  }

  lemma {:induction false} ElementMeaning(w: World, chain: seq<Taken>, ds: seq<Delivery>, k: nat)
    requires ValidWorld(w) && DeliversChain(w, chain, ds) && k < |chain|
    ensures var v, since := chain[k].visits, SinceFor(chain, k);
            && WalkAll(w, v, since).Some?
            && Ops(ds[k].entries) == StepsOf(WalkAll(w, v, since).value)
            && LastDump(ds[k].entries) == Some(chain[k].dump)
            && (HasContent(ds[k].entries) <==> WalkAll(w, v, since).value != [])
  {
    WalkedPathsAreOrdinary(w, chain[k].visits, SinceFor(chain, k));
    ArchiveMeaning(chain[k].dump, WalkAll(w, chain[k].visits, SinceFor(chain, k)).value);
  }

  lemma {:induction false} ReadBeforeSkipped(w: World, v: Visits, q: Path, stat: Time)
    requires IsFileAt(w, stat, q) && Same(w, q, v.statAt(q), stat)
    requires forall i :: Same(w, q, v.readAt(q, i), stat)
    ensures ReadOf(w, v, q) == Some(w.at(stat)[q].content)
  {
    var content := w.at(stat)[q].content;
    forall j
      ensures IsFileAt(w, v.readAt(q, j), q) && w.at(v.readAt(q, j))[q].content == content
    {
      assert Same(w, q, v.readAt(q, j), stat);
    }
    StableRead(w, v, q, |content|, content, 0);
    assert content[0..] == content;
  }

  /** A file skipped by a delta was already there, the same, all through the previous walk. */
  lemma {:induction false} SkippedWasVisitedBefore(w: World, chain: seq<Taken>, k: nat, q: Path)
    requires ValidWorld(w) && HonestAt(w, q) && Timed(chain) && 0 < k < |chain| && q != []
    requires Reached(w, chain[k].visits, q) && IsFileAt(w, chain[k].visits.statAt(q), q) && !PickedBy(w, chain, k, q)
    ensures var v, stat := chain[k - 1].visits, chain[k].visits.statAt(q);
            && Reached(w, v, q) && Same(w, q, v.statAt(q), stat)
            && ReadOf(w, v, q) == Some(w.at(stat)[q].content)
  {
    var v, stat := chain[k - 1].visits, chain[k].visits.statAt(q);
    assert During(chain[k].visits, chain[k].start) && During(v, chain[k - 1].start);
    assert Before(chain[k - 1].visits, chain[k].start);
    assert w.at(stat)[q].mtime <= chain[k - 1].start;
    assert Same(w, q, v.statAt(q), stat);
    ReadBeforeSkipped(w, v, q, stat);
    forall i | 0 <= i < |q|
      ensures Gate(w, v, q, i)
    {
      var a := q[..i];
      assert Gate(w, chain[k].visits, q, i);
      assert Same(w, q, v.statAt(a), stat) && Same(w, q, v.listAt(a), stat);
      assert SoundAt(w, v.statAt(a)) && SoundAt(w, v.listAt(a));
      assert IsProperPrefix(a, q);
      if i + 1 < |q| {
        assert IsProperPrefix(q[..i + 1], q);
      } else {
        assert q[..i + 1] == q;
      }
    }
  }

  lemma {:induction false} TimedPrefix(chain: seq<Taken>)
    requires Timed(chain) && chain != []
    ensures Timed(chain[..|chain| - 1])
  {
    var c := chain[..|chain| - 1];
    forall k | 0 < k < |c|
      ensures Before(c[k - 1].visits, c[k].start)
    {
      assert Before(chain[k - 1].visits, chain[k].start);
    }
  }

  lemma {:induction false} ChainPrefix(w: World, chain: seq<Taken>, ds: seq<Delivery>)
    requires ValidWorld(w) && Timed(chain) && DeliversChain(w, chain, ds) && chain != []
    ensures var c, d := chain[..|chain| - 1], ds[..|ds| - 1];
            Timed(c) && DeliversChain(w, c, d)
    ensures forall k | 0 <= k < |chain| - 1 :: SinceFor(chain[..|chain| - 1], k) == SinceFor(chain, k)
  {
    var c, d := chain[..|chain| - 1], ds[..|ds| - 1];
    TimedPrefix(chain);
    forall k | 0 <= k < |c|
      ensures c[k] == chain[k] && SinceFor(c, k) == SinceFor(chain, k) && d[k] == ds[k]
    {
    }
  }

  /** The effect of a walk's archive on a file it visited. */
  lemma {:induction false} ElementOnFile(w: World, v: Visits, since: Time, ops: seq<Op>, start: Tree,
            after: Tree, q: Path)
    requires ValidWorld(w) && WellFormed(start) && WalkAll(w, v, since).Some?
    requires ops == StepsOf(WalkAll(w, v, since).value) && Run(start, ops) == Some(after)
    ensures Picked(w, v, since, q) ==>
              ReadOf(w, v, q).Some? && Lookup(after, q) == Some(File(ReadOf(w, v, q).value))
    ensures !Picked(w, v, since, q) && q in start && start[q].File? ==> Lookup(after, q) == Some(start[q])
  {
    StepsAt(w, v, since, q);
    RunIsOverlay(start, ops);
    LastPutIn(ops, q);
    assert Lookup(after, q) == Overlay(start, ops, q);
    if !Picked(w, v, since, q) && q in start && start[q].File? {
      RunSucceedsIffNoClash(start, ops);
      assert forall op | op in ops :: !TreeClash(start, op);
    }
  }

  /** One element of a chain restore, seen at one file. */
  lemma {:induction false} ElementStep(w: World, chain: seq<Taken>, ds: seq<Delivery>, tree: Tree, db: Db, q: Path)
    requires ValidWorld(w) && DeliversChain(w, chain, ds) && chain != []
    requires WellFormed(tree) && RestoredChain(tree, db, ds).ok
    ensures var k := |chain| - 1; var v := chain[k].visits;
            var prev, r := RestoredChain(tree, db, ds[..k]), RestoredChain(tree, db, ds);
            && prev.ok
            && (PickedBy(w, chain, k, q) ==>
                 ReadOf(w, v, q).Some? && Lookup(r.tree, q) == Some(File(ReadOf(w, v, q).value)))
            && (k > 0 && !PickedBy(w, chain, k, q) && q in prev.tree && prev.tree[q].File? ==>
                 Lookup(r.tree, q) == Some(prev.tree[q]))
  {
    var k := |chain| - 1;
    LastApplied(tree, db, ds);
    ElementMeaning(w, chain, ds, k);
    var start := StartTree(RestoredChain(tree, db, ds[..k]).tree, ds[k].entries, k == 0);
    ElementOnFile(w, chain[k].visits, SinceFor(chain, k), Ops(ds[k].entries), start,
                  RestoredChain(tree, db, ds).tree, q);
  }

  /** The last walk visited a regular file. */
  ghost predicate LastVisited(w: World, chain: seq<Taken>, q: Path)
    requires chain != []
  {
    var v := chain[|chain| - 1].visits;
    q != [] && Reached(w, v, q) && IsFileAt(w, v.statAt(q), q)
  }

  /** A file skipped by the last delta has the content the previous walk saw. */
  lemma {:induction false} SkippedContentIsOld(w: World, chain: seq<Taken>, q: Path)
    requires ValidWorld(w) && HonestAt(w, q) && Timed(chain) && chain != []
    requires LastVisited(w, chain, q) && !PickedBy(w, chain, |chain| - 1, q)
    ensures var k := |chain| - 1; var before := chain[..k]; var now := chain[k].visits;
            && k > 0 && LastVisited(w, before, q)
            && var v, since := before[k - 1].visits, SinceFor(before, k - 1);
               && ReadOf(w, v, q).Some?
               && Seen(w, v, since, q) == Seen(w, now, SinceFor(chain, k), q)
  {
    var k := |chain| - 1;
    SkippedWasVisitedBefore(w, chain, k, q);
    assert chain[..k][k - 1] == chain[k - 1];
  }

  /** A restored tree has, at a path, the content the last walk saw there. */
  ghost predicate ShowsLastVisit(w: World, chain: seq<Taken>, tree: Tree, q: Path)
    requires chain != [] && LastVisited(w, chain, q)
  {
    var k := |chain| - 1;
    var v, since := chain[k].visits, SinceFor(chain, k);
    && (PicksUp(w, v, since, q) ==> ReadOf(w, v, q).Some?)
    && Lookup(tree, q) == Some(File(Seen(w, v, since, q)))
  }

  lemma {:induction false} PickedShows(w: World, chain: seq<Taken>, ds: seq<Delivery>, tree: Tree, db: Db, q: Path)
    requires ValidWorld(w) && DeliversChain(w, chain, ds) && chain != []
    requires WellFormed(tree) && RestoredChain(tree, db, ds).ok && LastVisited(w, chain, q)
    requires PickedBy(w, chain, |chain| - 1, q)
    ensures ShowsLastVisit(w, chain, RestoredChain(tree, db, ds).tree, q)
  {
    ElementStep(w, chain, ds, tree, db, q);
  }

  lemma {:induction false} SkippedShows(w: World, chain: seq<Taken>, ds: seq<Delivery>, tree: Tree, db: Db, q: Path)
    requires ValidWorld(w) && HonestAt(w, q) && Timed(chain) && DeliversChain(w, chain, ds) && |chain| > 1
    requires WellFormed(tree) && RestoredChain(tree, db, ds).ok && LastVisited(w, chain, q)
    requires !PickedBy(w, chain, |chain| - 1, q)
    requires LastVisited(w, chain[..|chain| - 1], q)
    requires ShowsLastVisit(w, chain[..|chain| - 1], RestoredChain(tree, db, ds[..|ds| - 1]).tree, q)
    ensures ShowsLastVisit(w, chain, RestoredChain(tree, db, ds).tree, q)
  {
    SkippedKeepsFile(w, chain, ds, tree, db, q);
    SkippedContentIsOld(w, chain, q);
  }

  lemma {:induction false} SkippedKeepsFile(w: World, chain: seq<Taken>, ds: seq<Delivery>, tree: Tree, db: Db, q: Path)
    requires ValidWorld(w) && DeliversChain(w, chain, ds) && |chain| > 1
    requires WellFormed(tree) && RestoredChain(tree, db, ds).ok && !PickedBy(w, chain, |chain| - 1, q)
    ensures var prev, r := RestoredChain(tree, db, ds[..|ds| - 1]).tree, RestoredChain(tree, db, ds).tree;
            forall c :: Lookup(prev, q) == Some(File(c)) ==> Lookup(r, q) == Some(File(c))
  {
    ElementStep(w, chain, ds, tree, db, q);
  }

  /** No lost update: however writes interleave with the walks of a chain, a successful chain
      restore gives every regular file the last walk visited the content it had at that visit. */
  lemma {:induction false} NoLostUpdate(w: World, chain: seq<Taken>, ds: seq<Delivery>, tree: Tree, db: Db, q: Path)
    requires ValidWorld(w) && HonestAt(w, q) && Timed(chain) && DeliversChain(w, chain, ds) && chain != []
    requires WellFormed(tree) && RestoredChain(tree, db, ds).ok
    requires LastVisited(w, chain, q)
    ensures ShowsLastVisit(w, chain, RestoredChain(tree, db, ds).tree, q)
  {
    if PickedBy(w, chain, |chain| - 1, q) {
      PickedShows(w, chain, ds, tree, db, q);
    } else {
      SkippedContentIsOld(w, chain, q);
      ChainPrefix(w, chain, ds);
      LastApplied(tree, db, ds);
      NoLostUpdate(w, chain[..|chain| - 1], ds[..|ds| - 1], tree, db, q);
      SkippedShows(w, chain, ds, tree, db, q);
    }
  }

  /** What a delta reads while it is being written to is picked up again: if what one element read of a
      file is not what the next walk finds there, the next element carries the file, too. */
  lemma {:induction false} TornIsPickedUpAgain(w: World, chain: seq<Taken>, k: nat, q: Path)
    requires ValidWorld(w) && HonestAt(w, q) && Timed(chain) && k + 1 < |chain| && q != []
    requires var v := chain[k + 1].visits; Reached(w, v, q) && IsFileAt(w, v.statAt(q), q)
    requires ReadOf(w, chain[k].visits, q) != Some(w.at(chain[k + 1].visits.statAt(q))[q].content)
    ensures PickedBy(w, chain, k + 1, q)
  {
    if !PickedBy(w, chain, k + 1, q) {
      SkippedWasVisitedBefore(w, chain, k + 1, q);
    }
  }

  /** Every byte is the byte the file had there when it was read. */
  ghost predicate BytesAsRead(w: World, v: Visits, q: Path, content: Bytes) {
    forall i | 0 <= i < |content| :: ByteAsRead(w, v, q, i, content[i])
  }

  ghost predicate ByteAsRead(w: World, v: Visits, q: Path, i: nat, byte: Byte) {
    && IsFileAt(w, v.readAt(q, i), q) && i < |w.at(v.readAt(q, i))[q].content|
    && byte == w.at(v.readAt(q, i))[q].content[i]
  }

  lemma {:induction false} ReadOfBytes(w: World, v: Visits, q: Path)
    ensures ReadOf(w, v, q).Some? ==> BytesAsRead(w, v, q, ReadOf(w, v, q).value)
  {
    if ReadOf(w, v, q).Some? {
      var content, size := ReadOf(w, v, q).value, |w.at(v.statAt(q))[q].content|;
      forall i | 0 <= i < |content|
        ensures ByteAsRead(w, v, q, i, content[i])
      {
        ReadByByte(w, v, q, size, 0, i);
      }
    }
  }

  /** A tree holds, of a file the last walk visited, each byte as it was when it was read if the last
      element picked the file up, and the file as a whole, as it stands, if that element skipped it. */
  ghost predicate HoldsBytes(w: World, chain: seq<Taken>, tree: Tree, q: Path)
    requires chain != [] && LastVisited(w, chain, q)
  {
    var k := |chain| - 1;
    && IsFileIn(tree, q)
    && if PickedBy(w, chain, k, q) then BytesAsRead(w, chain[k].visits, q, tree[q].content)
       else tree[q].content == w.at(chain[k].visits.statAt(q))[q].content
  }

  /** Which bytes a done chain restores of a file that is written to while it is read. */
  lemma {:induction false} RestoredBytes(w: World, chain: seq<Taken>, ds: seq<Delivery>, tree: Tree, db: Db, q: Path)
    requires ValidWorld(w) && HonestAt(w, q) && Timed(chain) && DeliversChain(w, chain, ds) && chain != []
    requires WellFormed(tree) && RestoredChain(tree, db, ds).ok && LastVisited(w, chain, q)
    ensures HoldsBytes(w, chain, RestoredChain(tree, db, ds).tree, q)
  {
    NoLostUpdate(w, chain, ds, tree, db, q);
    ReadOfBytes(w, chain[|chain| - 1].visits, q);
    ShownBytes(w, chain, RestoredChain(tree, db, ds).tree, q);
  }

  lemma {:induction false} ShownBytes(w: World, chain: seq<Taken>, tree: Tree, q: Path)
    requires chain != [] && LastVisited(w, chain, q) && ShowsLastVisit(w, chain, tree, q)
    requires var v := chain[|chain| - 1].visits;
             ReadOf(w, v, q).Some? ==> BytesAsRead(w, v, q, ReadOf(w, v, q).value)
    ensures HoldsBytes(w, chain, tree, q)
  {
  }

  ghost predicate PickedByAny(w: World, chain: seq<Taken>, p: Path) {
    exists k :: 0 <= k < |chain| && PickedBy(w, chain, k, p)
  }

  /** A done chain leaves a file of the tree its base starts from in place unless it writes it. */
  lemma {:induction false} StartFileStays(tree: Tree, db: Db, ds: seq<Delivery>, q: Path)
    requires WellFormed(tree) && ds != [] && RestoredChain(tree, db, ds).ok
    requires IsFileIn(StartTree(tree, ds[0].entries, true), q)
    ensures !SomeDir(ChainOps(ds), q)
  {
    ChainSucceedsIff(tree, db, ds);
    assert forall op | op in ChainOps(ds) :: !TreeClash(StartTree(tree, ds[0].entries, true), op);
  }

  /** Exactly the files some element picked up, and the files of the tree the base starts from, are in
      the restored tree: a chain carries no deletions, a file no element picked up is missing even if
      the last walk saw it, and a base without content does not clear. */
  lemma {:induction false} RestoredIffPickedUp(w: World, chain: seq<Taken>, ds: seq<Delivery>, tree: Tree,
                                               db: Db, q: Path)
    requires ValidWorld(w) && DeliversChain(w, chain, ds) && chain != []
    requires WellFormed(tree) && RestoredChain(tree, db, ds).ok
    ensures IsFileIn(RestoredChain(tree, db, ds).tree, q) <==>
            PickedByAny(w, chain, q) || IsFileIn(StartTree(tree, ds[0].entries, true), q)
    ensures !PickedByAny(w, chain, q) && IsFileIn(StartTree(tree, ds[0].entries, true), q) ==>
              Lookup(RestoredChain(tree, db, ds).tree, q) == Lookup(StartTree(tree, ds[0].entries, true), q)
  {
    var r, ops, start := RestoredChain(tree, db, ds).tree, ChainOps(ds), StartTree(tree, ds[0].entries, true);
    ChainIsOneOverlay(tree, db, ds);
    assert Lookup(r, q) == Overlay(start, ops, q);
    LastPutIn(ops, q);
    if LastPut(ops, q).Some? {
      var k := PutComesFromElement(w, chain, ds, q, LastPut(ops, q).value);
    }
    if k :| 0 <= k < |chain| && PickedBy(w, chain, k, q) {
      PickedIsPut(w, chain, ds, k, q);
    }
    if IsFileIn(start, q) {
      StartFileStays(tree, db, ds, q);
    }
  }

  /** Visited last, with a stamp no newer than the cursor the last walk was given. */
  ghost predicate StaleAtLast(w: World, chain: seq<Taken>, q: Path)
    requires |chain| > 1
  {
    var v, cursor := chain[|chain| - 1].visits, chain[|chain| - 2].start;
    && q != [] && Reached(w, v, q) && IsFileAt(w, v.statAt(q), q)
    && cursor > ZERO && w.at(v.statAt(q))[q].mtime <= cursor
  }

  lemma {:induction false} StaleIsSkipped(w: World, chain: seq<Taken>, q: Path)
    requires |chain| > 1 && StaleAtLast(w, chain, q)
    ensures LastVisited(w, chain, q) && !PickedBy(w, chain, |chain| - 1, q)
  {
    assert SinceFor(chain, |chain| - 1) == chain[|chain| - 2].start;
  }

  /** Why honest stamps are needed: a file that arrived at its path between the walks of a chain with
      a stamp no newer than the last cursor, as a moved file does, is visited but not restored. */
  lemma {:induction false} StaleArrivalIsLost(w: World, chain: seq<Taken>, ds: seq<Delivery>, tree: Tree,
                                              db: Db, q: Path)
    requires ValidWorld(w) && DeliversChain(w, chain, ds) && |chain| > 1
    requires WellFormed(tree) && RestoredChain(tree, db, ds).ok
    requires StaleAtLast(w, chain, q)
    requires forall k | 0 <= k < |chain| - 1 :: !IsFileAt(w, chain[k].visits.statAt(q), q)
    ensures var r, start := RestoredChain(tree, db, ds).tree, StartTree(tree, ds[0].entries, true);
            if IsFileIn(start, q) then Lookup(r, q) == Lookup(start, q) else !IsFileIn(r, q)
  {
    StaleIsSkipped(w, chain, q);
    RestoredIffPickedUp(w, chain, ds, tree, db, q);
  }

  lemma {:induction false} PutComesFromElement(w: World, chain: seq<Taken>, ds: seq<Delivery>, q: Path,
            c: Bytes) returns (k: nat)
    requires ValidWorld(w) && DeliversChain(w, chain, ds) && Put(q, c) in ChainOps(ds)
    ensures k < |chain| && PickedBy(w, chain, k, q)
  {
    InChainOps(ds, Put(q, c));
    k :| 0 <= k < |ds| && Put(q, c) in OpsByElement(ds)[k];
    ElementMeaning(w, chain, ds, k);
    StepsAt(w, chain[k].visits, SinceFor(chain, k), q);
  }

  lemma {:induction false} PickedIsPut(w: World, chain: seq<Taken>, ds: seq<Delivery>, k: nat, q: Path)
    requires ValidWorld(w) && DeliversChain(w, chain, ds) && k < |chain| && PickedBy(w, chain, k, q)
    ensures exists c :: Put(q, c) in ChainOps(ds)
  {
    var v := chain[k].visits;
    ElementMeaning(w, chain, ds, k);
    StepsAt(w, v, SinceFor(chain, k), q);
    var op := Put(q, ReadOf(w, v, q).value);
    assert op in OpsByElement(ds)[k];
    InChainOps(ds, op);
  }

  // ---------------------------------------------------------------------------------------------
  // Chain against full backup.

  ghost predicate SameFiles(a: Tree, b: Tree) {
    forall p, c :: Lookup(a, p) == Some(File(c)) <==> Lookup(b, p) == Some(File(c))
  }

  /** No file an element picked up has ceased to be a file in the target state. */
  ghost predicate NothingDeleted(w: World, chain: seq<Taken>, target: SourceTree) {
    forall k, q | 0 <= k < |chain| && PickedBy(w, chain, k, q) ::
      q in target && target[q].SFile?
  }

  lemma {:induction false} ReachedIsIncluded(w: World, v: Visits, t: SourceTree, q: Path)
    requires Reached(w, v, q) && q in t
    ensures Included(w, t, q)
  {
    forall k | 0 <= k < |q|
      ensures !Skipped(w, q[..k])
    {
      assert Gate(w, v, q, k);
    }
  }

  /** A file of the target state, through the chain and through one full backup. */
  lemma {:induction false} TargetFile(w: World, chain: seq<Taken>, ds: seq<Delivery>, target: SourceTree,
            tree: Tree, db: Db, p: Path)
    requires ValidWorld(w) && Honest(w) && Timed(chain) && DeliversChain(w, chain, ds) && chain != []
    requires Quiet(w, chain[|chain| - 1].visits, target)
    requires WellFormed(tree) && RestoredChain(tree, db, ds).ok
    requires p != [] && Included(w, target, p) && target[p].SFile?
    ensures Lookup(RestoredChain(tree, db, ds).tree, p) == Some(File(target[p].content))
  {
    QuietReached(w, chain[|chain| - 1].visits, target, p);
    QuietRead(w, chain[|chain| - 1].visits, target, p);
    NoLostUpdate(w, chain, ds, tree, db, p);
  }

  /** A tree has exactly the regular files of a source tree outside excluded subtrees. */
  ghost predicate HasFilesOf(w: World, target: SourceTree, tree: Tree) {
    forall p, c :: Lookup(tree, p) == Some(File(c)) <==> IsTargetFile(w, target, p, c)
  }

  ghost predicate IsTargetFile(w: World, target: SourceTree, p: Path, c: Bytes) {
    p != [] && Included(w, target, p) && target[p].SFile? && c == target[p].content
  }

  /** Which regular files one full backup of a quiet source brings back: the source's, and those of the
      tree the restore starts from, which is the old one if there was nothing to archive. */
  lemma {:induction false} FullBackupFiles(w: World, v: Visits, target: SourceTree, dump: Bytes, d: Delivery,
                                           tree: Tree, db: Db, p: Path, c: Bytes)
    requires ValidWorld(w) && Quiet(w, v, target) && [] in target && WellFormed(tree)
    requires Delivers(w, v, ZERO, dump, d) && RestoredChain(tree, db, [d]).ok
    ensures var r, start := RestoredChain(tree, db, [d]).tree, StartTree(tree, d.entries, true);
            && (Lookup(r, p) == Some(File(c)) <==> IsTargetFile(w, target, p, c) || Lookup(start, p) == Some(File(c)))
            && (HasContent(d.entries) ==> !IsFileIn(start, p))
            && (!HasContent(d.entries) ==> r == tree && !IsTargetFile(w, target, p, c))
  {
    var chain := [Taken(1, v, dump)];
    assert DeliversChain(w, chain, [d]);
    RestoredIffPickedUp(w, chain, [d], tree, db, p);
    ElementStep(w, chain, [d], tree, db, p);
    if p in target {
      QuietReached(w, v, target, p);
      if target[p].SFile? {
        QuietRead(w, v, target, p);
      }
    }
    assert PickedBy(w, chain, 0, p) <==> Picked(w, v, ZERO, p);
    assert PickedByAny(w, chain, p) <==> PickedBy(w, chain, 0, p);
    if !HasContent(d.entries) {
      NothingArchived(w, v, dump, d, tree, db, p);
    }
  }

  lemma {:induction false} NothingArchived(w: World, v: Visits, dump: Bytes, d: Delivery, tree: Tree, db: Db, p: Path)
    requires ValidWorld(w) && WellFormed(tree) && Delivers(w, v, ZERO, dump, d) && !HasContent(d.entries)
    requires RestoredChain(tree, db, [d]).ok
    ensures RestoredChain(tree, db, [d]).tree == tree && !Picked(w, v, ZERO, p)
  {
    var chain := [Taken(1, v, dump)];
    assert DeliversChain(w, chain, [d]);
    ElementMeaning(w, chain, [d], 0);
    StepsAt(w, v, ZERO, p);
    LastApplied(tree, db, [d]);
    NoContentNoOps(d.entries);
    assert [d][..0] == [];
  }

  /** A regular file the last walk visited was picked up by some element: stamps do not lie, and every
      walk begins after the cursor the next one is given. */
  lemma {:induction false} VisitedWasPickedUp(w: World, chain: seq<Taken>, q: Path)
    requires ValidWorld(w) && HonestAt(w, q) && Timed(chain) && chain != [] && LastVisited(w, chain, q)
    ensures PickedByAny(w, chain, q)
  {
    var k := |chain| - 1;
    if !PickedBy(w, chain, k, q) {
      var before := chain[..k];
      SkippedContentIsOld(w, chain, q);
      TimedPrefix(chain);
      VisitedWasPickedUp(w, before, q);
      var j :| 0 <= j < |before| && PickedBy(w, before, j, q);
      assert before[j] == chain[j] && SinceFor(before, j) == SinceFor(chain, j);
      assert PickedBy(w, chain, j, q);
    }
  }

  /** Every file of the tree the base starts from was written by some element. With a base that has
      content there is no such file. */
  ghost predicate OldFilesReplaced(w: World, chain: seq<Taken>, start: Tree) {
    forall p | IsFileIn(start, p) :: PickedByAny(w, chain, p)
  }

  /** The deltas against the source itself: the regular files a chain restore yields are those of the
      target state if and only if no file picked up on the way was deleted since and no file of the
      tree the base starts from is left over. */
  lemma {:induction false} ChainShowsTargetIff(w: World, chain: seq<Taken>, ds: seq<Delivery>, target: SourceTree,
                                               tree: Tree, db: Db)
    requires ValidWorld(w) && Honest(w) && Timed(chain) && DeliversChain(w, chain, ds) && chain != []
    requires Quiet(w, chain[|chain| - 1].visits, target) && [] in target
    requires WellFormed(tree) && RestoredChain(tree, db, ds).ok
    ensures HasFilesOf(w, target, RestoredChain(tree, db, ds).tree) <==>
            NothingDeleted(w, chain, target) && OldFilesReplaced(w, chain, StartTree(tree, ds[0].entries, true))
  {
    var a, start := RestoredChain(tree, db, ds).tree, StartTree(tree, ds[0].entries, true);
    if NothingDeleted(w, chain, target) && OldFilesReplaced(w, chain, start) {
      forall p, c
        ensures Lookup(a, p) == Some(File(c)) <==> IsTargetFile(w, target, p, c)
      {
        ShowsTargetAt(w, chain, ds, target, tree, db, p);
      }
    }
    if HasFilesOf(w, target, a) {
      forall k, q | 0 <= k < |chain| && PickedBy(w, chain, k, q)
        ensures q in target && target[q].SFile?
      {
        assert PickedByAny(w, chain, q);
        ShownIsTarget(w, chain, ds, target, tree, db, q);
      }
      forall p | IsFileIn(start, p)
        ensures PickedByAny(w, chain, p)
      {
        ShownIsTarget(w, chain, ds, target, tree, db, p);
        QuietReached(w, chain[|chain| - 1].visits, target, p);
        VisitedWasPickedUp(w, chain, p);
      }
    }
  }

  lemma {:induction false} ShownIsTarget(w: World, chain: seq<Taken>, ds: seq<Delivery>, target: SourceTree,
                                         tree: Tree, db: Db, q: Path)
    requires ValidWorld(w) && DeliversChain(w, chain, ds) && chain != []
    requires WellFormed(tree) && RestoredChain(tree, db, ds).ok
    requires HasFilesOf(w, target, RestoredChain(tree, db, ds).tree)
    requires PickedByAny(w, chain, q) || IsFileIn(StartTree(tree, ds[0].entries, true), q)
    ensures q != [] && Included(w, target, q) && target[q].SFile?
  {
    var a := RestoredChain(tree, db, ds).tree;
    RestoredIffPickedUp(w, chain, ds, tree, db, q);
    assert Lookup(a, q) == Some(File(a[q].content));
    assert IsTargetFile(w, target, q, a[q].content);
  }

  lemma {:induction false} ShowsTargetAt(w: World, chain: seq<Taken>, ds: seq<Delivery>, target: SourceTree,
                                         tree: Tree, db: Db, p: Path)
    requires ValidWorld(w) && Honest(w) && Timed(chain) && DeliversChain(w, chain, ds) && chain != []
    requires Quiet(w, chain[|chain| - 1].visits, target) && [] in target
    requires WellFormed(tree) && RestoredChain(tree, db, ds).ok
    requires NothingDeleted(w, chain, target) && OldFilesReplaced(w, chain, StartTree(tree, ds[0].entries, true))
    ensures forall c :: Lookup(RestoredChain(tree, db, ds).tree, p) == Some(File(c)) <==> IsTargetFile(w, target, p, c)
  {
    var a := RestoredChain(tree, db, ds).tree;
    if IsFileIn(a, p) {
      RestoredIffPickedUp(w, chain, ds, tree, db, p);
      var k :| 0 <= k < |chain| && PickedBy(w, chain, k, p);
      ReachedIsIncluded(w, chain[k].visits, target, p);
    }
    if p != [] && Included(w, target, p) && target[p].SFile? {
      TargetFile(w, chain, ds, target, tree, db, p);
    }
  }

  /** Fast form against simple form: the regular files a chain restore yields are those of one full
      backup of the target state if and only if no file picked up on the way was deleted since and no
      file of the tree the base starts from is left over. A full backup of a state with nothing to
      archive changes no tree at all. */
  lemma {:induction false} ChainEqualsFullIff(w: World, chain: seq<Taken>, ds: seq<Delivery>, target: SourceTree,
                                              v: Visits, full: Delivery, fullDump: Bytes, tree: Tree, other: Tree,
                                              db: Db)
    requires ValidWorld(w) && Honest(w) && Timed(chain) && DeliversChain(w, chain, ds) && chain != []
    requires Quiet(w, chain[|chain| - 1].visits, target) && [] in target
    requires WellFormed(tree) && RestoredChain(tree, db, ds).ok
    requires Quiet(w, v, target) && Delivers(w, v, ZERO, fullDump, full)
    requires WellFormed(other) && RestoredChain(other, db, [full]).ok
    ensures var a, b := RestoredChain(tree, db, ds).tree, RestoredChain(other, db, [full]).tree;
            && (HasContent(full.entries) ==> HasFilesOf(w, target, b))
            && (HasContent(full.entries) ==>
                 (SameFiles(a, b) <==>
                  NothingDeleted(w, chain, target) && OldFilesReplaced(w, chain, StartTree(tree, ds[0].entries, true))))
            && (!HasContent(full.entries) ==> b == other)
  {
    var a, b := RestoredChain(tree, db, ds).tree, RestoredChain(other, db, [full]).tree;
    ChainShowsTargetIff(w, chain, ds, target, tree, db);
    forall p, c
      ensures HasContent(full.entries) ==> (Lookup(b, p) == Some(File(c)) <==> IsTargetFile(w, target, p, c))
      ensures !HasContent(full.entries) ==> b == other
    {
      FullBackupFiles(w, v, target, fullDump, full, other, db, p, c);
    }
    if HasContent(full.entries) {
      SameFilesAsTarget(w, target, a, b);
    } else {
      FullBackupFiles(w, v, target, fullDump, full, other, db, [], []);
    }
  }

  lemma {:induction false} SameFilesAsTarget(w: World, target: SourceTree, a: Tree, b: Tree)
    requires HasFilesOf(w, target, b)
    ensures SameFiles(a, b) <==> HasFilesOf(w, target, a)
  {
  }

  // ---------------------------------------------------------------------------------------------
  // One full backup: point-in-time replace.

  /** The directories and regular files of a source tree outside excluded subtrees. */
  ghost function Snapshot(w: World, t: SourceTree, p: Path): Option<Node> {
    if p == [] then Some(Dir)
    else if !Included(w, t, p) then None
    else if t[p].SFile? then Some(File(t[p].content))
    else if t[p].SDir? && !Skipped(w, p) then Some(Dir)
    else None
  }

  lemma {:induction false} SnapshotAncestors(w: World, t: SourceTree, q: Path, p: Path)
    requires IsFileSystem(t, w.depth) && IsProperPrefix(q, p) && Snapshot(w, t, p).Some?
    ensures Snapshot(w, t, q) == Some(Dir)
  {
    assert p[..|q|] == q;
    forall k | 0 <= k < |q|
      ensures !Skipped(w, q[..k])
    {
      assert q[..k] == p[..k];
    }
  }

  /** The steps of a full backup of a quiet source are its snapshot. */
  lemma {:induction false} FullStepAt(w: World, v: Visits, t: SourceTree, p: Path)
    requires ValidWorld(w) && Quiet(w, v, t) && [] in t && WalkAll(w, v, ZERO).Some?
    ensures var ops := StepsOf(WalkAll(w, v, ZERO).value);
            && (forall c :: Put(p, c) in ops <==> p != [] && Snapshot(w, t, p) == Some(File(c)))
            && (MkDir(p) in ops <==> p != [] && Snapshot(w, t, p) == Some(Dir))
  {
    StepsAt(w, v, ZERO, p);
    if p in t {
      QuietReached(w, v, t, p);
      if t[p].SFile? {
        QuietRead(w, v, t, p);
      }
    }
  }

  function NodeOf(op: Op): Node {
    match op
    case MkDir(_) => Dir
    case Put(_, content) => File(content)
  }

  lemma {:induction false} FullStepIsSnapshot(w: World, v: Visits, t: SourceTree, op: Op)
    requires ValidWorld(w) && Quiet(w, v, t) && [] in t && WalkAll(w, v, ZERO).Some?
    requires op in StepsOf(WalkAll(w, v, ZERO).value)
    ensures op.path != [] && Snapshot(w, t, op.path) == Some(NodeOf(op))
    ensures forall p | MakesDir(op, p) :: Snapshot(w, t, p) == Some(Dir)
  {
    FullStepAt(w, v, t, op.path);
    assert op == MkDir(op.path) || op == Put(op.path, op.content);
    forall p | MakesDir(op, p)
      ensures Snapshot(w, t, p) == Some(Dir)
    {
      assert SoundAt(w, v.statAt([]));
      if p != op.path {
        SnapshotAncestors(w, t, p, op.path);
      }
    }
  }

  /** They never want one path to be two things. */
  lemma {:induction false} FullStepsDoNotClash(w: World, v: Visits, t: SourceTree)
    requires ValidWorld(w) && Quiet(w, v, t) && [] in t && WalkAll(w, v, ZERO).Some?
    ensures NoClash(EMPTIED, StepsOf(WalkAll(w, v, ZERO).value))
  {
    var ops := StepsOf(WalkAll(w, v, ZERO).value);
    forall op | op in ops
      ensures !TreeClash(EMPTIED, op)
    {
      FullStepIsSnapshot(w, v, t, op);
    }
    forall a, b | a in ops && b in ops
      ensures !Clash(a, b)
    {
      FullStepIsSnapshot(w, v, t, a);
      FullStepIsSnapshot(w, v, t, b);
    }
  }

  /** The overlay of those steps on an emptied tree is the snapshot again. */
  lemma {:induction false} OverlayOfFullSteps(w: World, v: Visits, t: SourceTree, p: Path)
    requires ValidWorld(w) && Quiet(w, v, t) && [] in t && WalkAll(w, v, ZERO).Some?
    ensures Overlay(EMPTIED, StepsOf(WalkAll(w, v, ZERO).value), p) == Snapshot(w, t, p)
  {
    var ops := StepsOf(WalkAll(w, v, ZERO).value);
    FullStepAt(w, v, t, p);
    LastPutIn(ops, p);
    if SomeDir(ops, p) {
      var op :| op in ops && MakesDir(op, p);
      FullStepIsSnapshot(w, v, t, op);
    }
    if p != [] && Snapshot(w, t, p) == Some(Dir) {
      assert MkDir(p) in ops && MakesDir(MkDir(p), p);
    }
  }

  /** A quiet source is archived completely. */
  lemma {:induction false} QuietArchive(w: World, v: Visits, t: SourceTree, dump: Bytes)
    requires ValidWorld(w) && Quiet(w, v, t) && [] in t
    ensures WalkAll(w, v, ZERO).Some? && Written(w, v, ZERO, Some(dump)).Some?
    ensures var es := Entries(Written(w, v, ZERO, Some(dump)).value);
            && AllComplete(es)
            && Ops(es) == StepsOf(WalkAll(w, v, ZERO).value)
            && LastDump(es) == Some(dump)
            && (forall i | 0 <= i < |es| :: es[i].DumpEntry? <==> i == 0)
            && (HasContent(es) <==> exists p :: p != [] && Snapshot(w, t, p).Some?)
  {
    PrunedWalkIsFilter(w, v, ZERO, t);
    WalkedPathsAreOrdinary(w, v, ZERO);
    var items := WalkAll(w, v, ZERO).value;
    forall item: Item | item in items
      ensures item.DirItem? || item.complete
    {
      assert item.FileItem? ==> item == FileItem(item.path, item.content, item.complete);
    }
    ArchiveMeaning(dump, items);
    AllEntriesComplete(dump, items);
    SomethingToArchive(w, v, t);
  }

  lemma {:induction false} SomethingToArchive(w: World, v: Visits, t: SourceTree)
    requires ValidWorld(w) && Quiet(w, v, t) && [] in t && WalkAll(w, v, ZERO).Some?
    ensures WalkAll(w, v, ZERO).value != [] <==> exists p :: p != [] && Snapshot(w, t, p).Some?
  {
    var items := WalkAll(w, v, ZERO).value;
    if items != [] {
      ItemToStep(items, items[0]);
      FullStepIsSnapshot(w, v, t, StepOf(items[0]));
    }
    if p :| p != [] && Snapshot(w, t, p).Some? {
      FullStepAt(w, v, t, p);
      assert StepsOf(items) != [];
    }
  }

  /** Point-in-time replace: a full backup of a quiet source, applied as base, succeeds whenever the
      dump imports and wp-content can be emptied, and then rebuilds exactly the source's snapshot,
      whatever was there before; with an empty snapshot the old tree stays. */
  lemma {:induction false} PointInTimeReplace(w: World, v: Visits, t: SourceTree, dump: Bytes, tree: Tree,
            db: Db, importOk: nat -> bool)
    requires ValidWorld(w) && Quiet(w, v, t) && [] in t && WellFormed(tree)
    ensures Written(w, v, ZERO, Some(dump)).Some?
    ensures var es := Entries(Written(w, v, ZERO, Some(dump)).value);
            var o := Applied(tree, db, es, true, true, importOk);
            var content := exists p :: p != [] && Snapshot(w, t, p).Some?;
            && (o.error.None? <==> importOk(0) && (content ==> !IsFileIn(tree, [])))
            && (o.error.None? ==> o.db == Imported(dump))
            && (o.error.None? && content ==> forall p :: Lookup(o.tree, p) == Snapshot(w, t, p))
            && (o.error.None? && !content ==> o.tree == tree)
  {
    QuietArchive(w, v, t, dump);
    FullStepsDoNotClash(w, v, t);
    var es, ops := Entries(Written(w, v, ZERO, Some(dump)).value), StepsOf(WalkAll(w, v, ZERO).value);
    assert ImportsOk(es, importOk) <==> importOk(0) by {
      assert es[0].DumpEntry?;
    }
    assert WellFormed(EMPTIED);
    RunSucceedsIffNoClash(EMPTIED, ops);
    AppliedExact(tree, db, es, true, true, importOk);
    if HasContent(es) {
      forall p
        ensures Overlay(EMPTIED, ops, p) == Snapshot(w, t, p)
      {
        OverlayOfFullSteps(w, v, t, p);
      }
    } else {
      NoContentNoOps(es);
    }
  }

  lemma {:induction false} AllEntriesComplete(dump: Bytes, items: seq<Item>)
    requires OrdinaryPaths(items) && forall item: Item | item in items :: item.DirItem? || item.complete
    ensures var ms := [DumpMember(dump)] + Members(items); Framed(ms) && AllComplete(Entries(ms))
  {
    ArchiveMeaning(dump, items);
    var ms := [DumpMember(dump)] + Members(items);
    forall i | 0 <= i < |ms|
      ensures ms[i].complete && Entries(ms)[i].complete
    {
      if i > 0 {
        assert items[i - 1] in items;
      }
    }
  }

  lemma {:induction false} IncompleteFails(r: SiteResult, d: Delivery, isBase: bool, i: nat)
    requires WellFormed(r.tree) && i < |d.entries| && !d.entries[i].complete
    ensures !Element(r, d, isBase).ok
  {
    assert d.entries[i] in d.entries;
    AppliedExact(r.tree, r.db, d.entries, d.eof, isBase, d.importOk);
  }

  /** A file that shrank while it was read can leave a short last member in an archive that is
      reported as written; no restore of that archive succeeds. */
  lemma {:induction false} TornArchiveIsRefused(w: World, v: Visits, since: Time, dump: Bytes, d: Delivery,
                             tree: Tree, db: Db, isBase: bool, m: Member)
    requires ValidWorld(w) && WellFormed(tree) && Delivers(w, v, since, dump, d)
    requires m in Written(w, v, since, Some(dump)).value && !m.complete
    ensures !Element(SiteResult(tree, db, true), d, isBase).ok
  {
    var ms := Written(w, v, since, Some(dump)).value;
    var i :| 0 <= i < |ms| && ms[i] == m;
    IncompleteFails(SiteResult(tree, db, true), d, isBase, i);
  }
}
