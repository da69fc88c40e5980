/** Chains over a source nobody writes to: every backup and every restore succeeds, and the result is
    the source. They also show that what the theorems about chains assume can be met. */
module StillSource {
  import opened PathNames
  import opened FileTree
  import opened Restore
  import opened Walk
  import opened Backup
  import opened Chain

  /** Something outside excluded subtrees is there to be backed up. */
  ghost predicate HasAny(w: World, t: SourceTree) {
    exists p :: p != [] && Snapshot(w, t, p).Some?
  }

  ghost predicate IsSnapshot(w: World, t: SourceTree, tree: Tree) {
    forall p :: Lookup(tree, p) == Snapshot(w, t, p)
  }

  /** A step that recreates part of the snapshot. */
  ghost predicate Recreates(w: World, t: SourceTree, op: Op) {
    && op.path != [] && Snapshot(w, t, op.path) == Some(NodeOf(op))
    && forall p | MakesDir(op, p) :: Snapshot(w, t, p) == Some(Dir)
  }

  ghost predicate AllRecreate(w: World, t: SourceTree, ops: seq<Op>) {
    forall op | op in ops :: Recreates(w, t, op)
  }

  /** Also a delta's walk meets nothing but the snapshot. */
  lemma {:induction false} WalkRecreates(w: World, v: Visits, since: Time, t: SourceTree)
    requires ValidWorld(w) && Quiet(w, v, t) && [] in t
    ensures WalkAll(w, v, since).Some?
    ensures AllRecreate(w, t, StepsOf(WalkAll(w, v, since).value))
    ensures forall item: Item | item in WalkAll(w, v, since).value :: item.DirItem? || item.complete
  {
    PrunedWalkIsFilter(w, v, since, t);
    var items := WalkAll(w, v, since).value;
    forall op | op in StepsOf(items)
      ensures Recreates(w, t, op)
    {
      var item := StepFromItem(items, op);
      assert item.FileItem? ==> item == FileItem(item.path, item.content, item.complete);
      assert item.DirItem? ==> item == DirItem(item.path);
      forall p | MakesDir(op, p)
        ensures Snapshot(w, t, p) == Some(Dir)
      {
        assert SoundAt(w, v.statAt([]));
        if p != op.path {
          SnapshotAncestors(w, t, p, op.path);
        }
      }
    }
    forall item: Item | item in items
      ensures item.DirItem? || item.complete
    {
      assert item.FileItem? ==> item == FileItem(item.path, item.content, item.complete);
    }
  }

  lemma {:induction false} RecreatingStepsFit(w: World, t: SourceTree, tree: Tree, ops: seq<Op>)
    requires IsSnapshot(w, t, tree) && AllRecreate(w, t, ops)
    ensures NoClash(tree, ops)
  {
    forall op | op in ops
      ensures !TreeClash(tree, op)
    {
      assert Recreates(w, t, op);
      assert Lookup(tree, op.path) == Snapshot(w, t, op.path);
      forall p | p in tree && MakesDir(op, p)
        ensures tree[p].Dir?
      {
        assert Lookup(tree, p) == Snapshot(w, t, p);
      }
    }
    forall a, b | a in ops && b in ops
      ensures !Clash(a, b)
    {
      assert Recreates(w, t, a) && Recreates(w, t, b);
    }
  }

  lemma {:induction false} RecreatingChangesNothing(w: World, t: SourceTree, tree: Tree, ops: seq<Op>)
    requires IsSnapshot(w, t, tree) && AllRecreate(w, t, ops) && WellFormed(tree) && Run(tree, ops).Some?
    ensures IsSnapshot(w, t, Run(tree, ops).value)
  {
    RunIsOverlay(tree, ops);
    forall p
      ensures Lookup(Run(tree, ops).value, p) == Snapshot(w, t, p)
    {
      LastPutIn(ops, p);
      assert Lookup(Run(tree, ops).value, p) == Overlay(tree, ops, p);
      assert Lookup(tree, p) == Snapshot(w, t, p);
      if LastPut(ops, p).Some? {
        assert Recreates(w, t, Put(p, LastPut(ops, p).value));
      } else if SomeDir(ops, p) {
        var op :| op in ops && MakesDir(op, p);
        assert Recreates(w, t, op);
      }
    }
  }

  /** Everything goes well on the way back: a clean end, imports that work, a willing data plane. */
  ghost predicate Undisturbed(d: Delivery) {
    d.eof && d.planeOk && forall i :: d.importOk(i)
  }

  /** What a site looks like between the elements of such a chain. */
  ghost predicate Restored(w: World, t: SourceTree, r: SiteResult) {
    r.ok && WellFormed(r.tree) && (HasAny(w, t) ==> IsSnapshot(w, t, r.tree))
  }

  lemma {:induction false} BaseRestores(w: World, v: Visits, t: SourceTree, dump: Bytes, d: Delivery,
            tree: Tree, db: Db)
    requires ValidWorld(w) && Quiet(w, v, t) && [] in t && Delivers(w, v, ZERO, dump, d) && Undisturbed(d)
    requires WellFormed(tree) && !IsFileIn(tree, [])
    ensures Restored(w, t, Element(SiteResult(tree, db, true), d, true))
  {
    PointInTimeReplace(w, v, t, dump, tree, db, d.importOk);
    AppliedExact(tree, db, d.entries, true, true, d.importOk);
  }

  lemma {:induction false} DeltaRestores(w: World, v: Visits, since: Time, t: SourceTree, dump: Bytes,
            d: Delivery, r: SiteResult)
    requires ValidWorld(w) && Quiet(w, v, t) && [] in t && Delivers(w, v, since, dump, d) && Undisturbed(d)
    requires Restored(w, t, r)
    ensures Restored(w, t, Element(r, d, false))
  {
    WalkRecreates(w, v, since, t);
    WalkedPathsAreOrdinary(w, v, since);
    var items := WalkAll(w, v, since).value;
    ArchiveMeaning(dump, items);
    AllEntriesComplete(dump, items);
    var ops := StepsOf(items);
    if HasAny(w, t) {
      RecreatingStepsFit(w, t, r.tree, ops);
      RunSucceedsIffNoClash(r.tree, ops);
      RecreatingChangesNothing(w, t, r.tree, ops);
    } else {
      NothingToDo(w, t, ops);
    }
    AppliedExact(r.tree, r.db, d.entries, true, false, d.importOk);
  }

  lemma {:induction false} NothingToDo(w: World, t: SourceTree, ops: seq<Op>)
    requires AllRecreate(w, t, ops)
    ensures ops != [] ==> HasAny(w, t)
  {
    if ops != [] {
      assert Recreates(w, t, ops[0]);
    }
  }

  /** A chain of any length over a still source restores, and the site is then the source's
      directories and regular files outside excluded subtrees, if there are any. */
  lemma {:induction false} StillChainRestores(w: World, t: SourceTree, chain: seq<Taken>, ds: seq<Delivery>,
                                              tree: Tree, db: Db)
    requires ValidWorld(w) && [] in t && Timed(chain) && DeliversChain(w, chain, ds) && chain != []
    requires forall k | 0 <= k < |chain| :: Quiet(w, chain[k].visits, t) && Undisturbed(ds[k])
    requires WellFormed(tree) && !IsFileIn(tree, [])
    ensures Restored(w, t, RestoredChain(tree, db, ds))
  {
    var k := |chain| - 1;
    if k == 0 {
      assert ds[..0] == [];
      BaseRestores(w, chain[0].visits, t, chain[0].dump, ds[0], tree, db);
    } else {
      var c, d := chain[..k], ds[..k];
      ChainPrefix(w, chain, ds);
      assert forall j | 0 <= j < k :: c[j] == chain[j] && d[j] == ds[j];
      StillChainRestores(w, t, c, d, tree, db);
      DeltaRestores(w, chain[k].visits, SinceFor(chain, k), t, chain[k].dump, ds[k], RestoredChain(tree, db, d));
    }
  }

  /** Nobody writes while this one walk is under way. */
  ghost predicate QuietWalk(w: World, v: Visits) {
    exists t :: [] in t && Quiet(w, v, t)
  }

  /** Every backup taken while nobody writes is written, whatever happened between the backups. */
  lemma {:induction false} QuietChainIsTaken(w: World, chain: seq<Taken>) returns (ds: seq<Delivery>)
    requires ValidWorld(w)
    requires forall k | 0 <= k < |chain| :: QuietWalk(w, chain[k].visits)
    ensures DeliversChain(w, chain, ds) && forall k | 0 <= k < |chain| :: Undisturbed(ds[k])
  {
    forall k | 0 <= k < |chain|
      ensures Written(w, chain[k].visits, SinceFor(chain, k), Some(chain[k].dump)).Some?
    {
      var v, since := chain[k].visits, SinceFor(chain, k);
      var t :| [] in t && Quiet(w, v, t);
      WalkRecreates(w, v, since, t);
      WalkedPathsAreOrdinary(w, v, since);
      AllEntriesComplete(chain[k].dump, WalkAll(w, v, since).value);
    }
    ds := seq(|chain|, k requires 0 <= k < |chain| =>
      var ms := Written(w, chain[k].visits, SinceFor(chain, k), Some(chain[k].dump)).value;
      Delivery(Entries(ms), true, i => true, true));
  }

  /** All paths visited at one instant. */
  function AllAt(time: Time): Visits {
    Visits(p => time, p => time, (p, i) => time, p => true)
  }

  /** A source that always holds one file. */
  function OneFile(content: Bytes): SourceTree {
    map[[] := SDir, ["a"] := SFile(content, 1)]
  }

  function Still(t: SourceTree): World {
    World(time => t, p => false, 1)
  }

  lemma {:induction false} OneFileIsSound(content: Bytes)
    ensures var w := Still(OneFile(content)); ValidWorld(w) && Honest(w)
  {
    var w := Still(OneFile(content));
    forall time
      ensures SoundAt(w, time)
    {
      assert Ordinary("a");
    }
  }

  lemma {:induction false} OneFileIsThere(content: Bytes)
    ensures HasAny(Still(OneFile(content)), OneFile(content))
  {
    var w, t, a := Still(OneFile(content)), OneFile(content), ["a"];
    assert a in t && t[a].SFile?;
    assert Snapshot(w, t, a) == Some(File(content));
  }

  /** A base and a delta, each walk at one instant after its cursor. */
  function TwoTakes(dump: Bytes): seq<Taken> {
    [Taken(2, AllAt(3), dump), Taken(4, AllAt(5), dump)]
  }

  lemma {:induction false} TwoTakesAreTimed(dump: Bytes, t: SourceTree)
    ensures Timed(TwoTakes(dump)) && forall k | 0 <= k < 2 :: Quiet(Still(t), TwoTakes(dump)[k].visits, t)
  {
  }

  lemma {:induction false} DeltaSkipsTheFile(dump: Bytes, content: Bytes)
    ensures var w, chain := Still(OneFile(content)), TwoTakes(dump);
            LastVisited(w, chain, ["a"]) && !PickedBy(w, chain, 1, ["a"])
  {
    var w, t, a := Still(OneFile(content)), OneFile(content), ["a"];
    OneFileIsSound(content);
    TwoTakesAreTimed(dump, t);
    assert a in t && forall k | 0 <= k < |a| :: !Skipped(w, a[..k]);
    QuietReached(w, AllAt(5), t, a);
  }

  /** What NoLostUpdate, RestoredIffPickedUp and ChainEqualsFullIff assume, for a chain
      and a full backup of a source with one file that the delta skips. */
  ghost predicate Assumed(dump: Bytes, content: Bytes, ds: seq<Delivery>, full: Delivery) {
    var w, chain, t := Still(OneFile(content)), TwoTakes(dump), OneFile(content);
    && ValidWorld(w) && Honest(w) && Timed(chain) && DeliversChain(w, chain, ds)
    && RestoredChain(EMPTIED, Live, ds).ok && HasContent(ds[0].entries)
    && LastVisited(w, chain, ["a"]) && !PickedBy(w, chain, 1, ["a"])
    && Quiet(w, chain[1].visits, t) && Delivers(w, chain[1].visits, ZERO, dump, full)
    && RestoredChain(EMPTIED, Live, [full]).ok && HasContent(full.entries)
  }

  /** These assumptions can be met together, whatever the dump and the file hold. */
  lemma {:induction false} AssumptionsAreMet(dump: Bytes, content: Bytes)
    ensures exists ds, full :: Assumed(dump, content, ds, full)
  {
    OneFileIsSound(content);
    OneFileIsThere(content);
    TwoTakesAreTimed(dump, OneFile(content));
    DeltaSkipsTheFile(dump, content);
    var ds := TakenAndRestored(Still(OneFile(content)), OneFile(content), TwoTakes(dump));
    var full := FullTakenAndRestored(Still(OneFile(content)), OneFile(content), AllAt(5), 4, dump);
    assert Assumed(dump, content, ds, full);
  }

  lemma {:induction false} FullTakenAndRestored(w: World, t: SourceTree, v: Visits, start: Time,
            dump: Bytes) returns (full: Delivery)
    requires ValidWorld(w) && [] in t && HasAny(w, t) && Quiet(w, v, t) && start > ZERO && During(v, start)
    ensures Delivers(w, v, ZERO, dump, full)
    ensures RestoredChain(EMPTIED, Live, [full]).ok && HasContent(full.entries)
  {
    var alone := [Taken(start, v, dump)];
    var ds := TakenAndRestored(w, t, alone);
    full := ds[0];
    assert ds == [full];
    assert SinceFor(alone, 0) == ZERO;
  }

  lemma {:induction false} TakenAndRestored(w: World, t: SourceTree, chain: seq<Taken>) returns (ds: seq<Delivery>)
    requires ValidWorld(w) && [] in t && Timed(chain) && chain != [] && HasAny(w, t)
    requires forall k | 0 <= k < |chain| :: Quiet(w, chain[k].visits, t)
    ensures DeliversChain(w, chain, ds) && RestoredChain(EMPTIED, Live, ds).ok && HasContent(ds[0].entries)
  {
    forall k | 0 <= k < |chain|
      ensures QuietWalk(w, chain[k].visits)
    {
      assert Quiet(w, chain[k].visits, t);
    }
    ds := QuietChainIsTaken(w, chain);
    EmptiedFits();
    StillChainRestores(w, t, chain, ds, EMPTIED, Live);
    QuietArchive(w, chain[0].visits, t, chain[0].dump);
  }

  lemma {:induction false} EmptiedFits()
    ensures WellFormed(EMPTIED) && !IsFileIn(EMPTIED, [])
  {
  }
}
