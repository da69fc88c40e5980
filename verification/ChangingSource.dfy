/** When backups of a source that changes while it is read, and between backups, restore: the exact
    conditions, what the site then holds, and sources for which they fail. */
module ChangingSource {
  import opened Text
  import opened PathNames
  import opened FileTree
  import opened Restore
  import opened Walk
  import opened Backup
  import opened Chain
  import opened StillSource

  // ---------------------------------------------------------------------------------------------
  // What one walk's archive makes of a path.

  /** Some step of the archive needs the path to be a directory. */
  ghost predicate UsesAsDir(w: World, v: Visits, since: Time, p: Path) {
    exists q :: AsDirFor(w, v, since, p, q)
  }

  /** A file picked up below the path, or a directory a full walk entered at or below it. */
  ghost predicate AsDirFor(w: World, v: Visits, since: Time, p: Path, q: Path) {
    || (IsProperPrefix(p, q) && Picked(w, v, since, q))
    || (IsPrefix(p, q) && q != [] && since == ZERO && Reached(w, v, q) && Open(w, v, q))
  }

  lemma {:induction false} UsesAsDirSteps(w: World, v: Visits, since: Time, p: Path)
    requires ValidWorld(w) && WalkAll(w, v, since).Some?
    ensures SomeDir(StepsOf(WalkAll(w, v, since).value), p) <==> UsesAsDir(w, v, since, p)
  {
    var ops := StepsOf(WalkAll(w, v, since).value);
    if SomeDir(ops, p) {
      var op :| op in ops && MakesDir(op, p);
      StepsAt(w, v, since, op.path);
      assert op == MkDir(op.path) || op == Put(op.path, op.content);
      assert AsDirFor(w, v, since, p, op.path);
    }
    if UsesAsDir(w, v, since, p) {
      var q :| AsDirFor(w, v, since, p, q);
      StepsAt(w, v, since, q);
      if IsProperPrefix(p, q) && Picked(w, v, since, q) {
        assert MakesDir(Put(q, ReadOf(w, v, q).value), p);
      } else {
        assert MakesDir(MkDir(q), p);
      }
    }
  }

  /** What a walk uses as a directory was one when it was visited, even while the source changes. */
  lemma {:induction false} UsedDirWasDir(w: World, v: Visits, since: Time, p: Path)
    requires UsesAsDir(w, v, since, p)
    ensures IsDirAt(w, v.statAt(p), p)
    ensures Reached(w, v, p) && Open(w, v, p)
  {
    var q :| AsDirFor(w, v, since, p, q);
    assert q[..|p|] == p;
    if |p| < |q| {
      assert Gate(w, v, q, |p|);
    } else {
      assert q[..|q|] == q;
    }
    forall k | 0 <= k < |p|
      ensures Gate(w, v, p, k)
    {
      assert Gate(w, v, q, k);
      assert q[..k] == p[..k] && q[..k + 1] == p[..k + 1];
    }
  }

  /** Within one walk no path is both a file and a directory, whatever is written meanwhile, because
      each path is looked at once. */
  lemma {:induction false} WalkNeverClashes(w: World, v: Visits, since: Time)
    requires ValidWorld(w) && WalkAll(w, v, since).Some?
    ensures NoClash(EMPTIED, StepsOf(WalkAll(w, v, since).value))
  {
    var ops := StepsOf(WalkAll(w, v, since).value);
    forall a, b | a in ops && b in ops && a.Put?
      ensures !MakesDir(b, a.path) && a.path != []
    {
      StepsAt(w, v, since, a.path);
      UsesAsDirSteps(w, v, since, a.path);
      if SomeDir(ops, a.path) {
        UsedDirWasDir(w, v, since, a.path);
      }
      assert !SomeDir(ops, a.path);
    }
  }

  // ---------------------------------------------------------------------------------------------
  // One full backup.

  /** A visited file was read with the size it was announced with. */
  ghost predicate SizeKept(w: World, v: Visits, q: Path) {
    ReadOf(w, v, q).Some? && |ReadOf(w, v, q).value| == |w.at(v.statAt(q))[q].content|
  }

  /** The last thing archived, if it is a file, was not shorter at its read than at its stat. */
  ghost predicate LastWhole(w: World, v: Visits, since: Time)
    requires ValidWorld(w) && WalkAll(w, v, since).Some?
  {
    var items := WalkAll(w, v, since).value;
    items == [] || items[|items| - 1].DirItem? || SizeKept(w, v, items[|items| - 1].path)
  }

  lemma {:induction false} ItemWhole(w: World, v: Visits, since: Time, item: Item)
    requires ValidWorld(w) && WalkAll(w, v, since).Some? && item in WalkAll(w, v, since).value
    ensures item.FileItem? ==> (item.complete <==> SizeKept(w, v, item.path))
  {
    WalkExact(w, v, since);
  }

  predicate Whole(item: Item) {
    item.DirItem? || item.complete
  }

  lemma {:induction false} EntriesWhole(dump: Bytes, items: seq<Item>)
    ensures AllComplete([DumpEntry(dump, true)] + ItemEntries(items)) <==>
            forall item: Item | item in items :: Whole(item)
  {
    var es := [DumpEntry(dump, true)] + ItemEntries(items);
    if AllComplete(es) {
      forall item: Item | item in items
        ensures Whole(item)
      {
        var i :| 0 <= i < |items| && items[i] == item;
        assert es[i + 1] in es;
      }
    } else {
      var e :| e in es && !e.complete;
      var i :| 0 <= i < |es| && es[i] == e;
      assert items[i - 1] in items && !Whole(items[i - 1]);
    }
  }

  lemma {:induction false} FramedMeansLast(dump: Bytes, items: seq<Item>)
    requires Framed([DumpMember(dump)] + Members(items))
    ensures (forall item: Item | item in items :: Whole(item)) <==> items == [] || Whole(items[|items| - 1])
  {
    var ms := [DumpMember(dump)] + Members(items);
    if items != [] && Whole(items[|items| - 1]) {
      forall item: Item | item in items
        ensures Whole(item)
      {
        var i :| 0 <= i < |items| && items[i] == item;
        assert ms[i + 1] == MemberOf(item);
      }
    }
  }

  /** Only the last file of an archive that was written may have shrunk, and the archive is whole
      exactly if that one did not shrink either. */
  lemma {:induction false} WholeIffLastWhole(w: World, v: Visits, since: Time, dump: Bytes, d: Delivery)
    requires ValidWorld(w) && Delivers(w, v, since, dump, d)
    ensures AllComplete(d.entries) <==> LastWhole(w, v, since)
  {
    var items := WalkAll(w, v, since).value;
    WalkedPathsAreOrdinary(w, v, since);
    ArchiveMeaning(dump, items);
    EntriesWhole(dump, items);
    FramedMeansLast(dump, items);
    if items != [] {
      ItemWhole(w, v, since, items[|items| - 1]);
    }
  }

  /** No file but the last thing archived shrank. */
  ghost predicate OthersWhole(w: World, v: Visits, since: Time)
    requires ValidWorld(w) && WalkAll(w, v, since).Some?
  {
    var items := WalkAll(w, v, since).value;
    forall i | 0 <= i < |items| - 1 :: items[i].DirItem? || SizeKept(w, v, items[i].path)
  }

  /** When a backup of a changing source is written, exactly: there is a dump, every visit the walk
      reaches goes well, and no file but the last one shrank while it was read. */
  lemma {:induction false} WrittenIff(w: World, v: Visits, since: Time, dump: Option<Bytes>)
    requires ValidWorld(w)
    ensures Written(w, v, since, dump).Some? <==>
            && dump.Some?
            && (forall q | Reached(w, v, q) :: GoesWell(w, v, since, q))
            && (WalkAll(w, v, since).Some? ==> OthersWhole(w, v, since))
  {
    WalkSucceedsIff(w, v, since);
    if dump.Some? && WalkAll(w, v, since).Some? {
      FramedIff(dump.value, WalkAll(w, v, since).value);
      OthersWholeIff(w, v, since);
    }
  }

  lemma {:induction false} FramedIff(dump: Bytes, items: seq<Item>)
    ensures Framed([DumpMember(dump)] + Members(items)) <==> forall i | 0 <= i < |items| - 1 :: Whole(items[i])
  {
    var ms := [DumpMember(dump)] + Members(items);
    forall i | 0 <= i < |items|
      ensures ms[i + 1].complete <==> Whole(items[i])
    {
      assert ms[i + 1] == MemberOf(items[i]);
    }
    if forall i | 0 <= i < |items| - 1 :: Whole(items[i]) {
      forall i | 0 <= i < |ms| - 1
        ensures ms[i].complete
      {
        assert i > 0 ==> Whole(items[i - 1]);
      }
    }
  }

  lemma {:induction false} OthersWholeIff(w: World, v: Visits, since: Time)
    requires ValidWorld(w) && WalkAll(w, v, since).Some?
    ensures var items := WalkAll(w, v, since).value;
            OthersWhole(w, v, since) <==> forall i | 0 <= i < |items| - 1 :: Whole(items[i])
  {
    var items := WalkAll(w, v, since).value;
    forall i | 0 <= i < |items|
      ensures Whole(items[i]) <==> items[i].DirItem? || SizeKept(w, v, items[i].path)
    {
      ItemWhole(w, v, since, items[i]);
    }
  }

  lemma {:induction false} DeliveredMeaning(w: World, v: Visits, since: Time, dump: Bytes, d: Delivery)
    requires ValidWorld(w) && Delivers(w, v, since, dump, d)
    ensures WalkAll(w, v, since).Some?
    ensures Ops(d.entries) == StepsOf(WalkAll(w, v, since).value)
    ensures LastDump(d.entries) == Some(dump)
    ensures HasContent(d.entries) <==> WalkAll(w, v, since).value != []
    ensures ImportsOk(d.entries, d.importOk) <==> d.importOk(0)
  {
    WalkedPathsAreOrdinary(w, v, since);
    ArchiveMeaning(dump, WalkAll(w, v, since).value);
    assert d.entries[0] == DumpEntry(dump, true);
  }

  /** When the archive of a changing source restores on its own, exactly. */
  lemma {:induction false} FullRestoresIff(w: World, v: Visits, since: Time, dump: Bytes, d: Delivery,
            tree: Tree, db: Db)
    requires ValidWorld(w) && WellFormed(tree) && Delivers(w, v, since, dump, d)
    ensures Element(SiteResult(tree, db, true), d, true).ok <==>
            && d.eof && d.planeOk && d.importOk(0) && LastWhole(w, v, since)
            && (HasContent(d.entries) ==> !IsFileIn(tree, []))
  {
    DeliveredMeaning(w, v, since, dump, d);
    WholeIffLastWhole(w, v, since, dump, d);
    WalkNeverClashes(w, v, since);
    assert WellFormed(EMPTIED);
    RunSucceedsIffNoClash(EMPTIED, Ops(d.entries));
    ElementSucceedsIff(SiteResult(tree, db, true), d, true);
  }

  /** What a full walk saw at a path: a file with the content read, or a directory it entered. */
  ghost function Visited(w: World, v: Visits, p: Path): Option<Node> {
    if Picked(w, v, ZERO, p) && ReadOf(w, v, p).Some? then Some(File(ReadOf(w, v, p).value))
    else if p == [] || (Reached(w, v, p) && Open(w, v, p)) then Some(Dir)
    else None
  }

  lemma {:induction false} OverlayIsVisited(w: World, v: Visits, p: Path)
    requires ValidWorld(w) && WalkAll(w, v, ZERO).Some?
    ensures Overlay(EMPTIED, StepsOf(WalkAll(w, v, ZERO).value), p) == Visited(w, v, p)
  {
    var ops := StepsOf(WalkAll(w, v, ZERO).value);
    StepsAt(w, v, ZERO, p);
    LastPutIn(ops, p);
    UsesAsDirSteps(w, v, ZERO, p);
    if UsesAsDir(w, v, ZERO, p) {
      UsedDirWasDir(w, v, ZERO, p);
    }
    if p != [] && Reached(w, v, p) && Open(w, v, p) {
      assert AsDirFor(w, v, ZERO, p, p);
    }
  }

  /** After such a restore the site holds, path by path, what the walk saw: each file as it was read,
      each directory as it was entered, and nothing else; with nothing seen the old tree stays. */
  lemma {:induction false} FullRestoresVisited(w: World, v: Visits, dump: Bytes, d: Delivery, tree: Tree, db: Db)
    requires ValidWorld(w) && WellFormed(tree) && Delivers(w, v, ZERO, dump, d)
    requires Element(SiteResult(tree, db, true), d, true).ok
    ensures var r := Element(SiteResult(tree, db, true), d, true);
            && r.db == Imported(dump)
            && (HasContent(d.entries) ==> forall p :: Lookup(r.tree, p) == Visited(w, v, p))
            && (!HasContent(d.entries) ==> r.tree == tree)
    ensures HasContent(d.entries) <==> exists p :: p != [] && Visited(w, v, p).Some?
  {
    DeliveredMeaning(w, v, ZERO, dump, d);
    AppliedExact(tree, db, d.entries, d.eof, true, d.importOk);
    NoContentNoOps(d.entries);
    if HasContent(d.entries) {
      forall p
        ensures Overlay(EMPTIED, Ops(d.entries), p) == Visited(w, v, p)
      {
        OverlayIsVisited(w, v, p);
      }
    }
    SomethingVisited(w, v);
  }

  lemma {:induction false} SomethingVisited(w: World, v: Visits)
    requires ValidWorld(w) && WalkAll(w, v, ZERO).Some?
    ensures WalkAll(w, v, ZERO).value != [] <==> exists p :: p != [] && Visited(w, v, p).Some?
  {
    var items := WalkAll(w, v, ZERO).value;
    if items != [] {
      WalkExact(w, v, ZERO);
      assert items[0] in items;
      assert Visited(w, v, items[0].path).Some?;
    }
    if p :| p != [] && Visited(w, v, p).Some? {
      StepsAt(w, v, ZERO, p);
      assert StepsOf(items) != [];
    }
  }

  // ---------------------------------------------------------------------------------------------
  // A chain.

  ghost predicate UsedBy(w: World, chain: seq<Taken>, k: nat, p: Path)
    requires k < |chain|
  {
    UsesAsDir(w, chain[k].visits, SinceFor(chain, k), p)
  }

  ghost predicate UsedByAny(w: World, chain: seq<Taken>, p: Path) {
    exists k :: 0 <= k < |chain| && UsedBy(w, chain, k, p)
  }

  /** No path that one element picked up as a file is a directory, or lies above a file, for another. */
  ghost predicate ConflictFree(w: World, chain: seq<Taken>) {
    forall p :: !(PickedByAny(w, chain, p) && UsedByAny(w, chain, p))
  }

  /** Nor does the tree the base starts from hold the other kind at such a path. */
  ghost predicate FitsTree(w: World, chain: seq<Taken>, tree: Tree) {
    forall p | p in tree :: if tree[p].Dir? then !PickedByAny(w, chain, p) else !UsedByAny(w, chain, p)
  }

  ghost predicate SomePut(ops: seq<Op>, p: Path) {
    exists c :: Put(p, c) in ops
  }

  lemma {:induction false} PutsOfChain(w: World, chain: seq<Taken>, ds: seq<Delivery>, p: Path)
    requires ValidWorld(w) && DeliversChain(w, chain, ds)
    ensures SomePut(ChainOps(ds), p) <==> PickedByAny(w, chain, p)
  {
    if SomePut(ChainOps(ds), p) {
      var c :| Put(p, c) in ChainOps(ds);
      var k := PutComesFromElement(w, chain, ds, p, c);
    }
    if PickedByAny(w, chain, p) {
      var k :| 0 <= k < |chain| && PickedBy(w, chain, k, p);
      PickedIsPut(w, chain, ds, k, p);
    }
  }

  lemma {:induction false} DirsOfChain(w: World, chain: seq<Taken>, ds: seq<Delivery>, p: Path)
    requires ValidWorld(w) && DeliversChain(w, chain, ds)
    ensures SomeDir(ChainOps(ds), p) <==> UsedByAny(w, chain, p)
  {
    if SomeDir(ChainOps(ds), p) {
      var op :| op in ChainOps(ds) && MakesDir(op, p);
      InChainOps(ds, op);
      var k :| 0 <= k < |ds| && op in OpsByElement(ds)[k];
      ElementMeaning(w, chain, ds, k);
      UsesAsDirSteps(w, chain[k].visits, SinceFor(chain, k), p);
      assert UsedBy(w, chain, k, p);
    }
    if UsedByAny(w, chain, p) {
      var k :| 0 <= k < |chain| && UsedBy(w, chain, k, p);
      ElementMeaning(w, chain, ds, k);
      UsesAsDirSteps(w, chain[k].visits, SinceFor(chain, k), p);
      var op :| op in OpsByElement(ds)[k] && MakesDir(op, p);
      InChainOps(ds, op);
    }
  }

  ghost predicate OneKindEach(tree: Tree, ops: seq<Op>) {
    && (forall p :: !(SomePut(ops, p) && SomeDir(ops, p)))
    && forall p | p in tree :: if tree[p].Dir? then !SomePut(ops, p) else !SomeDir(ops, p)
  }

  /** Clash-freedom of any steps, path by path. */
  lemma {:induction false} NoClashByPath(tree: Tree, ops: seq<Op>)
    ensures NoClash(tree, ops) <==> OneKindEach(tree, ops)
  {
    if NoClash(tree, ops) {
      forall p
        ensures !(SomePut(ops, p) && SomeDir(ops, p))
      {
        assert forall c, b | Put(p, c) in ops && b in ops :: !Clash(Put(p, c), b);
      }
      forall p | p in tree
        ensures if tree[p].Dir? then !SomePut(ops, p) else !SomeDir(ops, p)
      {
        assert forall op | op in ops :: !TreeClash(tree, op);
        assert forall c | Put(p, c) in ops :: !TreeClash(tree, Put(p, c));
      }
    }
    if OneKindEach(tree, ops) {
      OneKindFits(tree, ops);
    }
  }

  lemma {:induction false} OneKindFits(tree: Tree, ops: seq<Op>)
    requires OneKindEach(tree, ops)
    ensures NoClash(tree, ops)
  {
    forall op | op in ops
      ensures !TreeClash(tree, op)
    {
      assert op.Put? ==> op == Put(op.path, op.content) && SomePut(ops, op.path);
      assert forall p | MakesDir(op, p) :: SomeDir(ops, p);
    }
    forall a, b | a in ops && b in ops
      ensures !Clash(a, b)
    {
      assert a.Put? ==> a == Put(a.path, a.content) && SomePut(ops, a.path);
      assert b.Put? ==> b == Put(b.path, b.content) && SomePut(ops, b.path);
      assert forall p | MakesDir(a, p) || MakesDir(b, p) :: SomeDir(ops, p);
    }
  }

  lemma {:induction false} ConflictsAreClashes(w: World, chain: seq<Taken>, ds: seq<Delivery>, tree: Tree)
    requires ValidWorld(w) && DeliversChain(w, chain, ds)
    ensures NoClash(tree, ChainOps(ds)) <==> ConflictFree(w, chain) && FitsTree(w, chain, tree)
  {
    NoClashByPath(tree, ChainOps(ds));
    forall p
      ensures SomePut(ChainOps(ds), p) <==> PickedByAny(w, chain, p)
      ensures SomeDir(ChainOps(ds), p) <==> UsedByAny(w, chain, p)
    {
      PutsOfChain(w, chain, ds, p);
      DirsOfChain(w, chain, ds, p);
    }
  }

  /** The deliveries and walks of a chain, each by itself. */
  ghost predicate EachGood(w: World, chain: seq<Taken>, ds: seq<Delivery>)
    requires ValidWorld(w) && DeliversChain(w, chain, ds)
  {
    forall k | 0 <= k < |chain| :: Good(w, chain[k].visits, SinceFor(chain, k), chain[k].dump, ds[k])
  }

  ghost predicate Good(w: World, v: Visits, since: Time, dump: Bytes, d: Delivery)
    requires ValidWorld(w) && Delivers(w, v, since, dump, d)
  {
    d.eof && d.planeOk && d.importOk(0) && LastWhole(w, v, since)
  }

  lemma {:induction false} GoodIsFlawless(w: World, v: Visits, since: Time, dump: Bytes, d: Delivery)
    requires ValidWorld(w) && Delivers(w, v, since, dump, d)
    ensures Flawless(d) <==> Good(w, v, since, dump, d)
  {
    DeliveredMeaning(w, v, since, dump, d);
    WholeIffLastWhole(w, v, since, dump, d);
  }

  /** When a chain of backups of a changing source restores, exactly: every element is delivered and
      imported, no element ends in a file that shrank while it was read, wp-content can be emptied if
      the base has content, and no path is a file for one element and a directory for another. */
  lemma {:induction false} ChainRestoresIff(w: World, chain: seq<Taken>, ds: seq<Delivery>, tree: Tree, db: Db)
    requires ValidWorld(w) && DeliversChain(w, chain, ds) && chain != [] && WellFormed(tree)
    ensures RestoredChain(tree, db, ds).ok <==>
            && EachGood(w, chain, ds)
            && (HasContent(ds[0].entries) ==> !IsFileIn(tree, []))
            && ConflictFree(w, chain) && FitsTree(w, chain, StartTree(tree, ds[0].entries, true))
  {
    ChainSucceedsIff(tree, db, ds);
    ConflictsAreClashes(w, chain, ds, StartTree(tree, ds[0].entries, true));
    forall k | 0 <= k < |chain|
      ensures Flawless(ds[k]) <==> Good(w, chain[k].visits, SinceFor(chain, k), chain[k].dump, ds[k])
    {
      GoodIsFlawless(w, chain[k].visits, SinceFor(chain, k), chain[k].dump, ds[k]);
    }
  }

  /** An emptied tree fits every chain. */
  lemma {:induction false} EmptiedFitsAll(w: World, chain: seq<Taken>)
    ensures FitsTree(w, chain, EMPTIED)
  {
    assert !PickedByAny(w, chain, []);
  }

  /** Latest wins, in terms of the source: a path has the content read by the last element that picked
      it up. */
  lemma {:induction false} LatestPickWins(w: World, chain: seq<Taken>, ds: seq<Delivery>, tree: Tree, db: Db,
            k: nat, q: Path)
    requires ValidWorld(w) && Timed(chain) && DeliversChain(w, chain, ds) && WellFormed(tree)
    requires k < |chain| && RestoredChain(tree, db, ds).ok
    requires PickedBy(w, chain, k, q) && forall j | k < j < |chain| :: !PickedBy(w, chain, j, q)
    ensures ReadOf(w, chain[k].visits, q).Some?
    ensures Lookup(RestoredChain(tree, db, ds).tree, q) == Some(File(ReadOf(w, chain[k].visits, q).value))
  {
    ElementStep(w, chain, ds, tree, db, q);
    if k < |chain| - 1 {
      var c, d := chain[..|chain| - 1], ds[..|ds| - 1];
      ChainPrefix(w, chain, ds);
      assert forall j | 0 <= j < |c| :: c[j] == chain[j] && (PickedBy(w, c, j, q) <==> PickedBy(w, chain, j, q));
      LatestPickWins(w, c, d, tree, db, k, q);
    }
  }

  /** A path no element picked up is a directory if some element used it as one, else what the base
      started from. */
  lemma {:induction false} UnpickedPath(w: World, chain: seq<Taken>, ds: seq<Delivery>, tree: Tree, db: Db, q: Path)
    requires ValidWorld(w) && DeliversChain(w, chain, ds) && chain != [] && WellFormed(tree)
    requires RestoredChain(tree, db, ds).ok && !PickedByAny(w, chain, q)
    ensures Lookup(RestoredChain(tree, db, ds).tree, q) ==
            if UsedByAny(w, chain, q) then Some(Dir) else Lookup(StartTree(tree, ds[0].entries, true), q)
  {
    ChainIsOneOverlay(tree, db, ds);
    PutsOfChain(w, chain, ds, q);
    DirsOfChain(w, chain, ds, q);
    LastPutIn(ChainOps(ds), q);
    assert Lookup(RestoredChain(tree, db, ds).tree, q) ==
           Overlay(StartTree(tree, ds[0].entries, true), ChainOps(ds), q);
  }

  // ---------------------------------------------------------------------------------------------
  // Sources for which it fails.

  /** A source that changes once, between the instants 3 and 4. */
  function Turning(before: SourceTree, after: SourceTree): World {
    World(time => if time < 4 then before else after, p => false, 2)
  }

  lemma {:induction false} TurningIsSound(before: SourceTree, after: SourceTree)
    requires IsFileSystem(before, 2) && IsFileSystem(after, 2) && [] in before && [] in after
    ensures ValidWorld(Turning(before, after))
    ensures Quiet(Turning(before, after), AllAt(3), before) && Quiet(Turning(before, after), AllAt(5), after)
  {
    var w := Turning(before, after);
    forall time
      ensures SoundAt(w, time)
    {
    }
  }

  lemma {:induction false} TurningIsTaken(before: SourceTree, after: SourceTree,
            dump: Bytes) returns (ds: seq<Delivery>)
    requires IsFileSystem(before, 2) && IsFileSystem(after, 2) && [] in before && [] in after
    ensures ValidWorld(Turning(before, after)) && Timed(TwoTakes(dump))
    ensures DeliversChain(Turning(before, after), TwoTakes(dump), ds)
    ensures forall k | 0 <= k < 2 :: QuietWalk(Turning(before, after), TwoTakes(dump)[k].visits) && Undisturbed(ds[k])
    ensures Quiet(Turning(before, after), AllAt(3), before)
  {
    var w, chain := Turning(before, after), TwoTakes(dump);
    TurningIsSound(before, after);
    TwoTakesAreTimed(dump, before);
    forall k | 0 <= k < |chain|
      ensures QuietWalk(w, chain[k].visits)
    {
      assert chain[k].visits == if k == 0 then AllAt(3) else AllAt(5);
    }
    ds := QuietChainIsTaken(w, chain);
  }

  /** On a quiet visit, a file none of whose ancestors is a problem is picked up if it is fresh. */
  lemma {:induction false} PickedWhenQuiet(w: World, v: Visits, since: Time, t: SourceTree, p: Path)
    requires ValidWorld(w) && Quiet(w, v, t) && p in t && Included(w, t, p)
    ensures Picked(w, v, since, p) <==> p != [] && t[p].SFile? && Fresh(t[p].mtime, since)
  {
    QuietReached(w, v, t, p);
  }

  function PlainFile(content: Bytes): SourceTree {
    map[[] := SDir, ["a"] := SFile(content, 1)]
  }

  function FileBelow(content: Bytes): SourceTree {
    map[[] := SDir, ["a"] := SDir, ["a", "b"] := SFile(content, 4)]
  }

  lemma {:induction false} TheseAreFileSystems(c: Bytes, d: Bytes)
    ensures IsFileSystem(PlainFile(c), 2) && IsFileSystem(FileBelow(d), 2)
  {
    assert Ordinary("a") && Ordinary("b");
    var t := FileBelow(d);
    forall p, q | p in t && IsProperPrefix(q, p)
      ensures q in t && t[q] == SDir
    {
      assert |p| == 2 ==> p[..1] == ["a"];
      assert |q| == 1 ==> q == p[..1];
    }
  }

  ghost predicate NeverRestores(ds: seq<Delivery>) {
    forall tree: Tree, db: Db | WellFormed(tree) :: !RestoredChain(tree, db, ds).ok
  }

  /** Two backups that are written and delivered without a fault, of a source with honest stamps, whose
      chain no site can restore: a file was replaced by a directory between them. */
  lemma {:induction false} FileTurnedDirectory(dump: Bytes, c: Bytes, d: Bytes)
    ensures var w := Turning(PlainFile(c), FileBelow(d));
            && ValidWorld(w) && Honest(w) && Timed(TwoTakes(dump))
            && exists ds :: DeliversChain(w, TwoTakes(dump), ds) && Undisturbed(ds[0]) && Undisturbed(ds[1]) &&
                            NeverRestores(ds)
  {
    var w, chain := Turning(PlainFile(c), FileBelow(d)), TwoTakes(dump);
    TheseAreFileSystems(c, d);
    TurningIsSound(PlainFile(c), FileBelow(d));
    var ds := TurningIsTaken(PlainFile(c), FileBelow(d), dump);
    FileThenDirectory(dump, c, d);
    forall tree: Tree, db: Db | WellFormed(tree)
      ensures !RestoredChain(tree, db, ds).ok
    {
      ChainRestoresIff(w, chain, ds, tree, db);
    }
    assert NeverRestores(ds);
    HonestTurn(c, d);
  }

  lemma {:induction false} FileThenDirectory(dump: Bytes, c: Bytes, d: Bytes)
    ensures !ConflictFree(Turning(PlainFile(c), FileBelow(d)), TwoTakes(dump))
  {
    var w, chain := Turning(PlainFile(c), FileBelow(d)), TwoTakes(dump);
    var a, b := ["a"], ["a", "b"];
    TheseAreFileSystems(c, d);
    TurningIsSound(PlainFile(c), FileBelow(d));
    PickedWhenQuiet(w, AllAt(3), ZERO, PlainFile(c), a);
    PickedWhenQuiet(w, AllAt(5), 2, FileBelow(d), b);
    assert PickedBy(w, chain, 0, a);
    assert IsProperPrefix(a, b) && AsDirFor(w, AllAt(5), 2, a, b);
    assert UsedBy(w, chain, 1, a);
    assert PickedByAny(w, chain, a) && UsedByAny(w, chain, a);
  }

  lemma {:induction false} HonestTurn(c: Bytes, d: Bytes)
    ensures Honest(Turning(PlainFile(c), FileBelow(d)))
  {
  }

  /** A file moved in between two backups with its old stamp: everything StaleArrivalIsLost assumes. */
  function Arrival(content: Bytes): SourceTree {
    PlainFile(content)[["b"] := SFile(content, 1)]
  }

  lemma {:induction false} ArrivalsAreFileSystems(content: Bytes)
    ensures IsFileSystem(PlainFile(content), 2) && IsFileSystem(Arrival(content), 2)
  {
    assert Ordinary("a") && Ordinary("b");
  }

  ghost predicate LostArrival(dump: Bytes, content: Bytes, ds: seq<Delivery>) {
    var w, chain := Turning(PlainFile(content), Arrival(content)), TwoTakes(dump);
    && ValidWorld(w) && Timed(chain) && DeliversChain(w, chain, ds)
    && RestoredChain(EMPTIED, Live, ds).ok && HasContent(ds[0].entries)
    && StaleAtLast(w, chain, ["b"])
    && (forall k | 0 <= k < 1 :: !IsFileAt(w, chain[k].visits.statAt(["b"]), ["b"]))
    && var r := RestoredChain(EMPTIED, Live, ds).tree; !(["b"] in r && r[["b"]].File?)
  }

  lemma {:induction false} ArrivalIsSkipped(dump: Bytes, content: Bytes)
    ensures var w, chain := Turning(PlainFile(content), Arrival(content)), TwoTakes(dump);
            && ValidWorld(w) && StaleAtLast(w, chain, ["b"])
            && forall k | 0 <= k < 1 :: !IsFileAt(w, chain[k].visits.statAt(["b"]), ["b"])
  {
    var w := Turning(PlainFile(content), Arrival(content));
    ArrivalsAreFileSystems(content);
    TurningIsSound(PlainFile(content), Arrival(content));
    PickedWhenQuiet(w, AllAt(5), 2, Arrival(content), ["b"]);
    QuietReached(w, AllAt(5), Arrival(content), ["b"]);
  }

  /** If no visited directory is ever visited as a file, no chain has a conflict. */
  lemma {:induction false} FilesStayFiles(w: World, chain: seq<Taken>)
    requires forall j, k, p: Path | 0 <= j < |chain| && 0 <= k < |chain| && IsDirAt(w, chain[k].visits.statAt(p), p) ::
               !IsFileAt(w, chain[j].visits.statAt(p), p)
    ensures ConflictFree(w, chain)
  {
    forall p
      ensures !(PickedByAny(w, chain, p) && UsedByAny(w, chain, p))
    {
      if UsedByAny(w, chain, p) {
        var k :| 0 <= k < |chain| && UsedBy(w, chain, k, p);
        UsedDirWasDir(w, chain[k].visits, SinceFor(chain, k), p);
        assert forall j | 0 <= j < |chain| :: !PickedBy(w, chain, j, p);
      }
    }
  }

  /** A walk nobody disturbs ends in no shrunken file. */
  lemma {:induction false} QuietIsWhole(w: World, v: Visits, since: Time, t: SourceTree)
    requires ValidWorld(w) && Quiet(w, v, t) && [] in t
    ensures WalkAll(w, v, since).Some? && LastWhole(w, v, since)
  {
    WalkRecreates(w, v, since, t);
    var items := WalkAll(w, v, since).value;
    if items != [] {
      ItemWhole(w, v, since, items[|items| - 1]);
    }
  }

  lemma {:induction false} ArrivalHasNoConflict(dump: Bytes, content: Bytes)
    ensures ConflictFree(Turning(PlainFile(content), Arrival(content)), TwoTakes(dump))
  {
    var w, chain := Turning(PlainFile(content), Arrival(content)), TwoTakes(dump);
    forall j, k, p: Path | 0 <= j < |chain| && 0 <= k < |chain| && IsDirAt(w, chain[k].visits.statAt(p), p)
      ensures !IsFileAt(w, chain[j].visits.statAt(p), p)
    {
      assert p == [];
    }
    FilesStayFiles(w, chain);
  }

  /** A chain of quiet walks without conflict, delivered without a fault, restores on a fitting site. */
  lemma {:induction false} QuietChainRestores(w: World, chain: seq<Taken>, ds: seq<Delivery>, tree: Tree)
    requires ValidWorld(w) && DeliversChain(w, chain, ds) && chain != [] && ConflictFree(w, chain)
    requires forall k | 0 <= k < |chain| :: QuietWalk(w, chain[k].visits) && Undisturbed(ds[k])
    requires WellFormed(tree) && !IsFileIn(tree, []) && FitsTree(w, chain, StartTree(tree, ds[0].entries, true))
    ensures RestoredChain(tree, Live, ds).ok
  {
    forall k | 0 <= k < |chain|
      ensures Good(w, chain[k].visits, SinceFor(chain, k), chain[k].dump, ds[k])
    {
      assert QuietWalk(w, chain[k].visits) && Undisturbed(ds[k]);
      var t :| [] in t && Quiet(w, chain[k].visits, t);
      QuietIsWhole(w, chain[k].visits, SinceFor(chain, k), t);
    }
    ChainRestoresIff(w, chain, ds, tree, Live);
  }

  /** The failing input for stamps that are not honest: the file is visited by the last walk, both
      backups and the restore succeed, and the file is not there. */
  lemma {:induction false} ArrivalIsLost(dump: Bytes, content: Bytes)
    ensures exists ds :: LostArrival(dump, content, ds)
  {
    ArrivalsAreFileSystems(content);
    ArrivalIsSkipped(dump, content);
    ArrivalHasNoConflict(dump, content);
    var ds := TurningIsTaken(PlainFile(content), Arrival(content), dump);
    PlainFileIsContent(Turning(PlainFile(content), Arrival(content)), dump, content, ds[0]);
    assert LostArrival(dump, content, ds) by {
      StaleIsLost(Turning(PlainFile(content), Arrival(content)), TwoTakes(dump), ds, ["b"]);
    }
  }

  lemma {:induction false} StaleIsLost(w: World, chain: seq<Taken>, ds: seq<Delivery>, q: Path)
    requires ValidWorld(w) && DeliversChain(w, chain, ds) && |chain| == 2 && ConflictFree(w, chain)
    requires forall k | 0 <= k < 2 :: QuietWalk(w, chain[k].visits) && Undisturbed(ds[k])
    requires HasContent(ds[0].entries) && StaleAtLast(w, chain, q)
    requires forall k | 0 <= k < 1 :: !IsFileAt(w, chain[k].visits.statAt(q), q)
    ensures RestoredChain(EMPTIED, Live, ds).ok
    ensures var r := RestoredChain(EMPTIED, Live, ds).tree; !(q in r && r[q].File?)
  {
    EmptiedFits();
    EmptiedFitsAll(w, chain);
    QuietChainRestores(w, chain, ds, EMPTIED);
    StaleArrivalIsLost(w, chain, ds, EMPTIED, Live, q);
  }

  lemma {:induction false} PlainFileIsContent(w: World, dump: Bytes, content: Bytes, d: Delivery)
    requires ValidWorld(w) && Quiet(w, AllAt(3), PlainFile(content)) && !w.excluded([])
    requires Delivers(w, AllAt(3), ZERO, dump, d)
    ensures HasContent(d.entries)
  {
    var t, a := PlainFile(content), ["a"];
    DeliveredMeaning(w, AllAt(3), ZERO, dump, d);
    PickedWhenQuiet(w, AllAt(3), ZERO, t, a);
    StepsAt(w, AllAt(3), ZERO, a);
  }

  /** A base that finds nothing to archive: an empty source into which a file is written later. */
  const NOTHING: SourceTree := map[[] := SDir]

  function LateFile(content: Bytes): SourceTree {
    map[[] := SDir, ["a"] := SFile(content, 4)]
  }

  /** The site it is restored to holds a file the source never had. */
  function OldSite(content: Bytes): Tree {
    map[[] := Dir, ["old"] := File(content)]
  }

  lemma {:induction false} LateFileIsSound(content: Bytes)
    ensures IsFileSystem(NOTHING, 2) && IsFileSystem(LateFile(content), 2)
    ensures Honest(Turning(NOTHING, LateFile(content)))
  {
    assert Ordinary("a");
  }

  lemma {:induction false} OldSiteIsSound(content: Bytes)
    ensures WellFormed(OldSite(content)) && !IsFileIn(OldSite(content), [])
  {
    var t := OldSite(content);
    forall p, q | p in t && IsProperPrefix(q, p)
      ensures q in t && t[q] == Dir
    {
      assert q == [];
    }
  }

  lemma {:induction false} NothingHasNoContent(w: World, dump: Bytes, d: Delivery)
    requires ValidWorld(w) && Quiet(w, AllAt(3), NOTHING) && Delivers(w, AllAt(3), ZERO, dump, d)
    ensures !HasContent(d.entries)
  {
    DeliveredMeaning(w, AllAt(3), ZERO, dump, d);
    SomethingToArchive(w, AllAt(3), NOTHING);
    assert forall p | p != [] :: Snapshot(w, NOTHING, p).None?;
  }

  /** Whatever the chain picks up or uses as a directory was a file or a directory of the source. */
  lemma {:induction false} LateFileFits(dump: Bytes, content: Bytes, left: Bytes)
    ensures var w, chain := Turning(NOTHING, LateFile(content)), TwoTakes(dump);
            ConflictFree(w, chain) && FitsTree(w, chain, OldSite(left)) && NothingDeleted(w, chain, LateFile(content))
            && !PickedByAny(w, chain, ["old"])
  {
    var w, chain := Turning(NOTHING, LateFile(content)), TwoTakes(dump);
    forall k, p: Path | 0 <= k < |chain| && IsFileAt(w, chain[k].visits.statAt(p), p)
      ensures p == ["a"]
    {
    }
    forall k, p: Path | 0 <= k < |chain| && IsDirAt(w, chain[k].visits.statAt(p), p)
      ensures p == []
    {
    }
    FilesStayFiles(w, chain);
    forall p | UsedByAny(w, chain, p)
      ensures p == []
    {
      var k :| 0 <= k < |chain| && UsedBy(w, chain, k, p);
      UsedDirWasDir(w, chain[k].visits, SinceFor(chain, k), p);
    }
    assert forall p | PickedByAny(w, chain, p) :: p == ["a"];
    assert ["old"] != ["a"] by {
      assert ["old"][0] != ["a"][0];
    }
  }

  ghost predicate OldFileSurvives(dump: Bytes, content: Bytes, left: Bytes, ds: seq<Delivery>) {
    var w, chain, target := Turning(NOTHING, LateFile(content)), TwoTakes(dump), LateFile(content);
    && ValidWorld(w) && Honest(w) && Timed(chain) && Quiet(w, chain[1].visits, target)
    && DeliversChain(w, chain, ds) && Undisturbed(ds[0]) && Undisturbed(ds[1])
    && RestoredChain(OldSite(left), Live, ds).ok && NothingDeleted(w, chain, target)
    && Lookup(RestoredChain(OldSite(left), Live, ds).tree, ["old"]) == Some(File(left))
    && !HasFilesOf(w, target, RestoredChain(OldSite(left), Live, ds).tree)
  }

  lemma {:induction false} LeftOver(w: World, chain: seq<Taken>, ds: seq<Delivery>, target: SourceTree, tree: Tree,
                                    p: Path)
    requires ValidWorld(w) && Honest(w) && Timed(chain) && DeliversChain(w, chain, ds) && chain != []
    requires Quiet(w, chain[|chain| - 1].visits, target) && [] in target
    requires forall k | 0 <= k < |chain| :: QuietWalk(w, chain[k].visits) && Undisturbed(ds[k])
    requires WellFormed(tree) && !IsFileIn(tree, []) && !HasContent(ds[0].entries)
    requires ConflictFree(w, chain) && FitsTree(w, chain, tree)
    requires IsFileIn(tree, p) && !PickedByAny(w, chain, p)
    ensures var r := RestoredChain(tree, Live, ds); r.ok && Lookup(r.tree, p) == Lookup(tree, p)
    ensures !HasFilesOf(w, target, RestoredChain(tree, Live, ds).tree)
  {
    QuietChainRestores(w, chain, ds, tree);
    RestoredIffPickedUp(w, chain, ds, tree, Live, p);
    ChainShowsTargetIff(w, chain, ds, target, tree, Live);
  }

  lemma {:induction false} OldFileStays(dump: Bytes, content: Bytes, left: Bytes, ds: seq<Delivery>)
    requires var w, chain := Turning(NOTHING, LateFile(content)), TwoTakes(dump);
             && ValidWorld(w) && Honest(w) && Timed(chain) && DeliversChain(w, chain, ds)
             && Quiet(w, AllAt(3), NOTHING) && Quiet(w, AllAt(5), LateFile(content))
             && forall k | 0 <= k < 2 :: QuietWalk(w, chain[k].visits) && Undisturbed(ds[k])
    ensures OldFileSurvives(dump, content, left, ds)
  {
    var w, chain, tree := Turning(NOTHING, LateFile(content)), TwoTakes(dump), OldSite(left);
    LateFileFits(dump, content, left);
    OldSiteIsSound(left);
    assert chain[0].visits == AllAt(3) && chain[1].visits == AllAt(5);
    assert Undisturbed(ds[0]) && Undisturbed(ds[1]);
    NothingHasNoContent(w, dump, ds[0]);
    LeftOver(w, chain, ds, LateFile(content), tree, ["old"]);
  }

  /** The failing input for a base without content: nothing was deleted, everything goes well, and a
      file of the old site is still there after a point-in-time restore that reports success. */
  lemma {:induction false} OldFileIsLeftOver(dump: Bytes, content: Bytes, left: Bytes)
    ensures exists ds :: OldFileSurvives(dump, content, left, ds)
  {
    LateFileIsSound(content);
    var ds := TurningIsTaken(NOTHING, LateFile(content), dump);
    TurningIsSound(NOTHING, LateFile(content));
    OldFileStays(dump, content, left, ds);
  }

  /** A walk that stats everything before the change and reads after it. */
  const READ_LATE := Visits(p => 3, p => 3, (p, i) => 4, p => true)

  /** A walk of a root with a single child. */
  lemma {:induction false} SingleChildWalk(w: World, v: Visits, name: string, items: seq<Item>)
    requires ValidWorld(w) && IsDirAt(w, v.statAt([]), []) && IsDirAt(w, v.listAt([]), []) && v.alive([])
    requires w.depth > 0 && Children(w.at(v.listAt([])), []) == {name}
    requires WalkNode(w, v, ZERO, [name]) == Some(items)
    ensures WalkAll(w, v, ZERO) == Some(items)
  {
    SortedSingle(name);
    SingleChild(w, v, name, items);
    assert [] + items == items;
  }

  lemma {:induction false} SingleChild(w: World, v: Visits, name: string, items: seq<Item>)
    requires ValidWorld(w) && w.depth > 0 && WalkNode(w, v, ZERO, [name]) == Some(items)
    ensures WalkChildren(w, v, ZERO, [], [name]) == Some(items)
  {
    assert [] + [name] == [name] && [name][1..] == [] && items + [] == items;
    assert WalkChildren(w, v, ZERO, [], []) == Some([]);
  }

  lemma {:induction false} OneChild(content: Bytes)
    ensures Children(PlainFile(content), []) == {"a"}
  {
    forall n: string
      ensures [] + [n] in PlainFile(content) <==> n == "a"
    {
      assert [] + [n] == [n] && [n][0] == n && |[n]| == 1;
      assert [n] == ["a"] ==> n == ["a"][0];
    }
  }

  lemma {:induction false} ShrunkWalk(big: Bytes, small: Bytes)
    requires |small| < |big|
    ensures var w := Turning(PlainFile(big), PlainFile(small));
            ValidWorld(w) && WalkAll(w, READ_LATE, ZERO) == Some([FileItem(["a"], small, false)])
  {
    var w := Turning(PlainFile(big), PlainFile(small));
    TheseAreFileSystems(big, []);
    TheseAreFileSystems(small, []);
    TurningIsSound(PlainFile(big), PlainFile(small));
    OneChild(big);
    var a: Path := ["a"];
    forall j
      ensures IsFileAt(w, READ_LATE.readAt(a, j), a) && w.at(READ_LATE.readAt(a, j))[a].content == small
    {
      assert a in PlainFile(small) && PlainFile(small)[a] == SFile(small, 1);
    }
    StableRead(w, READ_LATE, a, |big|, small, 0);
    assert small[0..] == small;
    var stat := w.at(READ_LATE.statAt(a));
    assert a in stat && stat[a] == SFile(big, 1);
    SingleChildWalk(w, READ_LATE, "a", [FileItem(["a"], small, false)]);
  }

  function ShrunkDelivery(dump: Bytes, small: Bytes): Delivery {
    Delivery(Entries([DumpMember(dump)] + Members([FileItem(["a"], small, false)])), true, i => true, true)
  }

  lemma {:induction false} ShrunkIsDelivered(dump: Bytes, big: Bytes, small: Bytes)
    requires |small| < |big|
    ensures var w := Turning(PlainFile(big), PlainFile(small));
            ValidWorld(w) && Delivers(w, READ_LATE, ZERO, dump, ShrunkDelivery(dump, small))
    ensures Undisturbed(ShrunkDelivery(dump, small))
  {
    ShrunkWalk(big, small);
    var ms := [DumpMember(dump)] + Members([FileItem(["a"], small, false)]);
    assert |ms| == 2 && ms[0].complete;
    assert Framed(ms);
  }

  lemma {:induction false} IncompleteNeverRestores(d: Delivery, i: nat)
    requires i < |d.entries| && !d.entries[i].complete
    ensures NeverRestores([d])
  {
    forall tree: Tree, db: Db | WellFormed(tree)
      ensures !RestoredChain(tree, db, [d]).ok
    {
      IncompleteFails(SiteResult(tree, db, true), d, true, i);
      assert [d][..0] == [];
    }
  }

  /** The failing input for a file that shrinks: the backup is written, it is delivered without a
      fault, and no site can restore it. */
  lemma {:induction false} ShrunkBackupNeverRestores(dump: Bytes, big: Bytes, small: Bytes)
    requires |small| < |big|
    ensures var w := Turning(PlainFile(big), PlainFile(small));
            ValidWorld(w) && exists d :: Delivers(w, READ_LATE, ZERO, dump, d) && Undisturbed(d) && NeverRestores([d])
  {
    ShrunkIsDelivered(dump, big, small);
    var d := ShrunkDelivery(dump, small);
    var ms := [DumpMember(dump)] + Members([FileItem(["a"], small, false)]);
    assert !ms[1].complete && d.entries[1] == EntryOf(ms[1]);
    IncompleteNeverRestores(d, 1);
  }
}
