/** The connector's mutating operations: writing an archive member by member, and changing the
    wp-content tree and the database while an archive is read. */
module WordPress {
  import opened Text
  import opened PathNames
  import opened FileTree
  import opened Restore
  import opened Walk
  import opened Backup
  import opened Chain

  // ---------------------------------------------------------------------------------------------
  // Backup.

  class ArchiveWriter {
    var members: seq<Member>

    constructor ()
      ensures members == []
    {
      members := [];
    }

    /** Start a new member; refused while the previous one misses bytes. */
    method Append(m: Member) returns (ok: bool)
      modifies this
      ensures ok <==> (old(members) != [] ==> old(members)[|old(members)| - 1].complete)
      ensures members == if ok then old(members) + [m] else old(members)
    {
      ok := members == [] || members[|members| - 1].complete;
      if ok {
        members := members + [m];
      }
    }
  }

  lemma {:induction false} FramedAppend(a: seq<Member>, b: seq<Member>)
    ensures Framed(a + b) ==> Framed(a)
    ensures a != [] && b != [] && Framed(a + b) ==> a[|a| - 1].complete
    ensures Framed(a) && |b| == 1 && (a != [] ==> a[|a| - 1].complete) ==> Framed(a + b)
  {
    if Framed(a + b) {
      assert forall i | 0 <= i < |a| :: (a + b)[i] == a[i];
    }
  }

  /** The effect of adding walked items: all of them, or a failure that no continuation repairs. */
  ghost predicate Adds(before: seq<Member>, after: seq<Member>, items: Option<seq<Item>>, ok: bool) {
    && (ok <==> items.Some? && Framed(before + Members(items.value)))
    && (ok ==> after == before + Members(items.value))
  }

  lemma {:induction false} AddsAppend(before: seq<Member>, mid: seq<Member>, after: seq<Member>,
                   a: Option<seq<Item>>, b: Option<seq<Item>>, ok: bool)
    requires Adds(before, mid, a, true) && Adds(mid, after, b, ok)
    ensures b.Some? ==> Adds(before, after, Some(a.value + b.value), ok)
    ensures b.None? ==> !ok
  {
    if b.Some? {
      assert Members(a.value + b.value) == Members(a.value) + Members(b.value);
      assert before + Members(a.value + b.value) == mid + Members(b.value);
    }
  }

  lemma {:induction false} AddsFailed(before: seq<Member>, mid: seq<Member>, a: Option<seq<Item>>, rest: seq<Item>)
    requires Adds(before, mid, a, false)
    ensures a.Some? ==> !Framed(before + Members(a.value + rest))
  {
    if a.Some? {
      assert before + Members(a.value + rest) == (before + Members(a.value)) + Members(rest);
      FramedAppend(before + Members(a.value), Members(rest));
    }
  }

  method AddItem(tw: ArchiveWriter, item: Item) returns (ok: bool)
    requires Framed(tw.members)
    modifies tw
    ensures Adds(old(tw.members), tw.members, Some([item]), ok)
    ensures ok ==> Framed(tw.members)
  {
    ghost var before := tw.members;
    ok := tw.Append(MemberOf(item));
    assert Members([item]) == [MemberOf(item)];
    FramedAppend(before, [MemberOf(item)]);
  }

  /** Copy a file byte by byte until it ends; a byte beyond the announced size is an error. */
  method CopyFile(w: World, v: Visits, q: Path, size: nat) returns (content: Option<Bytes>)
    ensures content == ReadFile(w, v, q, size)
    ensures content.Some? <==> Readable(w, v, q, size)
    ensures content.Some? ==> |content.value| <= size && HasEnded(w, v, q, |content.value|)
  {
    ReadableIff(w, v, q, size);
    var buf: Bytes := [];
    ghost var all := ReadFile(w, v, q, size);
    assert all.Some? ==> [] + all.value == all.value;
    while true
      invariant |buf| <= size
      invariant ReadFile(w, v, q, size) == match ReadRest(w, v, q, size, |buf|)
                                           case None => None
                                           case Some(rest) => Some(buf + rest)
      decreases size - |buf|
    {
      var now := w.at(v.readAt(q, |buf|));
      if q !in now || !now[q].SFile? {
        return None;
      }
      if |now[q].content| <= |buf| {
        assert buf + [] == buf;
        return Some(buf);
      }
      if |buf| == size {
        return None;
      }
      ghost var rest := ReadRest(w, v, q, size, |buf| + 1);
      ghost var byte := now[q].content[|buf|];
      assert rest.Some? ==> buf + ([byte] + rest.value) == buf + [byte] + rest.value;
      buf := buf + [now[q].content[|buf|]];
    }
  }

  /** Visit one path: a directory is walked, a fresh regular file added, anything else passed over. */
  method AddNode(w: World, v: Visits, since: Time, q: Path, tw: ArchiveWriter) returns (ok: bool)
    requires ValidWorld(w) && q != [] && |q| <= w.depth && Framed(tw.members)
    modifies tw
    ensures Adds(old(tw.members), tw.members, WalkNode(w, v, since, q), ok)
    ensures ok ==> Framed(tw.members)
    decreases w.depth - |q|, 2
  {
    var t := w.at(v.statAt(q));
    assert Members([]) == [] && tw.members + [] == tw.members;
    if q !in t {
      return false;
    }
    if t[q].SDir? {
      ok := AddDir(w, v, since, q, tw);
      return;
    }
    if !v.alive(q) {
      return false;
    }
    if !t[q].SFile? || !Fresh(t[q].mtime, since) {
      return true;
    }
    var content := CopyFile(w, v, q, |t[q].content|);
    if content.None? {
      return false;
    }
    ok := AddItem(tw, FileItem(q, content.value, |content.value| == |t[q].content|));
  }

  /** List a directory, pass it over if excluded, announce it in a full backup, then its children. */
  method AddDir(w: World, v: Visits, since: Time, p: Path, tw: ArchiveWriter) returns (ok: bool)
    requires ValidWorld(w) && |p| <= w.depth && Framed(tw.members)
    modifies tw
    ensures Adds(old(tw.members), tw.members, WalkDir(w, v, since, p), ok)
    ensures ok ==> Framed(tw.members)
    decreases w.depth - |p|, 1
  {
    ghost var before := tw.members;
    var t := w.at(v.listAt(p));
    assert Members([]) == [] && before + [] == before;
    if p !in t || !t[p].SDir? || !v.alive(p) {
      return false;
    }
    if p != [] && w.excluded(p) {
      return true;
    }
    assert SoundAt(w, v.listAt(p));
    var names := Sorted(Children(t, p));
    assert forall n | n in names :: |p + [n]| <= w.depth;
    ghost var own: seq<Item> := if p != [] && since == ZERO then [DirItem(p)] else [];
    ghost var spec := WalkChildren(w, v, since, p, names);
    if p != [] && since == ZERO {
      ok := AddItem(tw, DirItem(p));
      if !ok {
        AddsFailed(before, tw.members, Some(own), if spec.Some? then spec.value else []);
        return;
      }
    }
    ghost var mid := tw.members;
    assert Adds(before, mid, Some(own), true);
    ok := AddChildren(w, v, since, p, names, tw);
    AddsAppend(before, mid, tw.members, Some(own), spec, ok);
  }

  method AddChildren(w: World, v: Visits, since: Time, p: Path, names: seq<string>,
            tw: ArchiveWriter) returns (ok: bool)
    requires ValidWorld(w) && (names != [] ==> |p| < w.depth) && Framed(tw.members)
    modifies tw
    ensures Adds(old(tw.members), tw.members, WalkChildren(w, v, since, p, names), ok)
    ensures ok ==> Framed(tw.members)
    decreases w.depth - |p|, 0
  {
    ghost var before := tw.members;
    ghost var done: seq<Item> := [];
    assert Members(done) == [] && before + [] == before;
    assert names[0..] == names;
    ghost var all := WalkChildren(w, v, since, p, names);
    assert all.Some? ==> done + all.value == all.value;
    var i := 0;
    while i < |names|
      invariant 0 <= i <= |names|
      invariant Adds(before, tw.members, Some(done), true) && Framed(tw.members)
      invariant WalkChildren(w, v, since, p, names) ==
                match WalkChildren(w, v, since, p, names[i..])
                case None => None
                case Some(rest) => Some(done + rest)
    {
      ghost var mid := tw.members;
      ghost var node := WalkNode(w, v, since, p + [names[i]]);
      assert names[i..][0] == names[i] && names[i..][1..] == names[i + 1..];
      ghost var rest := WalkChildren(w, v, since, p, names[i + 1..]);
      ok := AddNode(w, v, since, p + [names[i]], tw);
      AddsAppend(before, mid, tw.members, Some(done), node, ok);
      if !ok {
        if node.Some? && rest.Some? {
          assert done + (node.value + rest.value) == done + node.value + rest.value;
          AddsFailed(before, tw.members, Some(done + node.value), rest.value);
        }
        return;
      }
      if rest.Some? {
        assert done + (node.value + rest.value) == done + node.value + rest.value;
      }
      done := done + node.value;
      i := i + 1;
    }
    assert names[i..] == [];
    assert done + [] == done;
    ok := true;
  }

  /** Layer B backup: one full dump, then the content changed since the cursor; the new cursor is
      the instant taken before the walk. */
  method BackupIncremental(w: World, v: Visits, cursor: Cursor, start: Time, dump: Option<Bytes>)
    returns (tw: ArchiveWriter, next: Cursor, isDelta: bool, ok: bool)
    requires ValidWorld(w)
    ensures fresh(tw)
    ensures ok <==> Written(w, v, Since(cursor), dump).Some?
    ensures ok ==> Some(tw.members) == Written(w, v, Since(cursor), dump)
    ensures ok ==> next == Instant(start) && isDelta == cursor.Instant?
    ensures !ok ==> next == NoCursor && !isDelta
  {
    tw := new ArchiveWriter();
    next, isDelta, ok := NoCursor, false, false;
    var since := Since(cursor);
    if dump.None? {
      return;
    }
    var first := tw.Append(DumpMember(dump.value));
    ghost var before := tw.members;
    assert before == [DumpMember(dump.value)];
    assert Members([]) == [] && before + [] == before;
    var root := w.at(v.statAt([]));
    if [] in root {
      if root[[]].SDir? {
        assert SoundAt(w, v.statAt([]));
        ok := AddDir(w, v, since, [], tw);
      } else {
        ok := v.alive([]);
      }
    }
    if ok {
      next, isDelta := Instant(start), cursor.Instant?;
    }
  }

  // ---------------------------------------------------------------------------------------------
  // Restore.

  /** What is left of a tree once the subtrees below some top-level names are gone. */
  function Remaining(t: Tree, gone: seq<string>): Tree {
    map q | q in t && (q == [] || q[0] !in gone) :: t[q]
  }

  lemma {:induction false} TakeOneMore(names: seq<string>, i: nat)
    requires i < |names|
    ensures names[..i + 1] == names[..i] + [names[i]]
  {
  }

  function Without(t: Tree, p: Path): Tree {
    map q | q in t && !IsPrefix(p, q) :: t[q]
  }

  lemma {:induction false} RemainingStep(t: Tree, gone: seq<string>, n: string)
    ensures Without(Remaining(t, gone), [n]) == Remaining(t, gone + [n])
  {
    forall q: Path | q != []
      ensures IsPrefix([n], q) <==> q[0] == n
    {
      assert q[..1] == [q[0]];
    }
  }

  lemma {:induction false} MissingRoot(t: Tree)
    requires WellFormed(t) && [] !in t
    ensures t[[] := Dir] == EMPTIED
  {
    forall p | p in t
      ensures false
    {
      assert IsProperPrefix([], p);
    }
  }

  lemma {:induction false} EmptiedIsWellFormed()
    ensures WellFormed(EMPTIED)
  {
  }

  lemma {:induction false} NothingRemains(t: Tree, gone: seq<string>)
    requires WellFormed(t) && [] in t && t[[]].Dir?
    requires forall n :: n in gone <==> [n] in t
    ensures Remaining(t, gone) == EMPTIED
  {
    forall q | q in t && q != []
      ensures q[0] in gone
    {
      assert q[..1] == [q[0]];
      assert q == [q[0]] || IsProperPrefix([q[0]], q);
    }
  }

  /** What fetching one backup id yields. */
  datatype Download = Download(stream: Stream, importOk: nat -> bool, planeOk: bool)

  function DeliveryOf(d: Download): Delivery {
    Delivery(Entries(d.stream.members), d.stream.eof, d.importOk, d.planeOk)
  }

  /** A content member applied to a tree: a base that has not been emptied yet is emptied first, which
      fails if wp-content is a file; a rejected name changes nothing more; a file that was cut short
      stays as it was written. */
  ghost predicate ContentEffect(before: Tree, rel: string, m: Member, wipe: bool, after: Tree, error: Option<Error>) {
    if wipe && IsFileIn(before, []) then error == Some(ClearFailed) && after == before
    else
      var start := if wipe then EMPTIED else before;
      match Resolve(rel)
      case None => error.None? && after == start
      case Some(path) =>
        match Apply(start, OpOf(m, path))
        case None => error == Some(ExtractFailed) && after == start
        case Some(t) => after == t && error == if m.isDir || m.complete then None else Some(ExtractFailed)
  }

  lemma {:induction false} ContentStep(o: Outcome, m: Member, rel: string, isBase: bool, importOk: bool,
            after: Tree, error: Option<Error>)
    requires o.error.None? && !IsDBDump(m.name) && ContentRel(m.name) == Some(rel)
    requires ContentEffect(o.tree, rel, m, isBase && !o.cleared, after, error)
    ensures Step(o, EntryOf(m), isBase, importOk) ==
            Outcome(after, o.db, isBase || o.cleared, o.dbApplied, if error.None? then o.files + 1 else o.files,
                    if error.None? && !m.complete then Some(ReadFailed) else error)
  {
  }

  lemma {:induction false} NextState(trace: seq<Outcome>, ms: seq<Member>, isBase: bool, importOk: nat -> bool, i: nat)
    requires IsTrace(trace, Entries(ms), isBase, importOk) && i < |ms| && trace[i].error.None?
    ensures trace[i + 1] == Step(trace[i], EntryOf(ms[i]), isBase, importOk(i))
  {
    assert Follows(trace[i], Entries(ms)[i], trace[i + 1], isBase, importOk(i));
  }

  class Site {
    var tree: Tree
    var db: Db

    constructor (tree: Tree, db: Db)
      ensures this.tree == tree && this.db == db
    {
      this.tree, this.db := tree, db;
    }

    method RemoveAll(p: Path)
      modifies this`tree
      ensures tree == Without(old(tree), p)
    {
      tree := Without(tree, p);
    }

    /** Empty wp-content entry by entry, or create it. */
    method ClearDir() returns (ok: bool)
      requires WellFormed(tree)
      modifies this`tree
      ensures WellFormed(tree) && (ok <==> [] !in old(tree) || old(tree)[[]].Dir?)
      ensures tree == if ok then map[[] := Dir] else old(tree)
    {
      ghost var before := tree;
      EmptiedIsWellFormed();
      if [] !in tree {
        MissingRoot(tree);
        tree := tree[[] := Dir];
        return true;
      }
      if tree[[]].File? {
        return false;
      }
      var names := Sorted(Children(tree, []));
      assert forall n :: n in names <==> [n] in before by {
        assert forall n: string :: [] + [n] == [n];
      }
      assert tree == Remaining(before, names[..0]);
      var i := 0;
      while i < |names|
        invariant 0 <= i <= |names|
        invariant tree == Remaining(before, names[..i])
      {
        TakeOneMore(names, i);
        RemainingStep(before, names[..i], names[i]);
        RemoveAll([names[i]]);
        i := i + 1;
      }
      assert names[..i] == names;
      NothingRemains(before, names);
      ok := true;
    }

    /** Write one content member below the root, unless its name is rejected. */
    method ExtractInto(rel: string, m: Member) returns (ok: bool)
      requires WellFormed(tree)
      modifies this`tree
      ensures WellFormed(tree)
      ensures match Resolve(rel)
              case None => ok && tree == old(tree)
              case Some(path) =>
                match Apply(old(tree), OpOf(m, path))
                case None => !ok && tree == old(tree)
                case Some(t) => tree == t && (ok <==> m.isDir || m.complete)
    {
      var clean := Clean(rel);
      if Rejected(clean) {
        return true;
      }
      var dst := if clean == "." then [] else Split(clean);
      ghost var op := OpOf(m, dst);
      ApplyExact(tree, op);
      if m.isDir {
        var made := MkdirAll(tree, dst);
        if made.None? {
          return false;
        }
        tree := made.value;
        return true;
      }
      if dst != [] {
        var made := MkdirAll(tree, Parent(dst));
        if made.None? {
          return false;
        }
        if dst in tree && tree[dst].Dir? {
          return false;
        }
        MkdirAllExact(tree, Parent(dst));
        assert Lookup(made.value, dst) == Lookup(tree, dst);
        tree := made.value;
      }
      if dst in tree && tree[dst].Dir? {
        return false;
      }
      tree := tree[dst := File(m.content)];
      ok := m.complete;
    }

    /** Feed a dump to the database; a failed import leaves it damaged. */
    method LoadDB(m: Member, importOk: bool) returns (ok: bool)
      modifies this`db
      ensures ok <==> m.complete && importOk
      ensures db == if ok then Imported(m.content) else Damaged
    {
      ok := m.complete && importOk;
      db := if ok then Imported(m.content) else Damaged;
    }

    /** Empty wp-content before the first content member of a base, then extract the member. */
    method OneContent(rel: string, m: Member, isBase: bool, wasCleared: bool) returns (error: Option<Error>)
      requires WellFormed(tree)
      modifies this`tree
      ensures WellFormed(tree)
      ensures ContentEffect(old(tree), rel, m, isBase && !wasCleared, tree, error)
    {
      if isBase && !wasCleared {
        var ok := ClearDir();
        if !ok {
          return Some(ClearFailed);
        }
      }
      var ok := ExtractInto(rel, m);
      error := if ok then None else Some(ExtractFailed);
    }

    /** One turn of the restore loop. A member that was cut short but needed no bytes is noticed
        only at the next header, so a read failure is not reported here. */
    method OneMember(m: Member, isBase: bool, importOk: bool, wasCleared: bool, hadDump: bool, hadFiles: nat)
      returns (cleared: bool, dbApplied: bool, files: nat, error: Option<Error>)
      requires WellFormed(tree)
      modifies this
      ensures WellFormed(tree) && error != Some(ReadFailed)
      ensures Step(Outcome(old(tree), old(db), wasCleared, hadDump, hadFiles, None), EntryOf(m), isBase, importOk) ==
              Outcome(tree, db, cleared, dbApplied, files,
                      if error.None? && !m.complete then Some(ReadFailed) else error)
    {
      ghost var o := Outcome(tree, db, wasCleared, hadDump, hadFiles, None);
      cleared, dbApplied, files, error := wasCleared, hadDump, hadFiles, None;
      if IsDBDump(m.name) {
        var ok := LoadDB(m, importOk);
        if ok {
          dbApplied := true;
        } else {
          error := Some(ImportFailed);
        }
      } else {
        var rel := ContentRel(m.name);
        if rel.Some? {
          error := OneContent(rel.value, m, isBase, wasCleared);
          cleared := isBase || wasCleared;
          if error.None? {
            files := files + 1;
          }
          ContentStep(o, m, rel.value, isBase, importOk, tree, error);
        }
      }
    }

    /** The restore loop over the members of a stream. */
    method Consume(s: Stream, isBase: bool, importOk: nat -> bool)
      returns (dbApplied: bool, files: nat, error: Option<Error>)
      requires WellFormed(tree)
      modifies this
      ensures WellFormed(tree)
      ensures var o := ConsumedStream(old(tree), old(db), Entries(s.members), s.eof, isBase, importOk);
              o == Outcome(tree, db, o.cleared, dbApplied, files, error)
    {
      ghost var trace := Trace(tree, db, Entries(s.members), isBase, importOk);
      dbApplied, files, error := ReadMembers(s.members, isBase, importOk, trace);
      if error.None? && !s.eof {
        error := Some(ReadFailed);
      }
    }

    /** Read members until one fails or none is left, following the given states. */
    method ReadMembers(ms: seq<Member>, isBase: bool, importOk: nat -> bool, ghost trace: seq<Outcome>)
      returns (dbApplied: bool, files: nat, error: Option<Error>)
      requires WellFormed(tree)
      requires IsTrace(trace, Entries(ms), isBase, importOk)
      requires trace[0] == Outcome(tree, db, false, false, 0, None)
      modifies this
      ensures WellFormed(tree)
      ensures trace[|ms|] == Outcome(tree, db, trace[|ms|].cleared, dbApplied, files, error)
    {
      var cleared := false;
      dbApplied, files := false, 0;
      var i := 0;
      while true
        invariant 0 <= i <= |ms| && WellFormed(tree)
        invariant trace[i] == Outcome(tree, db, cleared, dbApplied, files,
                                      if i > 0 && !ms[i - 1].complete then Some(ReadFailed) else None)
        decreases |ms| - i
      {
        if i > 0 && !ms[i - 1].complete {
          FirstFailureStays(trace, Entries(ms), isBase, importOk, i);
          return dbApplied, files, Some(ReadFailed);
        }
        if i == |ms| {
          return dbApplied, files, None;
        }
        NextState(trace, ms, isBase, importOk, i);
        cleared, dbApplied, files, error := OneMember(ms[i], isBase, importOk(i), cleared, dbApplied, files);
        i := i + 1;
        if error.Some? {
          FirstFailureStays(trace, Entries(ms), isBase, importOk, i);
          return;
        }
      }
    }

    /** Restore one stream; without an imported dump it is never a success. */
    method ApplyStream(s: Stream, isBase: bool, importOk: nat -> bool) returns (error: Option<Error>)
      requires WellFormed(tree)
      modifies this
      ensures WellFormed(tree)
      ensures var o := Applied(old(tree), old(db), Entries(s.members), s.eof, isBase, importOk);
              tree == o.tree && db == o.db && error == o.error
    {
      var dbApplied, files;
      dbApplied, files, error := Consume(s, isBase, importOk);
      if error.None? && !dbApplied {
        error := Some(NoDump);
      }
    }

    /** Fetch one backup through the data plane and apply what it hands out. */
    method RestoreElement(d: Download, isBase: bool) returns (ok: bool)
      requires WellFormed(tree)
      modifies this
      ensures WellFormed(tree)
      ensures Element(SiteResult(old(tree), old(db), true), DeliveryOf(d), isBase) == SiteResult(tree, db, ok)
    {
      var error := ApplyStream(d.stream, isBase, d.importOk);
      ok := error.None? && d.planeOk;
    }
  }

  // ---------------------------------------------------------------------------------------------
  // The restore command.

  function Deliveries(ids: seq<string>, fetch: (nat, string) -> Download): (ds: seq<Delivery>)
    ensures |ds| == |ids| && forall k | 0 <= k < |ids| :: ds[k] == DeliveryOf(fetch(k, ids[k]))
  {
    seq(|ids|, k requires 0 <= k < |ids| => DeliveryOf(fetch(k, ids[k])))
  }

  /** The first failure ends the restore: what comes after it changes nothing more. */
  lemma {:induction false} FailedChainStays(tree: Tree, db: Db, ds: seq<Delivery>, n: nat)
    requires n <= |ds| && !RestoredChain(tree, db, ds[..n]).ok
    ensures RestoredChain(tree, db, ds) == RestoredChain(tree, db, ds[..n])
  {
    if n == |ds| {
      assert ds[..n] == ds;
    } else {
      assert ds[..|ds| - 1][..n] == ds[..n];
      FailedChainStays(tree, db, ds[..|ds| - 1], n);
    }
  }

  lemma {:induction false} NextElement(tree: Tree, db: Db, ds: seq<Delivery>, i: nat)
    requires i < |ds| && RestoredChain(tree, db, ds[..i]).ok
    ensures RestoredChain(tree, db, ds[..i + 1]) == Element(RestoredChain(tree, db, ds[..i]), ds[i], i == 0)
  {
    assert ds[..i + 1][..i] == ds[..i] && ds[..i + 1][i] == ds[i];
  }

  /** Apply the named backups in order, the first as base; stop at the first failure. */
  method RestoreAll(site: Site, ids: seq<string>, fetch: (nat, string) -> Download) returns (done: bool)
    requires WellFormed(site.tree)
    modifies site
    ensures WellFormed(site.tree)
    ensures RestoredChain(old(site.tree), old(site.db), Deliveries(ids, fetch)) == SiteResult(site.tree, site.db, done)
  {
    ghost var tree0, db0, ds := site.tree, site.db, Deliveries(ids, fetch);
    var i := 0;
    while i < |ids|
      invariant 0 <= i <= |ids| && WellFormed(site.tree)
      invariant RestoredChain(tree0, db0, ds[..i]) == SiteResult(site.tree, site.db, true)
    {
      NextElement(tree0, db0, ds, i);
      done := site.RestoreElement(fetch(i, ids[i]), i == 0);
      i := i + 1;
      if !done {
        FailedChainStays(tree0, db0, ds, i);
        return;
      }
    }
    assert ds[..i] == ds;
    done := true;
  }

  /** Execute a restore command: the supplied chain element by element, only the first as base, or
      the single named backup; done exactly if every element was delivered and applied. */
  method DoRestore(site: Site, backupId: string, chain: seq<string>, fetch: (nat, string) -> Download)
    returns (done: bool)
    requires WellFormed(site.tree)
    modifies site
    ensures WellFormed(site.tree)
    ensures backupId == "" ==> !done && site.tree == old(site.tree) && site.db == old(site.db)
    ensures backupId != "" ==>
              var ids := if chain == [] then [backupId] else chain;
              RestoredChain(old(site.tree), old(site.db), Deliveries(ids, fetch)) ==
              SiteResult(site.tree, site.db, done)
  {
    if backupId == "" {
      return false;
    }
    done := RestoreAll(site, if chain == [] then [backupId] else chain, fetch);
  }
}
