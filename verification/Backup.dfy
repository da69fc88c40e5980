/** Writing one archive: a full dump, then the walked content, through a writer that refuses to
    start a member while the previous one is short of its announced size. */
module Backup {
  import opened Text
  import opened PathNames
  import opened FileTree
  import opened Restore
  import opened Walk

  function DumpMember(dump: Bytes): Member {
    Member(DB_ENTRY, false, dump, true)
  }

  function Members(items: seq<Item>): (ms: seq<Member>)
    ensures |ms| == |items| && forall i | 0 <= i < |items| :: ms[i] == MemberOf(items[i])
  {
    seq(|items|, i requires 0 <= i < |items| => MemberOf(items[i]))
  }

  /** Only the last member may be cut short. */
  predicate Framed(ms: seq<Member>) {
    forall i | 0 <= i < |ms| - 1 :: ms[i].complete
  }

  /** The archive of one backup; None when the backup fails. */
  function Written(w: World, v: Visits, since: Time, dump: Option<Bytes>): Option<seq<Member>>
    requires ValidWorld(w)
  {
    if dump.None? || WalkAll(w, v, since).None? then None
    else
      var ms := [DumpMember(dump.value)] + Members(WalkAll(w, v, since).value);
      if Framed(ms) then Some(ms) else None
  }

  /** The cursor text handed to an incremental backup, once parsed. */
  datatype Cursor = NoCursor | Instant(t: Time) | Unreadable

  function Since(cursor: Cursor): Time {
    if cursor.Instant? then cursor.t else ZERO
  }

  /** The extraction step an item becomes on restore. */
  function StepOf(item: Item): Op {
    match item
    case DirItem(p) => MkDir(p)
    case FileItem(p, content, _) => Put(p, content)
  }

  function StepsOf(items: seq<Item>): (ops: seq<Op>)
    ensures |ops| == |items| && forall i | 0 <= i < |items| :: ops[i] == StepOf(items[i])
  {
    seq(|items|, i requires 0 <= i < |items| => StepOf(items[i]))
  }

  ghost predicate OrdinaryPaths(items: seq<Item>) {
    forall item | item in items :: item.path != [] && forall c | c in item.path :: Ordinary(c)
  }

  lemma {:induction false} MemberRoundTrip(item: Item)
    requires item.path != [] && forall c | c in item.path :: Ordinary(c)
    ensures EntryOf(MemberOf(item)) == ContentEntry(Some(StepOf(item)), item.DirItem? || item.complete)
  {
    var p := item.path;
    var rel := if item.DirItem? then Join(p) + "/" else Join(p);
    assert MemberOf(item).name == FILES_PREFIX + rel;
    MemberKindsAreDisjoint(FILES_PREFIX + rel, rel);
    WalkedNamesAreClean(p);
  }

  lemma {:induction false} DumpRoundTrip(dump: Bytes)
    ensures EntryOf(DumpMember(dump)) == DumpEntry(dump, true)
  {
  }

  function EntryOfItem(item: Item): Entry {
    ContentEntry(Some(StepOf(item)), item.DirItem? || item.complete)
  }

  function ItemEntries(items: seq<Item>): (es: seq<Entry>)
    ensures |es| == |items| && forall i | 0 <= i < |items| :: es[i] == EntryOfItem(items[i])
  {
    seq(|items|, i requires 0 <= i < |items| => EntryOfItem(items[i]))
  }

  lemma {:induction false} OpsOfItems(dump: Bytes, items: seq<Item>)
    ensures Ops([DumpEntry(dump, true)] + ItemEntries(items)) == StepsOf(items)
  {
    var es := [DumpEntry(dump, true)] + ItemEntries(items);
    if items == [] {
      assert es[..0] == [];
    } else {
      var init := items[..|items| - 1];
      OpsOfItems(dump, init);
      assert es[..|es| - 1] == [DumpEntry(dump, true)] + ItemEntries(init);
      assert StepsOf(items) == StepsOf(init) + [StepOf(items[|items| - 1])];
    }
  }

  lemma {:induction false} DumpOfItems(dump: Bytes, items: seq<Item>)
    ensures LastDump([DumpEntry(dump, true)] + ItemEntries(items)) == Some(dump)
  {
    if items != [] {
      var es := [DumpEntry(dump, true)] + ItemEntries(items);
      DumpOfItems(dump, items[..|items| - 1]);
      assert es[..|es| - 1] == [DumpEntry(dump, true)] + ItemEntries(items[..|items| - 1]);
    }
  }

  lemma {:induction false} ContentOfItems(dump: Bytes, items: seq<Item>)
    ensures HasContent([DumpEntry(dump, true)] + ItemEntries(items)) <==> items != []
  {
    var es := [DumpEntry(dump, true)] + ItemEntries(items);
    if items != [] {
      assert es[1] in es;
    }
  }

  /** A written archive means, to the restore loop, its dump and then one step per walked item. */
  lemma {:induction false} ArchiveMeaning(dump: Bytes, items: seq<Item>)
    requires OrdinaryPaths(items)
    ensures var es := Entries([DumpMember(dump)] + Members(items));
            && es == [DumpEntry(dump, true)] + ItemEntries(items)
            && Ops(es) == StepsOf(items)
            && LastDump(es) == Some(dump)
            && (HasContent(es) <==> items != [])
  {
    var ms := [DumpMember(dump)] + Members(items);
    var es := [DumpEntry(dump, true)] + ItemEntries(items);
    OpsOfItems(dump, items);
    DumpOfItems(dump, items);
    ContentOfItems(dump, items);
    DumpRoundTrip(dump);
    forall i | 0 <= i < |es|
      ensures Entries(ms)[i] == es[i]
    {
      if i > 0 {
        assert items[i - 1] in items;
        MemberRoundTrip(items[i - 1]);
      }
    }
    assert Entries(ms) == es;
  }

  /** Paths met by the walk are made of ordinary components. */
  lemma {:induction false} WalkedPathsAreOrdinary(w: World, v: Visits, since: Time)
    requires ValidWorld(w) && WalkAll(w, v, since).Some?
    ensures OrdinaryPaths(WalkAll(w, v, since).value)
  {
    WalkExact(w, v, since);
    forall item: Item | item in WalkAll(w, v, since).value
      ensures item.path != [] && forall c | c in item.path :: Ordinary(c)
    {
      assert SoundAt(w, v.statAt(item.path));
      assert item.path in w.at(v.statAt(item.path));
    }
  }

  /** What a cursor selects on a quiet source: one that is missing or cannot be read, like the zero
      instant, means a full backup; any other means the files modified after it, without directories. */
  lemma {:induction false} CursorSelects(w: World, v: Visits, cursor: Cursor, t: SourceTree)
    requires ValidWorld(w) && Quiet(w, v, t) && [] in t
    ensures WalkAll(w, v, Since(cursor)).Some?
    ensures forall p, content, complete :: FileItem(p, content, complete) in WalkAll(w, v, Since(cursor)).value <==>
              && p != [] && Included(w, t, p) && t[p].SFile?
              && (cursor.Instant? && cursor.t != 0 ==> t[p].mtime > cursor.t)
              && content == t[p].content && complete
    ensures forall p :: DirItem(p) in WalkAll(w, v, Since(cursor)).value <==>
              && p != [] && (cursor.Instant? ==> cursor.t == 0)
              && Included(w, t, p) && t[p].SDir? && !Skipped(w, p)
  {
    PrunedWalkIsFilter(w, v, Since(cursor), t);
  }

  ghost predicate NamedAs(m: Member, item: Item) {
    match item
    case DirItem(p) => m.isDir && Split(m.name) == ["files"] + p + [""] && m.content == []
    case FileItem(p, content, complete) =>
      !m.isDir && Split(m.name) == ["files"] + p && m.content == content && m.complete == complete
  }

  lemma {:induction false} ItemName(item: Item)
    requires item.path != [] && forall c | c in item.path :: Ordinary(c)
    ensures NamedAs(MemberOf(item), item)
  {
    var rel := Join(item.path);
    SplitPlain("files");
    SplitPlain("");
    SplitJoin(item.path);
    SplitAppend("files", rel);
    assert FILES_PREFIX + rel == "files" + "/" + rel;
    if item.DirItem? {
      SplitAppend("files" + "/" + rel, "");
      assert FILES_PREFIX + rel + "/" == ("files" + "/" + rel) + "/" + "";
    }
  }

  lemma {:induction false} ArchiveStart(dump: Bytes, items: seq<Item>)
    ensures var ms := [DumpMember(dump)] + Members(items);
            && |ms| == |items| + 1 && ms[0] == DumpMember(dump)
            && Split(ms[0].name) == ["db", "dump.sql"]
  {
    DumpName();
  }

  lemma {:induction false} NthMember(dump: Bytes, items: seq<Item>, i: nat)
    requires i < |items|
    ensures ([DumpMember(dump)] + Members(items))[i + 1] == MemberOf(items[i])
  {
  }

  /** The names in a written archive, by components: the dump comes first, whole, as db/dump.sql; then
      the i-th item of the walk at its path below files/, a directory with a slash at the end. */
  lemma {:induction false} WrittenNames(w: World, v: Visits, since: Time, dump: Bytes, i: nat)
    requires ValidWorld(w) && Written(w, v, since, Some(dump)).Some?
    ensures WalkAll(w, v, since).Some?
    ensures var ms, items := Written(w, v, since, Some(dump)).value, WalkAll(w, v, since).value;
            && |ms| == |items| + 1
            && Split(ms[0].name) == ["db", "dump.sql"]
            && ms[0].content == dump && ms[0].complete && !ms[0].isDir
            && (i < |items| ==> NamedAs(ms[i + 1], items[i]))
  {
    var items := WalkAll(w, v, since).value;
    ArchiveStart(dump, items);
    if i < |items| {
      WalkedPathsAreOrdinary(w, v, since);
      assert items[i] in items;
      ItemName(items[i]);
      NthMember(dump, items, i);
    }
  }

  /** A regular file the walk reached and picked up. */
  ghost predicate Picked(w: World, v: Visits, since: Time, p: Path) {
    Reached(w, v, p) && PicksUp(w, v, since, p)
  }

  lemma {:induction false} StepFromItem(items: seq<Item>, op: Op) returns (item: Item)
    requires op in StepsOf(items)
    ensures item in items && StepOf(item) == op
  {
    var i :| 0 <= i < |items| && StepsOf(items)[i] == op;
    item := items[i];
  }

  lemma {:induction false} ItemToStep(items: seq<Item>, item: Item)
    requires item in items
    ensures StepOf(item) in StepsOf(items)
  {
    var i :| 0 <= i < |items| && items[i] == item;
    assert StepsOf(items)[i] == StepOf(item);
  }

  /** The steps of a walk's archive at one path: a file, with the content read, exactly if the path
      was picked up; a directory exactly if a full walk entered it. */
  lemma {:induction false} StepsAt(w: World, v: Visits, since: Time, p: Path)
    requires ValidWorld(w) && WalkAll(w, v, since).Some?
    ensures var ops := StepsOf(WalkAll(w, v, since).value);
            && (Picked(w, v, since, p) ==>
                 ReadOf(w, v, p).Some? && Put(p, ReadOf(w, v, p).value) in ops)
            && (forall c | Put(p, c) in ops ::
                 Picked(w, v, since, p) && ReadOf(w, v, p) == Some(c))
            && (MkDir(p) in ops <==> Reached(w, v, p) && p != [] && since == ZERO && Open(w, v, p))
  {
    WalkExact(w, v, since);
    var items := WalkAll(w, v, since).value;
    var ops := StepsOf(items);
    if Reached(w, v, p) {
      assert Recorded(w, v, since, p, items);
      if PicksUp(w, v, since, p) {
        var c := ReadOf(w, v, p).value;
        ItemToStep(items, FileItem(p, c, |c| == |w.at(v.statAt(p))[p].content|));
      }
      if p != [] && since == ZERO && Open(w, v, p) {
        ItemToStep(items, DirItem(p));
      }
    }
    forall c | Put(p, c) in ops
      ensures Picked(w, v, since, p) && ReadOf(w, v, p) == Some(c)
    {
      var item := StepFromItem(items, Put(p, c));
      assert Carries(w, v, since, item) && item.path == p;
    }
    if MkDir(p) in ops {
      var item := StepFromItem(items, MkDir(p));
      assert Carries(w, v, since, item) && item.path == p;
    }
  }
}
