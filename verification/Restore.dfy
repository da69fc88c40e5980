/** Restoring one archive stream: the loop over members, the lazy clear of wp-content, and the
    rule that a restore must import a database dump. */
module Restore {
  import opened FileTree
  import opened PathNames
  import opened Text

  /** One archive member; an incomplete one ends in a read error after `content`. */
  datatype Member = Member(name: string, isDir: bool, content: Bytes, complete: bool)

  /** What the reader hands out: whole members, then a clean end or a read error. */
  datatype Stream = Stream(members: seq<Member>, eof: bool)

  /** What a member means to the restore loop; a content member whose name is rejected has no step. */
  datatype Entry =
    | DumpEntry(dump: Bytes, complete: bool)
    | ContentEntry(step: Option<Op>, complete: bool)
    | OtherEntry(complete: bool)

  function OpOf(m: Member, path: Path): Op {
    if m.isDir then MkDir(path) else Put(path, m.content)
  }

  function EntryOf(m: Member): Entry {
    if IsDBDump(m.name) then DumpEntry(m.content, m.complete)
    else
      match ContentRel(m.name)
      case None => OtherEntry(m.complete)
      case Some(rel) =>
        match Resolve(rel)
        case None => ContentEntry(None, m.complete)
        case Some(path) => ContentEntry(Some(OpOf(m, path)), m.complete)
  }

  function Entries(ms: seq<Member>): (es: seq<Entry>)
    ensures |es| == |ms| && forall i | 0 <= i < |ms| :: es[i] == EntryOf(ms[i])
  {
    seq(|ms|, i requires 0 <= i < |ms| => EntryOf(ms[i]))
  }

  /** The database, replaced as a whole by each import. */
  datatype Db = Live | Imported(dump: Bytes) | Damaged

  datatype Error = ReadFailed | ImportFailed | ClearFailed | ExtractFailed | NoDump

  datatype Outcome = Outcome(tree: Tree, db: Db, cleared: bool, dbApplied: bool, files: nat, error: Option<Error>)

  const EMPTIED: Tree := map[[] := Dir]

  /** Emptying wp-content: a missing one is created, a file in its place is an error. */
  function Cleared(t: Tree): Option<Tree> {
    if [] in t && t[[]].File? then None else Some(EMPTIED)
  }

  /** A member that was cut short makes the next header read fail. */
  function Settle(o: Outcome, complete: bool): Outcome {
    if complete then o else o.(error := Some(ReadFailed))
  }

  function Extract(o: Outcome, e: Entry): Outcome
    requires e.ContentEntry?
  {
    match e.step
    case None => Settle(o.(files := o.files + 1), e.complete)
    case Some(op) =>
      match Apply(o.tree, op)
      case None => o.(error := Some(ExtractFailed))
      case Some(t) =>
        if op.MkDir? || e.complete then Settle(o.(tree := t, files := o.files + 1), e.complete)
        else o.(tree := t, error := Some(ExtractFailed))
  }

  function Step(o: Outcome, e: Entry, isBase: bool, importOk: bool): Outcome {
    match e
    case DumpEntry(dump, complete) =>
      if complete && importOk then o.(db := Imported(dump), dbApplied := true)
      else o.(db := Damaged, error := Some(ImportFailed))
    case OtherEntry(complete) => Settle(o, complete)
    case ContentEntry(_, _) =>
      if isBase && !o.cleared then
        match Cleared(o.tree)
        case None => o.(cleared := true, error := Some(ClearFailed))
        case Some(t) => Extract(o.(tree := t, cleared := true), e)
      else Extract(o, e)
  }

  /** The state after some members; the import of member i succeeds iff importOk(i). */
  function Consumed(tree: Tree, db: Db, es: seq<Entry>, isBase: bool, importOk: nat -> bool): Outcome {
    if es == [] then Outcome(tree, db, false, false, 0, None)
    else
      var o := Consumed(tree, db, es[..|es| - 1], isBase, importOk);
      if o.error.Some? then o else Step(o, es[|es| - 1], isBase, importOk(|es| - 1))
  }

  function ConsumedStream(tree: Tree, db: Db, es: seq<Entry>, eof: bool, isBase: bool, importOk: nat -> bool): Outcome {
    var o := Consumed(tree, db, es, isBase, importOk);
    if o.error.None? && !eof then o.(error := Some(ReadFailed)) else o
  }

  /** The whole restore of one stream: success also needs an imported dump. */
  function Applied(tree: Tree, db: Db, es: seq<Entry>, eof: bool, isBase: bool, importOk: nat -> bool): Outcome {
    var o := ConsumedStream(tree, db, es, eof, isBase, importOk);
    if o.error.None? && !o.dbApplied then o.(error := Some(NoDump)) else o
  }

  // ---------------------------------------------------------------------------------------------
  // What an archive says, independently of the loop that reads it.

  ghost predicate HasContent(es: seq<Entry>) {
    exists e :: e in es && e.ContentEntry?
  }

  /** The extraction steps of the members that are not rejected. */
  function Ops(es: seq<Entry>): seq<Op> {
    if es == [] then []
    else
      var e := es[|es| - 1];
      Ops(es[..|es| - 1]) + if e.ContentEntry? && e.step.Some? then [e.step.value] else []
  }

  function LastDump(es: seq<Entry>): Option<Bytes> {
    if es == [] then None
    else if es[|es| - 1].DumpEntry? then Some(es[|es| - 1].dump)
    else LastDump(es[..|es| - 1])
  }

  function CountContent(es: seq<Entry>): nat {
    if es == [] then 0
    else CountContent(es[..|es| - 1]) + if es[|es| - 1].ContentEntry? then 1 else 0
  }

  ghost predicate AllComplete(es: seq<Entry>) {
    forall e | e in es :: e.complete
  }

  ghost predicate ImportsOk(es: seq<Entry>, importOk: nat -> bool) {
    forall i | 0 <= i < |es| && es[i].DumpEntry? :: importOk(i)
  }

  /** The tree extraction starts from: emptied on a base element that has content. */
  ghost function StartTree(tree: Tree, es: seq<Entry>, isBase: bool): Tree {
    if isBase && HasContent(es) then EMPTIED else tree
  }

  ghost predicate Restorable(tree: Tree, es: seq<Entry>, isBase: bool, importOk: nat -> bool) {
    && AllComplete(es)
    && ImportsOk(es, importOk)
    && (isBase && HasContent(es) ==> !IsFileIn(tree, []))
    && Run(StartTree(tree, es, isBase), Ops(es)).Some?
  }

  lemma {:induction false} LastEntry(es: seq<Entry>)
    requires es != []
    ensures forall e :: e in es <==> e in es[..|es| - 1] || e == es[|es| - 1]
    ensures HasContent(es) <==> HasContent(es[..|es| - 1]) || es[|es| - 1].ContentEntry?
  {
    assert es == es[..|es| - 1] + [es[|es| - 1]];
  }

  lemma {:induction false} NoContentNoOps(es: seq<Entry>)
    ensures !HasContent(es) ==> Ops(es) == []
  {
    if es != [] {
      LastEntry(es);
      NoContentNoOps(es[..|es| - 1]);
    }
  }

  /** How the last member extends what there is to run. */
  lemma {:induction false} RunOfLast(tree: Tree, es: seq<Entry>, isBase: bool)
    requires es != []
    ensures var init, e := es[..|es| - 1], es[|es| - 1];
            var start := StartTree(tree, es, isBase);
            Run(start, Ops(es)) ==
            if e.ContentEntry? && e.step.Some? then
              match Run(start, Ops(init))
              case None => None
              case Some(t) => Apply(t, e.step.value)
            else Run(start, Ops(init))
  {
    var init, e := es[..|es| - 1], es[|es| - 1];
    if e.ContentEntry? && e.step.Some? {
      assert Ops(es)[..|Ops(es)| - 1] == Ops(init);
    } else {
      assert Ops(es) == Ops(init);
    }
  }

  lemma {:induction false} ImportsOfLast(es: seq<Entry>, importOk: nat -> bool)
    requires es != []
    ensures ImportsOk(es, importOk) <==>
            ImportsOk(es[..|es| - 1], importOk) && (es[|es| - 1].DumpEntry? ==> importOk(|es| - 1))
  {
    var init := es[..|es| - 1];
    forall i | 0 <= i < |init|
      ensures es[i] == init[i]
    {
    }
  }

  lemma {:induction false} RunnablePrefix(tree: Tree, es: seq<Entry>, isBase: bool)
    requires es != [] && Run(StartTree(tree, es, isBase), Ops(es)).Some?
    ensures Run(StartTree(tree, es[..|es| - 1], isBase), Ops(es[..|es| - 1])).Some?
  {
    LastEntry(es);
    NoContentNoOps(es[..|es| - 1]);
    RunOfLast(tree, es, isBase);
  }

  lemma {:induction false} RestorableOfLast(tree: Tree, es: seq<Entry>, isBase: bool, importOk: nat -> bool)
    requires es != []
    ensures var init, e := es[..|es| - 1], es[|es| - 1];
            Restorable(tree, es, isBase, importOk) <==>
            && Restorable(tree, init, isBase, importOk)
            && e.complete
            && (e.DumpEntry? ==> importOk(|es| - 1))
            && (isBase && e.ContentEntry? ==> !IsFileIn(tree, []))
            && Run(StartTree(tree, es, isBase), Ops(es)).Some?
  {
    var init, e := es[..|es| - 1], es[|es| - 1];
    LastEntry(es);
    ImportsOfLast(es, importOk);
    assert AllComplete(es) <==> AllComplete(init) && e.complete;
    if Run(StartTree(tree, es, isBase), Ops(es)).Some? {
      RunnablePrefix(tree, es, isBase);
    }
  }

  ghost predicate IsEffect(o: Outcome, tree: Tree, db: Db, es: seq<Entry>, isBase: bool) {
    && Run(StartTree(tree, es, isBase), Ops(es)) == Some(o.tree)
    && o.db == (if LastDump(es).Some? then Imported(LastDump(es).value) else db)
    && o.dbApplied == LastDump(es).Some?
    && o.files == CountContent(es)
    && o.cleared == (isBase && HasContent(es))
  }

  /** The tree after a content member, extraction starting from an emptied tree if it is the first
      one of a base. */
  function TreeAfter(o: Outcome, e: Entry, isBase: bool): Option<Tree>
    requires e.ContentEntry?
  {
    var before := if isBase && !o.cleared then EMPTIED else o.tree;
    if e.step.Some? then Apply(before, e.step.value) else Some(before)
  }

  lemma {:induction false} StepOnContent(o: Outcome, e: Entry, isBase: bool, importOk: bool)
    requires e.ContentEntry? && o.error.None?
    ensures var r, after := Step(o, e, isBase, importOk), TreeAfter(o, e, isBase);
            && (r.error.None? <==> e.complete && (isBase && !o.cleared ==> !IsFileIn(o.tree, [])) && after.Some?)
            && (r.error.None? ==> r == o.(tree := after.value, cleared := isBase || o.cleared, files := o.files + 1))
  {
  }

  lemma {:induction false} RunThroughContent(o: Outcome, tree: Tree, db: Db, es: seq<Entry>, isBase: bool)
    requires es != [] && es[|es| - 1].ContentEntry? && IsEffect(o, tree, db, es[..|es| - 1], isBase)
    ensures Run(StartTree(tree, es, isBase), Ops(es)) == TreeAfter(o, es[|es| - 1], isBase)
  {
    LastEntry(es);
    NoContentNoOps(es[..|es| - 1]);
    RunOfLast(tree, es, isBase);
  }

  lemma {:induction false} FirstContentTree(o: Outcome, tree: Tree, db: Db, init: seq<Entry>, isBase: bool)
    requires IsEffect(o, tree, db, init, isBase)
    ensures isBase && !o.cleared ==> o.tree == tree
  {
    NoContentNoOps(init);
  }

  lemma {:induction false} OtherStep(o: Outcome, tree: Tree, db: Db, es: seq<Entry>, isBase: bool, importOk: bool)
    requires es != [] && !es[|es| - 1].ContentEntry? && o.error.None? && IsEffect(o, tree, db, es[..|es| - 1], isBase)
    ensures var r := Step(o, es[|es| - 1], isBase, importOk);
            && (r.error.None? <==> es[|es| - 1].complete && (es[|es| - 1].DumpEntry? ==> importOk))
            && (r.error.None? ==> IsEffect(r, tree, db, es, isBase))
            && Run(StartTree(tree, es, isBase), Ops(es)).Some?
  {
    LastEntry(es);
    RunOfLast(tree, es, isBase);
  }

  lemma {:induction false} ContentExact(o: Outcome, tree: Tree, db: Db, es: seq<Entry>, isBase: bool,
            importOk: nat -> bool)
    requires es != [] && es[|es| - 1].ContentEntry? && o.error.None? && IsEffect(o, tree, db, es[..|es| - 1], isBase)
    requires Restorable(tree, es[..|es| - 1], isBase, importOk)
    ensures var r := Step(o, es[|es| - 1], isBase, importOk(|es| - 1));
            && (r.error.None? <==> Restorable(tree, es, isBase, importOk))
            && (r.error.None? ==> IsEffect(r, tree, db, es, isBase))
  {
    var init, e := es[..|es| - 1], es[|es| - 1];
    RestorableOfLast(tree, es, isBase, importOk);
    StepOnContent(o, e, isBase, importOk(|es| - 1));
    RunThroughContent(o, tree, db, es, isBase);
    FirstContentTree(o, tree, db, init, isBase);
    LastEntry(es);
  }

  lemma {:induction false} SuccessIsEffect(tree: Tree, db: Db, es: seq<Entry>, isBase: bool, importOk: nat -> bool)
    requires Consumed(tree, db, es, isBase, importOk).error.None?
    ensures Restorable(tree, es, isBase, importOk)
    ensures IsEffect(Consumed(tree, db, es, isBase, importOk), tree, db, es, isBase)
  {
    if es != [] {
      var init := es[..|es| - 1];
      SuccessIsEffect(tree, db, init, isBase, importOk);
      var o := Consumed(tree, db, init, isBase, importOk);
      if es[|es| - 1].ContentEntry? {
        ContentExact(o, tree, db, es, isBase, importOk);
      } else {
        OtherStep(o, tree, db, es, isBase, importOk(|es| - 1));
        RestorableOfLast(tree, es, isBase, importOk);
      }
    }
  }

  lemma {:induction false} RestorableSucceeds(tree: Tree, db: Db, es: seq<Entry>, isBase: bool, importOk: nat -> bool)
    requires Restorable(tree, es, isBase, importOk)
    ensures Consumed(tree, db, es, isBase, importOk).error.None?
  {
    if es != [] {
      var init := es[..|es| - 1];
      RestorableOfLast(tree, es, isBase, importOk);
      RestorableSucceeds(tree, db, init, isBase, importOk);
      SuccessIsEffect(tree, db, init, isBase, importOk);
      var o := Consumed(tree, db, init, isBase, importOk);
      if es[|es| - 1].ContentEntry? {
        ContentExact(o, tree, db, es, isBase, importOk);
      } else {
        OtherStep(o, tree, db, es, isBase, importOk(|es| - 1));
      }
    }
  }

  /** The loop succeeds exactly on a restorable archive, and then its effect is the run of the
      archive's extraction steps, the last dump, and the number of content members. */
  lemma {:induction false} ConsumedExact(tree: Tree, db: Db, es: seq<Entry>, isBase: bool, importOk: nat -> bool)
    ensures var o := Consumed(tree, db, es, isBase, importOk);
            && (o.error.None? <==> Restorable(tree, es, isBase, importOk))
            && (o.error.None? ==> IsEffect(o, tree, db, es, isBase))
  {
    if Consumed(tree, db, es, isBase, importOk).error.None? {
      SuccessIsEffect(tree, db, es, isBase, importOk);
    }
    if Restorable(tree, es, isBase, importOk) {
      RestorableSucceeds(tree, db, es, isBase, importOk);
    }
  }

  ghost predicate Follows(o: Outcome, e: Entry, next: Outcome, isBase: bool, importOk: bool) {
    next == if o.error.Some? then o else Step(o, e, isBase, importOk)
  }

  /** The states of the loop, member by member; the first failure stays. */
  ghost predicate IsTrace(trace: seq<Outcome>, es: seq<Entry>, isBase: bool, importOk: nat -> bool) {
    && |trace| == |es| + 1
    && forall i | 0 <= i < |es| :: Follows(trace[i], es[i], trace[i + 1], isBase, importOk(i))
  }

  lemma {:induction false} ExtendTrace(trace: seq<Outcome>, es: seq<Entry>, isBase: bool,
            importOk: nat -> bool, last: Outcome)
    requires es != [] && IsTrace(trace, es[..|es| - 1], isBase, importOk)
    requires Follows(trace[|es| - 1], es[|es| - 1], last, isBase, importOk(|es| - 1))
    ensures IsTrace(trace + [last], es, isBase, importOk)
  {
    var longer, init := trace + [last], es[..|es| - 1];
    forall i | 0 <= i < |es|
      ensures Follows(longer[i], es[i], longer[i + 1], isBase, importOk(i))
    {
      if i < |init| {
        assert Follows(trace[i], init[i], trace[i + 1], isBase, importOk(i));
      }
    }
  }

  lemma {:induction false} Trace(tree: Tree, db: Db, es: seq<Entry>, isBase: bool, importOk: nat -> bool)
    returns (trace: seq<Outcome>)
    ensures IsTrace(trace, es, isBase, importOk)
    ensures trace[0] == Outcome(tree, db, false, false, 0, None)
    ensures trace[|es|] == Consumed(tree, db, es, isBase, importOk)
  {
    if es == [] {
      trace := [Outcome(tree, db, false, false, 0, None)];
    } else {
      trace := Trace(tree, db, es[..|es| - 1], isBase, importOk);
      var last := Consumed(tree, db, es, isBase, importOk);
      ExtendTrace(trace, es, isBase, importOk, last);
      trace := trace + [last];
    }
  }

  lemma {:induction false} FirstFailureStays(trace: seq<Outcome>, es: seq<Entry>, isBase: bool,
                                             importOk: nat -> bool, i: nat)
    requires IsTrace(trace, es, isBase, importOk) && i <= |es| && trace[i].error.Some?
    ensures trace[|es|] == trace[i]
    decreases |es| - i
  {
    if i < |es| {
      assert Follows(trace[i], es[i], trace[i + 1], isBase, importOk(i));
      FirstFailureStays(trace, es, isBase, importOk, i + 1);
    }
  }

  /** A restore succeeds exactly when the stream was read to its end, everything in it could be
      restored, and it held a dump; the database is then the last dump and the tree the overlay. */
  lemma {:induction false} AppliedExact(tree: Tree, db: Db, es: seq<Entry>, eof: bool, isBase: bool,
            importOk: nat -> bool)
    requires WellFormed(tree)
    ensures var o := Applied(tree, db, es, eof, isBase, importOk);
            && (o.error.None? <==> eof && Restorable(tree, es, isBase, importOk) && LastDump(es).Some?)
            && (o.error.None? ==>
              && o.db == Imported(LastDump(es).value)
              && Run(StartTree(tree, es, isBase), Ops(es)) == Some(o.tree)
              && WellFormed(o.tree)
              && forall p :: Lookup(o.tree, p) == Overlay(StartTree(tree, es, isBase), Ops(es), p))
  {
    ConsumedExact(tree, db, es, isBase, importOk);
    if Applied(tree, db, es, eof, isBase, importOk).error.None? {
      assert WellFormed(EMPTIED);
      RunIsOverlay(StartTree(tree, es, isBase), Ops(es));
    }
  }

  /** The error of a restore that does not fail at a member: the stream broke off, or held no dump. */
  lemma {:induction false} AppliedErrors(tree: Tree, db: Db, es: seq<Entry>, eof: bool, isBase: bool,
            importOk: nat -> bool)
    ensures var o := Applied(tree, db, es, eof, isBase, importOk);
            && (Restorable(tree, es, isBase, importOk) && !eof ==> o.error == Some(ReadFailed))
            && (Restorable(tree, es, isBase, importOk) && eof && LastDump(es).None? ==> o.error == Some(NoDump))
            && (!Restorable(tree, es, isBase, importOk) ==> o == Consumed(tree, db, es, isBase, importOk))
  {
    ConsumedExact(tree, db, es, isBase, importOk);
  }

  /** As long as no content member was read, wp-content is untouched, however the restore ends. */
  lemma {:induction false} UntouchedBeforeContent(tree: Tree, db: Db, es: seq<Entry>, isBase: bool,
            importOk: nat -> bool)
    requires !HasContent(es)
    ensures Consumed(tree, db, es, isBase, importOk).tree == tree
    ensures !Consumed(tree, db, es, isBase, importOk).cleared
  {
    if es != [] {
      LastEntry(es);
      UntouchedBeforeContent(tree, db, es[..|es| - 1], isBase, importOk);
    }
  }

  /** A path survives with its kind, and only a step naming it may have changed its content. */
  ghost predicate Survives(p: Path, before: Tree, after: Tree, ops: seq<Op>)
    requires p in before
  {
    && p in after && after[p].Dir? == before[p].Dir?
    && (after[p] != before[p] ==> exists op :: op in ops && op.Put? && op.path == p)
  }

  /** A later element of a chain never clears and never removes: even if it fails half way, every
      path is still there, of the same kind, and only files it names have changed. */
  lemma {:induction false} DeltaNeverRemoves(tree: Tree, db: Db, es: seq<Entry>, importOk: nat -> bool)
    requires WellFormed(tree)
    ensures var o := Consumed(tree, db, es, false, importOk);
            && WellFormed(o.tree) && !o.cleared
            && forall p | p in tree :: Survives(p, tree, o.tree, Ops(es))
  {
    if es != [] {
      var init, e := es[..|es| - 1], es[|es| - 1];
      DeltaNeverRemoves(tree, db, init, importOk);
      var o := Consumed(tree, db, init, false, importOk);
      var after := Consumed(tree, db, es, false, importOk);
      forall op | op in Ops(init)
        ensures op in Ops(es)
      {
      }
      if o.error.None? && e.ContentEntry? && e.step.Some? {
        ApplyExact(o.tree, e.step.value);
        assert e.step.value in Ops(es);
      }
      forall p | p in tree
        ensures Survives(p, tree, after.tree, Ops(es))
      {
        assert Survives(p, tree, o.tree, Ops(init));
        assert Lookup(o.tree, p) == Some(o.tree[p]);
        if o.error.None? && e.ContentEntry? && e.step.Some? && Apply(o.tree, e.step.value).Some? {
          assert after.tree == Apply(o.tree, e.step.value).value;
          assert Lookup(after.tree, p).Some?;
        } else {
          assert after.tree == o.tree;
        }
      }
    }
  }

  // ---------------------------------------------------------------------------------------------
  // Tolerance for member names of other versions.

  /** The member under the names of another version: content below wp-content/, the dump under
      any accepted dump name. */
  function Renamed(m: Member, dumpName: string): Member {
    if IsDBDump(m.name) then m.(name := dumpName)
    else if HasPrefix(m.name, FILES_PREFIX) then m.(name := LEGACY_PREFIX + m.name[|FILES_PREFIX|..])
    else m
  }

  lemma {:induction false} RenamedEntry(m: Member, dumpName: string)
    requires IsDBDump(dumpName)
    ensures EntryOf(Renamed(m, dumpName)) == EntryOf(m)
  {
    if !IsDBDump(m.name) && HasPrefix(m.name, FILES_PREFIX) {
      var rel := m.name[|FILES_PREFIX|..];
      assert m.name == FILES_PREFIX + rel;
      MemberKindsAreDisjoint(LEGACY_PREFIX + rel, rel);
    }
  }

  /** Renaming an archive that way changes nothing about its restore, whatever the archive. */
  lemma {:induction false} RenamingIsInvisible(tree: Tree, db: Db, s: Stream, dumpNames: nat -> string,
            isBase: bool, importOk: nat -> bool)
    requires forall i: nat :: IsDBDump(dumpNames(i))
    ensures var renamed := seq(|s.members|, i requires 0 <= i < |s.members| => Renamed(s.members[i], dumpNames(i)));
            Applied(tree, db, Entries(renamed), s.eof, isBase, importOk) ==
            Applied(tree, db, Entries(s.members), s.eof, isBase, importOk)
  {
    var renamed := seq(|s.members|, i requires 0 <= i < |s.members| => Renamed(s.members[i], dumpNames(i)));
    forall i | 0 <= i < |renamed|
      ensures Entries(renamed)[i] == Entries(s.members)[i]
    {
      RenamedEntry(s.members[i], dumpNames(i));
    }
    assert Entries(renamed) == Entries(s.members);
  }

  // ---------------------------------------------------------------------------------------------
  // Members that are neither a dump nor content.

  /** A name of neither kind: not a dump of the top level or of db/, and not below files/ or
      wp-content/. */
  ghost predicate IsUnknown(name: string) {
    var parts := Split(name);
    && !(HasSuffix(name, ".sql") && (|parts| == 1 || (|parts| == 2 && parts[0] == "db")))
    && !(|parts| >= 2 && (parts[0] == "files" || parts[0] == "wp-content"))
  }

  /** Read component by component below files/ or wp-content/, the name is absolute or at some point
      climbs above its start. */
  ghost predicate Escapes(parts: seq<string>) {
    || (|parts| >= 2 && parts[0] == "")
    || exists i | 0 <= i <= |parts| :: Depth(parts[..i]) < 0
  }

  /** What a member means to the loop, by the components of its name: a dump, content with a step at the
      cleaned path below the first component, content without a step if the name escapes, or neither. */
  lemma {:induction false} EntryMeaning(m: Member)
    ensures var parts, e := Split(m.name), EntryOf(m);
            && e.complete == m.complete
            && (e.DumpEntry? <==>
                  HasSuffix(m.name, ".sql") && (|parts| == 1 || (|parts| == 2 && parts[0] == "db")))
            && (e.DumpEntry? ==> e.dump == m.content)
            && (e.ContentEntry? <==> |parts| >= 2 && (parts[0] == "files" || parts[0] == "wp-content"))
            && (e.ContentEntry? ==> (e.step.None? <==> Escapes(parts[1..])))
            && (e.ContentEntry? && e.step.Some? ==>
                  var path := Fold(false, [], parts[1..]);
                  e.step.value == if m.isDir then MkDir(path) else Put(path, m.content))
  {
    DumpNames(m.name);
    ContentNames(m.name);
    MemberKindsAreDisjoint(m.name, "");
    if ContentRel(m.name).Some? {
      var rel := ContentRel(m.name).value;
      RejectedIffEscapes(rel);
      RootedSplit(rel);
      var ups := ResolveExact(rel);
    }
  }

  lemma {:induction false} UnknownEntry(m: Member)
    ensures IsUnknown(m.name) <==> EntryOf(m).OtherEntry?
    ensures IsUnknown(m.name) ==> EntryOf(m) == OtherEntry(m.complete)
  {
    DumpNames(m.name);
    ContentNames(m.name);
  }

  lemma {:induction false} SameImports(tree: Tree, db: Db, es: seq<Entry>, isBase: bool,
            importOk: nat -> bool, others: nat -> bool)
    requires forall k: nat | k < |es| :: importOk(k) == others(k)
    ensures Consumed(tree, db, es, isBase, importOk) == Consumed(tree, db, es, isBase, others)
  {
    if es != [] {
      SameImports(tree, db, es[..|es| - 1], isBase, importOk, others);
    }
  }

  /** The outcomes of the imports as they are numbered once member i is gone. */
  function ImportsWithout(importOk: nat -> bool, i: nat): nat -> bool {
    (k: nat) => importOk(if k < i then k else k + 1)
  }

  lemma {:induction false} LastIsNoStep(tree: Tree, db: Db, es: seq<Entry>, isBase: bool, importOk: nat -> bool)
    requires es != [] && es[|es| - 1] == OtherEntry(true)
    ensures Consumed(tree, db, es, isBase, importOk) == Consumed(tree, db, es[..|es| - 1], isBase, importOk)
  {
  }

  lemma {:induction false} SameStepAfter(tree: Tree, db: Db, es: seq<Entry>, rest: seq<Entry>, isBase: bool,
            importOk: nat -> bool, others: nat -> bool)
    requires es != [] && rest != [] && es[|es| - 1] == rest[|rest| - 1]
    requires importOk(|es| - 1) == others(|rest| - 1)
    requires Consumed(tree, db, es[..|es| - 1], isBase, importOk) ==
             Consumed(tree, db, rest[..|rest| - 1], isBase, others)
    ensures Consumed(tree, db, es, isBase, importOk) == Consumed(tree, db, rest, isBase, others)
  {
  }

  lemma {:induction false} OtherIsNoStep(tree: Tree, db: Db, es: seq<Entry>, i: nat, isBase: bool,
            importOk: nat -> bool)
    requires i < |es| && es[i] == OtherEntry(true)
    ensures Consumed(tree, db, es[..i] + es[i + 1..], isBase, ImportsWithout(importOk, i)) ==
            Consumed(tree, db, es, isBase, importOk)
  {
    var init, rest, others := es[..|es| - 1], es[..i] + es[i + 1..], ImportsWithout(importOk, i);
    if i == |es| - 1 {
      assert rest == init;
      SameImports(tree, db, init, isBase, importOk, others);
      LastIsNoStep(tree, db, es, isBase, importOk);
    } else {
      OtherIsNoStep(tree, db, init, i, isBase, importOk);
      assert rest[..|rest| - 1] == init[..i] + init[i + 1..];
      SameStepAfter(tree, db, es, rest, isBase, importOk, others);
    }
  }

  /** A member of neither kind is passed over: without it the archive restores to the same outcome. */
  lemma {:induction false} UnknownIsInvisible(tree: Tree, db: Db, ms: seq<Member>, i: nat, eof: bool,
            isBase: bool, importOk: nat -> bool)
    requires i < |ms| && IsUnknown(ms[i].name) && ms[i].complete
    ensures Applied(tree, db, Entries(ms[..i] + ms[i + 1..]), eof, isBase, ImportsWithout(importOk, i)) ==
            Applied(tree, db, Entries(ms), eof, isBase, importOk)
  {
    UnknownEntry(ms[i]);
    var es := Entries(ms);
    assert Entries(ms[..i] + ms[i + 1..]) == es[..i] + es[i + 1..];
    OtherIsNoStep(tree, db, es, i, isBase, importOk);
  }

  // ---------------------------------------------------------------------------------------------
  // What is left behind by a restore that fails.

  lemma {:induction false} FailureStays(tree: Tree, db: Db, es: seq<Entry>, j: nat, isBase: bool,
            importOk: nat -> bool)
    requires j <= |es| && Consumed(tree, db, es[..j], isBase, importOk).error.Some?
    ensures Consumed(tree, db, es, isBase, importOk) == Consumed(tree, db, es[..j], isBase, importOk)
  {
    if j == |es| {
      assert es[..j] == es;
    } else {
      var init := es[..|es| - 1];
      assert init[..j] == es[..j];
      FailureStays(tree, db, init, j, isBase, importOk);
    }
  }

  /** Member i is the first that cannot be restored. */
  ghost predicate FailsFirst(tree: Tree, es: seq<Entry>, i: nat, isBase: bool, importOk: nat -> bool) {
    && i < |es|
    && Restorable(tree, es[..i], isBase, importOk)
    && !Restorable(tree, es[..i + 1], isBase, importOk)
  }

  /** Whatever cannot be restored has such a member. */
  lemma {:induction false} SomeFailsFirst(tree: Tree, es: seq<Entry>, isBase: bool, importOk: nat -> bool)
    requires !Restorable(tree, es, isBase, importOk)
    ensures exists i: nat :: FailsFirst(tree, es, i, isBase, importOk)
  {
    if es != [] {
      var init := es[..|es| - 1];
      if Restorable(tree, init, isBase, importOk) {
        assert es[..|es|] == es;
        assert FailsFirst(tree, es, |init|, isBase, importOk);
      } else {
        SomeFailsFirst(tree, init, isBase, importOk);
        var i: nat :| FailsFirst(tree, init, i, isBase, importOk);
        assert init[..i] == es[..i] && init[..i + 1] == es[..i + 1];
        assert FailsFirst(tree, es, i, isBase, importOk);
      }
    }
  }

  /** A file stands where the first content member of a base needs the emptied directory. */
  ghost predicate CannotEmpty(tree: Tree, es: seq<Entry>, i: nat, isBase: bool)
    requires i < |es|
  {
    isBase && es[i].ContentEntry? && !HasContent(es[..i]) && IsFileIn(tree, [])
  }

  /** What a failing content member leaves: the untouched tree if it could not be emptied, else what
      the steps before it made, with a file that was cut short in its place. */
  ghost predicate LeftByContent(o: Outcome, tree: Tree, es: seq<Entry>, i: nat, isBase: bool)
    requires i < |es| && es[i].ContentEntry?
  {
    var start := StartTree(tree, es[..i + 1], isBase);
    var before, after := Run(start, Ops(es[..i])), Run(start, Ops(es[..i + 1]));
    if CannotEmpty(tree, es, i, isBase) then o.error == Some(ClearFailed) && o.tree == tree
    else if after.None? then o.error == Some(ExtractFailed) && Some(o.tree) == before
    else
      && Some(o.tree) == after
      && o.error == Some(if es[i].step.Some? && es[i].step.value.Put? then ExtractFailed else ReadFailed)
  }

  /** The database after the members before a failing one and that one: an import that failed leaves
      it damaged, whatever was imported before. */
  ghost function DbLeft(db: Db, es: seq<Entry>, i: nat): Db
    requires i < |es|
  {
    if es[i].DumpEntry? then Damaged
    else if LastDump(es[..i]).Some? then Imported(LastDump(es[..i]).value)
    else db
  }

  /** The last of these members fails after all before it were restored. */
  ghost predicate LastFails(o: Outcome, tree: Tree, db: Db, es: seq<Entry>, isBase: bool, importOk: bool) {
    && es != [] && o.error.None?
    && IsEffect(o, tree, db, es[..|es| - 1], isBase)
    && Step(o, es[|es| - 1], isBase, importOk).error.Some?
  }

  lemma {:induction false} StepFails(o: Outcome, e: Entry, isBase: bool, importOk: bool)
    requires e.ContentEntry? && o.error.None? && Step(o, e, isBase, importOk).error.Some?
    ensures var r, after := Step(o, e, isBase, importOk), TreeAfter(o, e, isBase);
            && r.db == o.db
            && r.files == o.files + (if r.error == Some(ReadFailed) then 1 else 0)
            && if isBase && !o.cleared && IsFileIn(o.tree, []) then r.error == Some(ClearFailed) && r.tree == o.tree
               else if after.None? then
                 r.error == Some(ExtractFailed) && r.tree == (if isBase && !o.cleared then EMPTIED else o.tree)
               else
                 && r.tree == after.value
                 && r.error == Some(if e.step.Some? && e.step.value.Put? then ExtractFailed else ReadFailed)
  {
  }

  /** The tree the next content member is extracted into. */
  lemma {:induction false} TreeBefore(o: Outcome, tree: Tree, db: Db, es: seq<Entry>, isBase: bool)
    requires es != [] && es[|es| - 1].ContentEntry? && IsEffect(o, tree, db, es[..|es| - 1], isBase)
    ensures Run(StartTree(tree, es, isBase), Ops(es[..|es| - 1])) ==
            Some(if isBase && !o.cleared then EMPTIED else o.tree)
  {
    LastEntry(es);
    NoContentNoOps(es[..|es| - 1]);
  }

  lemma {:induction false} FailedContent(o: Outcome, tree: Tree, db: Db, es: seq<Entry>, isBase: bool, importOk: bool)
    requires LastFails(o, tree, db, es, isBase, importOk) && es[|es| - 1].ContentEntry?
    ensures var r := Step(o, es[|es| - 1], isBase, importOk);
            && LeftByContent(r, tree, es, |es| - 1, isBase)
            && r.files == CountContent(es[..|es| - 1]) + (if r.error == Some(ReadFailed) then 1 else 0)
            && r.db == DbLeft(db, es, |es| - 1)
  {
    var e := es[|es| - 1];
    assert es[..|es| - 1 + 1] == es;
    StepFails(o, e, isBase, importOk);
    RunThroughContent(o, tree, db, es, isBase);
    TreeBefore(o, tree, db, es, isBase);
    FirstContentTree(o, tree, db, es[..|es| - 1], isBase);
  }

  lemma {:induction false} FailedOther(o: Outcome, db: Db, es: seq<Entry>, isBase: bool, importOk: bool)
    requires es != [] && !es[|es| - 1].ContentEntry? && o.error.None?
    requires o.db == if LastDump(es[..|es| - 1]).Some? then Imported(LastDump(es[..|es| - 1]).value) else db
    requires Step(o, es[|es| - 1], isBase, importOk).error.Some?
    ensures var r := Step(o, es[|es| - 1], isBase, importOk);
            && r.error == Some(if es[|es| - 1].DumpEntry? then ImportFailed else ReadFailed)
            && r.tree == o.tree && r.files == o.files && r.db == DbLeft(db, es, |es| - 1)
  {
  }

  lemma {:induction false} FirstFails(tree: Tree, db: Db, es: seq<Entry>, i: nat, isBase: bool,
            importOk: nat -> bool)
    requires FailsFirst(tree, es, i, isBase, importOk)
    ensures var o, upTo := Consumed(tree, db, es[..i], isBase, importOk), es[..i + 1];
            && LastFails(o, tree, db, upTo, isBase, importOk(i))
            && upTo[|upTo| - 1] == es[i] && upTo[..i] == es[..i]
            && Consumed(tree, db, es, isBase, importOk) == Step(o, es[i], isBase, importOk(i))
  {
    var upTo := es[..i + 1];
    assert upTo[..i] == es[..i];
    ConsumedExact(tree, db, es[..i], isBase, importOk);
    ConsumedExact(tree, db, upTo, isBase, importOk);
    FailureStays(tree, db, es, i + 1, isBase, importOk);
  }

  lemma {:induction false} UpToIsEnough(o: Outcome, tree: Tree, db: Db, es: seq<Entry>, i: nat, isBase: bool)
    requires i < |es|
    ensures DbLeft(db, es[..i + 1], i) == DbLeft(db, es, i)
    ensures es[i].ContentEntry? ==>
              (LeftByContent(o, tree, es[..i + 1], i, isBase) <==> LeftByContent(o, tree, es, i, isBase))
  {
    var upTo := es[..i + 1];
    assert upTo[..i] == es[..i] && upTo[..i + 1] == upTo;
  }

  /** The state of the site after a restore that failed at member i, and the error it reports. */
  lemma {:induction false} FailedExact(tree: Tree, db: Db, es: seq<Entry>, i: nat, isBase: bool,
            importOk: nat -> bool)
    requires FailsFirst(tree, es, i, isBase, importOk)
    ensures var o := Consumed(tree, db, es, isBase, importOk);
            && o.db == DbLeft(db, es, i)
            && o.files == CountContent(es[..i]) + (if o.error == Some(ReadFailed) && es[i].ContentEntry? then 1 else 0)
            && (es[i].DumpEntry? ==> o.error == Some(ImportFailed))
            && (es[i].OtherEntry? ==> o.error == Some(ReadFailed))
            && (es[i].ContentEntry? ==> LeftByContent(o, tree, es, i, isBase))
            && (!es[i].ContentEntry? ==> Run(StartTree(tree, es[..i], isBase), Ops(es[..i])) == Some(o.tree))
  {
    FirstFails(tree, db, es, i, isBase, importOk);
    var before := Consumed(tree, db, es[..i], isBase, importOk);
    UpToIsEnough(Consumed(tree, db, es, isBase, importOk), tree, db, es, i, isBase);
    if es[i].ContentEntry? {
      FailedContent(before, tree, db, es[..i + 1], isBase, importOk(i));
    } else {
      FailedOther(before, db, es[..i + 1], isBase, importOk(i));
    }
  }
}
