/** The wp-content tree as the extractor changes it, and what a sequence of extractions amounts to. */
module FileTree {
  import opened PathNames

  newtype Byte = x: int | 0 <= x < 256
  type Bytes = seq<Byte>

  datatype Node = Dir | File(content: Bytes)

  /** Nodes by path relative to wp-content; [] is wp-content itself and may be missing. */
  type Tree = map<Path, Node>

  predicate IsPrefix(q: Path, p: Path) {
    |q| <= |p| && p[..|q|] == q
  }

  predicate IsProperPrefix(q: Path, p: Path) {
    |q| < |p| && p[..|q|] == q
  }

  function Parent(p: Path): Path
    requires p != []
  {
    p[..|p| - 1]
  }

  predicate IsFileIn(t: Tree, p: Path) {
    p in t && t[p].File?
  }

  function Lookup(t: Tree, p: Path): Option<Node> {
    if p in t then Some(t[p]) else None
  }

  /** The names directly below a directory. */
  function Children<N>(t: map<Path, N>, p: Path): (names: set<string>)
    ensures forall n :: n in names <==> p + [n] in t
  {
    var names := set q | q in t && |q| == |p| + 1 && q[..|p|] == p :: q[|p|];
    assert forall n :: p + [n] in t ==> (p + [n])[|p|] in names;
    assert forall q | q in t && |q| == |p| + 1 && q[..|p|] == p :: q == p + [q[|p|]];
    names
  }

  ghost predicate WellFormed(t: Tree) {
    forall p, q | p in t && IsProperPrefix(q, p) :: q in t && t[q] == Dir
  }

  lemma {:induction false} PrefixOfParent(q: Path, p: Path)
    requires p != []
    ensures IsPrefix(q, Parent(p)) <==> IsProperPrefix(q, p)
  {
    if |q| < |p| {
      assert Parent(p)[..|q|] == p[..|q|];
    }
  }

  lemma {:induction false} PrefixTransitive(a: Path, b: Path, c: Path)
    requires IsPrefix(a, b) && IsPrefix(b, c)
    ensures IsPrefix(a, c)
    ensures IsProperPrefix(a, b) || IsProperPrefix(b, c) ==> IsProperPrefix(a, c)
  {
    assert c[..|a|] == c[..|b|][..|a|];
  }

  // ---------------------------------------------------------------------------------------------
  // The two extraction steps.

  /** Create a directory and its missing ancestors; fails when something on the way is a file. */
  function MkdirAll(t: Tree, d: Path): Option<Tree>
    decreases |d|
  {
    if d in t then (if t[d].Dir? then Some(t) else None)
    else if d == [] then Some(t[d := Dir])
    else
      match MkdirAll(t, Parent(d))
      case None => None
      case Some(t1) => Some(t1[d := Dir])
  }

  /** Create or truncate a file after creating its parents; fails on a directory of that name.
      The parent of wp-content itself lies outside the tree. */
  function WriteFile(t: Tree, f: Path, content: Bytes): Option<Tree> {
    match if f == [] then Some(t) else MkdirAll(t, Parent(f))
    case None => None
    case Some(t1) => if f in t1 && t1[f].Dir? then None else Some(t1[f := File(content)])
  }

  ghost predicate FileOnTheWay(t: Tree, d: Path) {
    exists q :: q in t && IsPrefix(q, d) && t[q].File?
  }

  lemma {:induction false} MkdirAllExact(t: Tree, d: Path)
    requires WellFormed(t)
    ensures MkdirAll(t, d).Some? <==> !FileOnTheWay(t, d)
    ensures MkdirAll(t, d).Some? ==>
              var r := MkdirAll(t, d).value;
              && WellFormed(r)
              && forall p :: Lookup(r, p) == if IsPrefix(p, d) then Some(Dir) else Lookup(t, p)
    decreases |d|
  {
    if d in t {
      if t[d].Dir? {
        forall q | q in t && IsPrefix(q, d)
          ensures t[q].Dir?
        {
          assert q == d || IsProperPrefix(q, d);
        }
        forall p | IsPrefix(p, d)
          ensures p in t
        {
          assert p == d || IsProperPrefix(p, d);
        }
      } else {
        assert IsPrefix(d, d);
      }
    } else if d == [] {
      assert t == map[] by {
        forall p | p in t
          ensures false
        {
          assert IsProperPrefix([], p);
        }
      }
    } else {
      var up := Parent(d);
      MkdirAllExact(t, up);
      forall q
        ensures IsPrefix(q, d) <==> q == d || IsPrefix(q, up)
      {
        PrefixOfParent(q, d);
      }
      if FileOnTheWay(t, up) {
        var q :| q in t && IsPrefix(q, up) && t[q].File?;
        assert IsPrefix(q, d);
      }
      if MkdirAll(t, d).Some? {
        var r1, r := MkdirAll(t, up).value, MkdirAll(t, d).value;
        forall p, q | p in r && IsProperPrefix(q, p)
          ensures q in r && r[q] == Dir
        {
          if p == d {
            PrefixOfParent(q, d);
            assert Lookup(r1, q) == Some(Dir);
          } else {
            assert p in r1;
            assert q in r1 && r1[q] == Dir;
          }
        }
        forall p
          ensures Lookup(r, p) == if IsPrefix(p, d) then Some(Dir) else Lookup(t, p)
        {
          assert Lookup(r1, p) == if IsPrefix(p, up) then Some(Dir) else Lookup(t, p);
        }
      }
    }
  }

  datatype Op = MkDir(path: Path) | Put(path: Path, content: Bytes)

  function Apply(t: Tree, op: Op): Option<Tree> {
    match op
    case MkDir(d) => MkdirAll(t, d)
    case Put(f, content) => WriteFile(t, f, content)
  }

  /** The directories an extraction step needs: the directory itself or a file's ancestors. */
  predicate MakesDir(op: Op, p: Path) {
    match op
    case MkDir(d) => IsPrefix(p, d)
    case Put(f, _) => IsProperPrefix(p, f)
  }

  ghost predicate TreeClash(t: Tree, op: Op) {
    || (op.Put? && op.path in t && t[op.path].Dir?)
    || (exists p :: p in t && t[p].File? && MakesDir(op, p))
  }

  lemma {:induction false} ApplyExact(t: Tree, op: Op)
    requires WellFormed(t)
    ensures Apply(t, op).Some? <==> !TreeClash(t, op)
    ensures Apply(t, op).Some? ==>
              var r := Apply(t, op).value;
              && WellFormed(r)
              && forall p :: Lookup(r, p) == if op.Put? && p == op.path then Some(File(op.content))
                                             else if MakesDir(op, p) then Some(Dir)
                                             else Lookup(t, p)
  {
    match op
    case MkDir(d) =>
      MkdirAllExact(t, d);
    case Put(f, content) =>
      if f != [] {
        MkdirAllExact(t, Parent(f));
      }
      forall q
        ensures f != [] ==> (IsPrefix(q, Parent(f)) <==> IsProperPrefix(q, f))
      {
        if f != [] {
          PrefixOfParent(q, f);
        }
      }
      var parents := if f == [] then Some(t) else MkdirAll(t, Parent(f));
      if parents.Some? {
        assert Lookup(parents.value, f) == Lookup(t, f);
        assert TreeClash(t, op) ==> f in t && t[f].Dir?;
      } else {
        var p :| p in t && IsPrefix(p, Parent(f)) && t[p].File?;
        assert MakesDir(op, p);
      }
      if Apply(t, op).Some? {
        var r := Apply(t, op).value;
        var t1 := if f == [] then t else MkdirAll(t, Parent(f)).value;
        assert forall p :: Lookup(t1, p) == if IsProperPrefix(p, f) then Some(Dir) else Lookup(t, p);
        assert WellFormed(t1);
        forall p, q | p in r && IsProperPrefix(q, p)
          ensures q in r && r[q] == Dir
        {
          if p == f {
            assert Lookup(t1, q) == Some(Dir);
          } else {
            assert p in t1 && q in t1 && t1[q] == Dir;
            assert Lookup(t1, f) == Lookup(t, f);
          }
        }
      }
  }

  // ---------------------------------------------------------------------------------------------
  // Many steps, and the reference they are compared with.

  function Run(t: Tree, ops: seq<Op>): Option<Tree> {
    if ops == [] then Some(t)
    else
      match Run(t, ops[..|ops| - 1])
      case None => None
      case Some(t1) => Apply(t1, ops[|ops| - 1])
  }

  /** The content the last step writing p gave it. */
  function LastPut(ops: seq<Op>, p: Path): Option<Bytes> {
    if ops == [] then None
    else
      var op := ops[|ops| - 1];
      if op.Put? && op.path == p then Some(op.content) else LastPut(ops[..|ops| - 1], p)
  }

  ghost predicate SomeDir(ops: seq<Op>, p: Path) {
    exists op :: op in ops && MakesDir(op, p)
  }

  /** Newest wins, path by path: a written file has its last content, a needed directory is there,
      and everything else is what the tree had before. */
  ghost function Overlay(t: Tree, ops: seq<Op>, p: Path): Option<Node> {
    if LastPut(ops, p).Some? then Some(File(LastPut(ops, p).value))
    else if SomeDir(ops, p) then Some(Dir)
    else Lookup(t, p)
  }

  lemma {:induction false} SomeDirSplit(ops: seq<Op>, p: Path)
    requires ops != []
    ensures SomeDir(ops, p) <==> SomeDir(ops[..|ops| - 1], p) || MakesDir(ops[|ops| - 1], p)
  {
    var init, last := ops[..|ops| - 1], ops[|ops| - 1];
    assert ops == init + [last];
    if op :| op in init && MakesDir(op, p) {
      assert op in ops;
    }
    assert last in ops;
  }

  lemma {:induction false} PutNotDir(op: Op, p: Path)
    ensures !(op.Put? && op.path == p && MakesDir(op, p))
  {
  }

  /** A run that succeeds yields exactly the newest-wins overlay. */
  lemma {:induction false} RunIsOverlay(t: Tree, ops: seq<Op>)
    requires WellFormed(t) && Run(t, ops).Some?
    ensures WellFormed(Run(t, ops).value)
    ensures forall p :: Lookup(Run(t, ops).value, p) == Overlay(t, ops, p)
  {
    if ops != [] {
      var init, last := ops[..|ops| - 1], ops[|ops| - 1];
      RunIsOverlay(t, init);
      var t1 := Run(t, init).value;
      ApplyExact(t1, last);
      forall p
        ensures Lookup(Run(t, ops).value, p) == Overlay(t, ops, p)
      {
        SomeDirSplit(ops, p);
        assert Lookup(t1, p) == Overlay(t, init, p);
        assert MakesDir(last, p) ==> !(p in t1 && t1[p].File?);
      }
    }
  }

  /** Two steps that want one path to be a file and a directory. */
  predicate Clash(a: Op, b: Op) {
    || (a.Put? && MakesDir(b, a.path))
    || (b.Put? && MakesDir(a, b.path))
  }

  ghost predicate NoClash(t: Tree, ops: seq<Op>) {
    && (forall op | op in ops :: !TreeClash(t, op))
    && (forall a, b | a in ops && b in ops :: !Clash(a, b))
  }

  lemma {:induction false} LastPutIn(ops: seq<Op>, p: Path)
    ensures LastPut(ops, p).Some? ==> Put(p, LastPut(ops, p).value) in ops
    ensures LastPut(ops, p).None? ==> forall op | op in ops :: !(op.Put? && op.path == p)
  {
    if ops != [] {
      LastPutIn(ops[..|ops| - 1], p);
      assert ops == ops[..|ops| - 1] + [ops[|ops| - 1]];
    }
  }

  /** After a successful run, the next step fails exactly if it clashes with the tree as it was or
      with one of the steps already taken. */
  lemma {:induction false} ClashAfterRun(t: Tree, ops: seq<Op>, op: Op)
    requires WellFormed(t) && NoClash(t, ops) && Run(t, ops).Some?
    ensures TreeClash(Run(t, ops).value, op) <==> TreeClash(t, op) || exists a :: a in ops && Clash(a, op)
  {
    RunIsOverlay(t, ops);
    var t1 := Run(t, ops).value;
    assert forall p :: Lookup(t1, p) == Overlay(t, ops, p);
    if op.Put? {
      LastPutIn(ops, op.path);
    }
    if TreeClash(t, op) {
      if op.Put? && op.path in t && t[op.path].Dir? {
        assert forall c :: Put(op.path, c) in ops ==> !TreeClash(t, Put(op.path, c));
        assert Lookup(t1, op.path) == Some(Dir);
      } else {
        var p :| p in t && t[p].File? && MakesDir(op, p);
        if a :| a in ops && MakesDir(a, p) {
          assert TreeClash(t, a);
          assert false;
        }
        assert Lookup(t1, p) == Overlay(t, ops, p);
        assert p in t1 && t1[p].File?;
      }
    }
    if a :| a in ops && Clash(a, op) {
      if a.Put? && MakesDir(op, a.path) {
        LastPutIn(ops, a.path);
        assert Lookup(t1, a.path) == Overlay(t, ops, a.path);
      } else {
        assert SomeDir(ops, op.path);
        if LastPut(ops, op.path).Some? {
          var c := LastPut(ops, op.path).value;
          assert Clash(a, Put(op.path, c));
          assert false;
        }
        assert Lookup(t1, op.path) == Some(Dir);
      }
    }
    if TreeClash(t1, op) {
      if op.Put? && op.path in t1 && t1[op.path].Dir? {
        assert Lookup(t1, op.path) == Overlay(t, ops, op.path);
        if SomeDir(ops, op.path) {
          var a :| a in ops && MakesDir(a, op.path);
          assert Clash(a, op);
        }
      } else {
        var p :| p in t1 && t1[p].File? && MakesDir(op, p);
        assert Lookup(t1, p) == Overlay(t, ops, p);
        LastPutIn(ops, p);
        if LastPut(ops, p).Some? {
          assert Clash(Put(p, LastPut(ops, p).value), op);
        }
      }
    }
  }

  /** A run succeeds exactly when no step clashes with the initial tree or with another step:
      replacing a directory by a file, or a file by a directory, always fails. */
  lemma {:induction false} RunSucceedsIffNoClash(t: Tree, ops: seq<Op>)
    requires WellFormed(t)
    ensures Run(t, ops).Some? <==> NoClash(t, ops)
  {
    if ops != [] {
      var init, last := ops[..|ops| - 1], ops[|ops| - 1];
      assert ops == init + [last];
      RunSucceedsIffNoClash(t, init);
      if Run(t, init).Some? {
        ClashAfterRun(t, init, last);
        RunIsOverlay(t, init);
        ApplyExact(Run(t, init).value, last);
        PutNotDir(last, last.path);
        assert last in ops;
        if Run(t, ops).Some? {
          forall a, b | a in ops && b in ops
            ensures !Clash(a, b)
          {
            if a in init && b in init {
            } else if a in init {
              assert !Clash(a, last);
            } else if b in init {
              assert !Clash(b, last);
            }
          }
        }
      } else {
        assert forall op | op in init :: op in ops;
      }
    }
  }

  lemma {:induction false} RunAppend(t: Tree, a: seq<Op>, b: seq<Op>)
    ensures Run(t, a + b) == match Run(t, a) case None => None case Some(t1) => Run(t1, b)
    decreases |b|
  {
    if b == [] {
      assert a + b == a;
    } else {
      assert (a + b)[..|a + b| - 1] == a + b[..|b| - 1];
      RunAppend(t, a, b[..|b| - 1]);
    }
  }
}
