/** Backing up wp-content: the pruned walk over a source tree that may change while it is read. */
module Walk {
  import opened Text
  import opened PathNames
  import opened FileTree
  import opened Restore

  type Time = int

  /** The time stamp that stands for "no cursor": a full backup. */
  const ZERO: Time := 0

  datatype Source = SDir | SFile(content: Bytes, mtime: Time) | SOther

  type SourceTree = map<Path, Source>

  /** The source as a function of time, with the exclude rule and a bound on path length. */
  datatype World = World(at: Time -> SourceTree, excluded: Path -> bool, depth: nat)

  /** The rule the connector's exclude list stands for. */
  function ExcludeRule(exclude: seq<string>): Path -> bool {
    (p: Path) => IsExcluded(exclude, Join(p))
  }

  /** When one walk lists, stats and reads each path, a file byte by byte, and whether its context is
      still alive then. Every interleaving of source writes with a walk is such a choice of instants. */
  datatype Visits =
    Visits(listAt: Path -> Time, statAt: Path -> Time, readAt: (Path, nat) -> Time, alive: Path -> bool)

  ghost predicate IsFileSystem(t: SourceTree, depth: nat) {
    && (forall p, q | p in t && IsProperPrefix(q, p) :: q in t && t[q] == SDir)
    && (forall p | p in t :: |p| <= depth && forall c | c in p :: Ordinary(c))
  }

  ghost predicate SoundAt(w: World, t: Time) {
    IsFileSystem(w.at(t), w.depth)
  }

  ghost predicate ValidWorld(w: World) {
    forall t :: SoundAt(w, t)
  }

  /** What the walk hands to the archive writer; a file that shrank between stat and read is cut short. */
  datatype Item = DirItem(path: Path) | FileItem(path: Path, content: Bytes, complete: bool)

  function MemberOf(item: Item): Member {
    match item
    case DirItem(p) => Member(FILES_PREFIX + Join(p) + "/", true, [], true)
    case FileItem(p, content, complete) => Member(FILES_PREFIX + Join(p), false, content, complete)
  }

  predicate Skipped(w: World, p: Path) {
    p != [] && w.excluded(p)
  }

  predicate Fresh(mtime: Time, since: Time) {
    since == ZERO || mtime > since
  }

  /** Reading a file from byte i on, each byte as the file is at that instant, until it ends; more
      bytes than were announced are an error. */
  function ReadRest(w: World, v: Visits, q: Path, size: nat, i: nat): (r: Option<Bytes>)
    requires i <= size
    ensures r.Some? ==> i + |r.value| <= size
    decreases size - i
  {
    var t := w.at(v.readAt(q, i));
    if !(q in t && t[q].SFile?) then None
    else if |t[q].content| <= i then Some([])
    else if i == size then None
    else
      match ReadRest(w, v, q, size, i + 1)
      case None => None
      case Some(rest) => Some([t[q].content[i]] + rest)
  }

  function ReadFile(w: World, v: Visits, q: Path, size: nat): Option<Bytes> {
    ReadRest(w, v, q, size, 0)
  }

  function VisitFile(w: World, v: Visits, since: Time, q: Path, size: nat, mtime: Time): Option<seq<Item>> {
    if !v.alive(q) then None
    else if !Fresh(mtime, since) then Some([])
    else
      match ReadFile(w, v, q, size)
      case None => None
      case Some(content) => Some([FileItem(q, content, |content| == size)])
  }

  function WalkNode(w: World, v: Visits, since: Time, q: Path): Option<seq<Item>>
    requires ValidWorld(w) && q != [] && |q| <= w.depth
    decreases w.depth - |q|, 2
  {
    var t := w.at(v.statAt(q));
    if q !in t then None
    else
      match t[q]
      case SDir => WalkDir(w, v, since, q)
      case SFile(content, mtime) => VisitFile(w, v, since, q, |content|, mtime)
      case SOther => if v.alive(q) then Some([]) else None
  }

  function WalkDir(w: World, v: Visits, since: Time, p: Path): Option<seq<Item>>
    requires ValidWorld(w) && |p| <= w.depth
    decreases w.depth - |p|, 1
  {
    var t := w.at(v.listAt(p));
    if !(p in t && t[p].SDir?) || !v.alive(p) then None
    else if Skipped(w, p) then Some([])
    else
      assert SoundAt(w, v.listAt(p));
      assert forall n | n in Children(t, p) :: |p + [n]| <= w.depth;
      match WalkChildren(w, v, since, p, Sorted(Children(t, p)))
      case None => None
      case Some(items) => Some((if p != [] && since == ZERO then [DirItem(p)] else []) + items)
  }

  function WalkChildren(w: World, v: Visits, since: Time, p: Path, names: seq<string>): Option<seq<Item>>
    requires ValidWorld(w) && (names != [] ==> |p| < w.depth)
    decreases w.depth - |p|, 0, |names|
  {
    if names == [] then Some([])
    else
      match WalkNode(w, v, since, p + [names[0]])
      case None => None
      case Some(first) =>
        match WalkChildren(w, v, since, p, names[1..])
        case None => None
        case Some(rest) => Some(first + rest)
  }

  /** The whole walk: a root that is no directory yields nothing, a missing one is an error. */
  function WalkAll(w: World, v: Visits, since: Time): Option<seq<Item>>
    requires ValidWorld(w)
  {
    var t := w.at(v.statAt([]));
    if [] !in t then None
    else if t[[]].SDir? then WalkDir(w, v, since, [])
    else if v.alive([]) then Some([])
    else None
  }

  // ---------------------------------------------------------------------------------------------
  // The same backup described path by path.

  ghost predicate IsDirAt(w: World, t: Time, p: Path) {
    p in w.at(t) && w.at(t)[p].SDir?
  }

  ghost predicate IsFileAt(w: World, t: Time, p: Path) {
    p in w.at(t) && w.at(t)[p].SFile?
  }

  /** The walk enters a directory: it is one at both visits and is not excluded. */
  ghost predicate Open(w: World, v: Visits, a: Path) {
    IsDirAt(w, v.statAt(a), a) && IsDirAt(w, v.listAt(a), a) && !Skipped(w, a)
  }

  ghost predicate Gate(w: World, v: Visits, q: Path, k: nat)
    requires k < |q|
  {
    Open(w, v, q[..k]) && q[..k + 1] in w.at(v.listAt(q[..k]))
  }

  ghost predicate ReachedFrom(w: World, v: Visits, p: Path, q: Path) {
    IsPrefix(p, q) && forall k | |p| <= k < |q| :: Gate(w, v, q, k)
  }

  /** Every ancestor is entered and lists the next component. */
  ghost predicate Reached(w: World, v: Visits, q: Path) {
    ReachedFrom(w, v, [], q)
  }

  /** A visited regular file that the walk picks up. */
  ghost predicate PicksUp(w: World, v: Visits, since: Time, q: Path) {
    q != [] && IsFileAt(w, v.statAt(q), q) && (since == ZERO || w.at(v.statAt(q))[q].mtime > since)
  }

  /** What a visited file was read as. */
  ghost function ReadOf(w: World, v: Visits, q: Path): (r: Option<Bytes>)
    ensures r.Some? ==> IsFileAt(w, v.statAt(q), q) && |r.value| <= |w.at(v.statAt(q))[q].content|
  {
    if IsFileAt(w, v.statAt(q), q) then ReadFile(w, v, q, |w.at(v.statAt(q))[q].content|) else None
  }

  /** Each byte of it is the byte the file had there at the instant it was read. */
  lemma {:induction false} ReadByByte(w: World, v: Visits, q: Path, size: nat, i: nat, k: nat)
    requires i <= size && ReadRest(w, v, q, size, i).Some? && k < |ReadRest(w, v, q, size, i).value|
    ensures IsFileAt(w, v.readAt(q, i + k), q)
    ensures i + k < |w.at(v.readAt(q, i + k))[q].content|
    ensures ReadRest(w, v, q, size, i).value[k] == w.at(v.readAt(q, i + k))[q].content[i + k]
    decreases size - i
  {
    if k > 0 {
      ReadByByte(w, v, q, size, i + 1, k - 1);
    }
  }

  /** The file has a byte i at the instant byte i is read. */
  ghost predicate HasByte(w: World, v: Visits, q: Path, i: nat) {
    IsFileAt(w, v.readAt(q, i), q) && i < |w.at(v.readAt(q, i))[q].content|
  }

  /** The file ends at or before byte i at the instant byte i would be read. */
  ghost predicate HasEnded(w: World, v: Visits, q: Path, i: nat) {
    IsFileAt(w, v.readAt(q, i), q) && |w.at(v.readAt(q, i))[q].content| <= i
  }

  ghost predicate HasBytes(w: World, v: Visits, q: Path, from: nat, to: nat) {
    forall k | from <= k < to :: HasByte(w, v, q, k)
  }

  /** Reading meets the end of the file after some bytes, no more of them than announced. */
  ghost predicate Readable(w: World, v: Visits, q: Path, size: nat) {
    exists n | 0 <= n <= size :: HasBytes(w, v, q, 0, n) && HasEnded(w, v, q, n)
  }

  /** A read that succeeds has met the end of the file. */
  lemma {:induction false} ReadEnds(w: World, v: Visits, q: Path, size: nat, i: nat)
    requires i <= size
    ensures var r := ReadRest(w, v, q, size, i);
            r.Some? ==> HasBytes(w, v, q, i, i + |r.value|) && HasEnded(w, v, q, i + |r.value|)
    decreases size - i
  {
    if HasByte(w, v, q, i) && i < size {
      ReadEnds(w, v, q, size, i + 1);
    }
  }

  lemma {:induction false} ReadSucceeds(w: World, v: Visits, q: Path, size: nat, i: nat, n: nat)
    requires i <= n <= size && HasBytes(w, v, q, i, n) && HasEnded(w, v, q, n)
    ensures ReadRest(w, v, q, size, i).Some?
    decreases n - i
  {
    if i < n {
      assert HasByte(w, v, q, i);
      ReadSucceeds(w, v, q, size, i + 1, n);
    }
  }

  /** When a file can be copied, exactly; a file that has grown past its announced size cannot. */
  lemma {:induction false} ReadableIff(w: World, v: Visits, q: Path, size: nat)
    ensures ReadFile(w, v, q, size).Some? <==> Readable(w, v, q, size)
    ensures ReadFile(w, v, q, size).Some? ==> HasEnded(w, v, q, |ReadFile(w, v, q, size).value|)
  {
    ReadEnds(w, v, q, size, 0);
    if ReadFile(w, v, q, size).Some? {
      assert HasBytes(w, v, q, 0, 0 + |ReadFile(w, v, q, size).value|);
    }
    if Readable(w, v, q, size) {
      var n :| 0 <= n <= size && HasBytes(w, v, q, 0, n) && HasEnded(w, v, q, n);
      ReadSucceeds(w, v, q, size, 0, n);
    }
  }

  /** Copying fails at the first byte that is not read: the path is no file any more, or all announced
      bytes are there and the file goes on. */
  ghost predicate FailsAt(w: World, v: Visits, q: Path, size: nat, k: nat) {
    && k <= size && HasBytes(w, v, q, 0, k)
    && (!IsFileAt(w, v.readAt(q, k), q) || (k == size && |w.at(v.readAt(q, k))[q].content| > size))
  }

  lemma {:induction false} FindFailure(w: World, v: Visits, q: Path, size: nat, i: nat) returns (k: nat)
    requires i <= size && HasBytes(w, v, q, 0, i) && ReadRest(w, v, q, size, i).None?
    ensures FailsAt(w, v, q, size, k)
    decreases size - i
  {
    k := i;
    if i < size && HasByte(w, v, q, i) {
      k := FindFailure(w, v, q, size, i + 1);
    }
  }

  lemma {:induction false} ReadFailsIff(w: World, v: Visits, q: Path, size: nat)
    ensures ReadFile(w, v, q, size).None? <==> exists k: nat :: FailsAt(w, v, q, size, k)
  {
    if ReadFile(w, v, q, size).None? {
      var k := FindFailure(w, v, q, size, 0);
    } else {
      ReadEnds(w, v, q, size, 0);
      var n := |ReadFile(w, v, q, size).value|;
      assert HasBytes(w, v, q, 0, 0 + n) && HasEnded(w, v, q, 0 + n);
      forall k: nat | k <= size && HasBytes(w, v, q, 0, k)
        ensures !FailsAt(w, v, q, size, k)
      {
        assert k > n ==> HasByte(w, v, q, n);
        assert k < n ==> HasByte(w, v, q, k);
      }
    }
  }

  /** A file nobody writes to is read as it is. */
  lemma {:induction false} StableRead(w: World, v: Visits, q: Path, size: nat, content: Bytes, i: nat)
    requires i <= |content| <= size
    requires forall j :: IsFileAt(w, v.readAt(q, j), q) && w.at(v.readAt(q, j))[q].content == content
    ensures ReadRest(w, v, q, size, i) == Some(content[i..])
    decreases |content| - i
  {
    assert IsFileAt(w, v.readAt(q, i), q);
    if i < |content| {
      StableRead(w, v, q, size, content, i + 1);
      assert content[i..] == [content[i]] + content[i + 1..];
    } else {
      assert content[i..] == [];
    }
  }

  ghost predicate Carries(w: World, v: Visits, since: Time, item: Item) {
    match item
    case DirItem(q) => q != [] && since == ZERO && Open(w, v, q)
    case FileItem(q, content, complete) =>
      && PicksUp(w, v, since, q)
      && ReadOf(w, v, q) == Some(content)
      && complete == (|content| == |w.at(v.statAt(q))[q].content|)
  }

  lemma {:induction false} GateOfChild(w: World, v: Visits, p: Path, n: string, q: Path)
    requires ReachedFrom(w, v, p + [n], q) && Open(w, v, p) && p + [n] in w.at(v.listAt(p))
    ensures ReachedFrom(w, v, p, q)
  {
    PrefixTransitive(p, p + [n], q);
    forall k | |p| <= k < |q|
      ensures Gate(w, v, q, k)
    {
      if k == |p| {
        assert q[..k] == p && q[..k + 1] == p + [n];
      }
    }
  }

  lemma {:induction false} SoundNode(w: World, v: Visits, since: Time, q: Path, item: Item)
    requires ValidWorld(w) && q != [] && |q| <= w.depth
    requires WalkNode(w, v, since, q).Some? && item in WalkNode(w, v, since, q).value
    ensures ReachedFrom(w, v, q, item.path) && Carries(w, v, since, item)
    decreases w.depth - |q|, 2
  {
    if IsDirAt(w, v.statAt(q), q) {
      SoundDir(w, v, since, q, item);
    }
  }

  lemma {:induction false} SoundDir(w: World, v: Visits, since: Time, p: Path, item: Item)
    requires ValidWorld(w) && |p| <= w.depth && IsDirAt(w, v.statAt(p), p)
    requires WalkDir(w, v, since, p).Some? && item in WalkDir(w, v, since, p).value
    ensures ReachedFrom(w, v, p, item.path) && Carries(w, v, since, item)
    decreases w.depth - |p|, 1
  {
    var t := w.at(v.listAt(p));
    assert SoundAt(w, v.listAt(p));
    assert forall n | n in Children(t, p) :: |p + [n]| <= w.depth;
    var names := Sorted(Children(t, p));
    if item in WalkChildren(w, v, since, p, names).value {
      SoundChildren(w, v, since, p, names, item);
    }
  }

  lemma {:induction false} SoundChildren(w: World, v: Visits, since: Time, p: Path, names: seq<string>, item: Item)
    requires ValidWorld(w) && (names != [] ==> |p| < w.depth)
    requires Open(w, v, p) && forall n | n in names :: p + [n] in w.at(v.listAt(p))
    requires WalkChildren(w, v, since, p, names).Some? && item in WalkChildren(w, v, since, p, names).value
    ensures ReachedFrom(w, v, p, item.path) && Carries(w, v, since, item)
    decreases w.depth - |p|, 0, |names|
  {
    var q := p + [names[0]];
    if item in WalkNode(w, v, since, q).value {
      SoundNode(w, v, since, q, item);
      GateOfChild(w, v, p, names[0], item.path);
    } else {
      SoundChildren(w, v, since, p, names[1..], item);
    }
  }

  /** What a successful visit to q guarantees about the archive. */
  ghost predicate Recorded(w: World, v: Visits, since: Time, q: Path, items: seq<Item>) {
    && q in w.at(v.statAt(q))
    && (PicksUp(w, v, since, q) ==>
      && ReadOf(w, v, q).Some?
      && var size, content := |w.at(v.statAt(q))[q].content|, ReadOf(w, v, q).value;
         FileItem(q, content, |content| == size) in items)
    && (q != [] && since == ZERO && Open(w, v, q) ==> DirItem(q) in items)
  }

  lemma {:induction false} CompleteNode(w: World, v: Visits, since: Time, p: Path, q: Path)
    requires ValidWorld(w) && p != [] && |p| <= w.depth
    requires WalkNode(w, v, since, p).Some? && ReachedFrom(w, v, p, q)
    ensures Recorded(w, v, since, q, WalkNode(w, v, since, p).value)
    decreases w.depth - |p|, 2
  {
    if q == p && !IsDirAt(w, v.statAt(p), p) {
    } else {
      if q != p {
        assert Gate(w, v, q, |p|) && q[..|p|] == p;
      }
      CompleteDir(w, v, since, p, q);
    }
  }

  lemma {:induction false} RecordedInMore(w: World, v: Visits, since: Time, q: Path, items: seq<Item>, more: seq<Item>)
    requires Recorded(w, v, since, q, items) && forall item: Item | item in items :: item in more
    ensures Recorded(w, v, since, q, more)
  {
  }

  lemma {:induction false} CompleteDir(w: World, v: Visits, since: Time, p: Path, q: Path)
    requires ValidWorld(w) && |p| <= w.depth && IsDirAt(w, v.statAt(p), p)
    requires WalkDir(w, v, since, p).Some? && ReachedFrom(w, v, p, q)
    ensures Recorded(w, v, since, q, WalkDir(w, v, since, p).value)
    decreases w.depth - |p|, 1
  {
    if q != p {
      assert Gate(w, v, q, |p|) && q[..|p|] == p;
      assert q[..|p| + 1] == p + [q[|p|]];
      var t := w.at(v.listAt(p));
      assert SoundAt(w, v.listAt(p));
      var names := Sorted(Children(t, p));
      assert q[|p|] in names && |p + [q[|p|]]| <= w.depth;
      CompleteChildren(w, v, since, p, names, q);
      RecordedInMore(w, v, since, q, WalkChildren(w, v, since, p, names).value, WalkDir(w, v, since, p).value);
    }
  }

  lemma {:induction false} CompleteChildren(w: World, v: Visits, since: Time, p: Path, names: seq<string>, q: Path)
    requires ValidWorld(w) && (names != [] ==> |p| < w.depth)
    requires WalkChildren(w, v, since, p, names).Some?
    requires ReachedFrom(w, v, p, q) && |p| < |q| && q[|p|] in names
    ensures Recorded(w, v, since, q, WalkChildren(w, v, since, p, names).value)
    decreases w.depth - |p|, 0, |names|
  {
    if q[|p|] == names[0] {
      assert q[..|p| + 1] == p + [names[0]];
      assert ReachedFrom(w, v, p + [names[0]], q);
      CompleteNode(w, v, since, p + [names[0]], q);
    } else {
      CompleteChildren(w, v, since, p, names[1..], q);
    }
  }

  /** The walk equals its path-by-path description: an item is in the archive exactly if its path
      was reached and the visit carries it, whatever was written to the source meanwhile. */
  lemma {:induction false} WalkExact(w: World, v: Visits, since: Time)
    requires ValidWorld(w) && WalkAll(w, v, since).Some?
    ensures forall item: Item :: item in WalkAll(w, v, since).value <==>
              Reached(w, v, item.path) && Carries(w, v, since, item)
    ensures forall q | Reached(w, v, q) :: Recorded(w, v, since, q, WalkAll(w, v, since).value)
  {
    var items := WalkAll(w, v, since).value;
    var rootIsDir := IsDirAt(w, v.statAt([]), []);
    assert SoundAt(w, v.statAt([]));
    forall item | item in items
      ensures Reached(w, v, item.path) && Carries(w, v, since, item)
    {
      SoundDir(w, v, since, [], item);
    }
    forall q | Reached(w, v, q)
      ensures Recorded(w, v, since, q, items)
    {
      if q != [] {
        assert Gate(w, v, q, 0) && q[..0] == [];
      }
      if rootIsDir {
        CompleteDir(w, v, since, [], q);
      }
    }
    forall item: Item | Reached(w, v, item.path) && Carries(w, v, since, item)
      ensures item in items
    {
      assert Recorded(w, v, since, item.path, items);
    }
  }

  // ---------------------------------------------------------------------------------------------
  // The order of the archive.

  /** The paths agree on k components; there the first ends, or has the smaller one. */
  ghost predicate PrecedesAt(p: Path, q: Path, k: nat) {
    && k <= |p| && k < |q| && p[..k] == q[..k]
    && (k == |p| || (Leq(p[k], q[k]) && p[k] != q[k]))
  }

  /** A directory before what it holds, and everything below one name before anything below a later. */
  ghost predicate Precedes(p: Path, q: Path) {
    exists k: nat :: PrecedesAt(p, q, k)
  }

  ghost predicate InOrder(items: seq<Item>) {
    forall i, j | 0 <= i < j < |items| :: Precedes(items[i].path, items[j].path)
  }

  ghost predicate AllPrecede(a: seq<Item>, b: seq<Item>) {
    forall i, j | 0 <= i < |a| && 0 <= j < |b| :: Precedes(a[i].path, b[j].path)
  }

  /** Every item is below one of the children of p. */
  ghost predicate BelowChildren(items: seq<Item>, p: Path, names: seq<string>) {
    forall i | 0 <= i < |items| ::
      |p| < |items[i].path| && items[i].path[..|p|] == p && items[i].path[|p|] in names
  }

  lemma {:induction false} OrderAppend(a: seq<Item>, b: seq<Item>)
    requires InOrder(a) && InOrder(b) && AllPrecede(a, b)
    ensures InOrder(a + b)
  {
    forall i, j | 0 <= i < j < |a + b|
      ensures Precedes((a + b)[i].path, (a + b)[j].path)
    {
      if i < |a| <= j {
        assert Precedes(a[i].path, b[j - |a|].path);
      } else if |a| <= i {
        assert Precedes(b[i - |a|].path, b[j - |a|].path);
      }
    }
  }

  lemma {:induction false} EarlierNameFirst(a: seq<Item>, b: seq<Item>, p: Path, names: seq<string>)
    requires names != [] && Increasing(names)
    requires BelowChildren(a, p, names[..1]) && BelowChildren(b, p, names[1..])
    ensures AllPrecede(a, b)
  {
    forall i, j | 0 <= i < |a| && 0 <= j < |b|
      ensures Precedes(a[i].path, b[j].path)
    {
      assert a[i].path[|p|] in names[..1] && b[j].path[|p|] in names[1..];
      var m :| 0 <= m < |names| - 1 && names[1..][m] == b[j].path[|p|];
      assert names[0] == a[i].path[|p|] && names[m + 1] == b[j].path[|p|];
      assert PrecedesAt(a[i].path, b[j].path, |p|);
    }
  }

  lemma {:induction false} DirectoryFirst(p: Path, items: seq<Item>, names: seq<string>)
    requires BelowChildren(items, p, names)
    ensures AllPrecede([DirItem(p)], items)
  {
    forall j | 0 <= j < |items|
      ensures Precedes(p, items[j].path)
    {
      assert p[..|p|] == p;
      assert PrecedesAt(p, items[j].path, |p|);
    }
  }

  lemma {:induction false} BelowChild(p: Path, n: string, q: Path)
    requires IsPrefix(p + [n], q)
    ensures |p| < |q| && q[..|p|] == p && q[|p|] == n
  {
    assert q[|p|] == (p + [n])[|p|] && q[..|p|] == (p + [n])[..|p|];
  }

  lemma {:induction false} BelowNode(w: World, v: Visits, since: Time, p: Path, n: string)
    requires ValidWorld(w) && |p| < w.depth && WalkNode(w, v, since, p + [n]).Some?
    ensures BelowChildren(WalkNode(w, v, since, p + [n]).value, p, [n])
  {
    var items := WalkNode(w, v, since, p + [n]).value;
    forall i | 0 <= i < |items|
      ensures |p| < |items[i].path| && items[i].path[..|p|] == p && items[i].path[|p|] in [n]
    {
      assert items[i] in items;
      SoundNode(w, v, since, p + [n], items[i]);
      BelowChild(p, n, items[i].path);
    }
  }

  lemma {:induction false} OrderInNode(w: World, v: Visits, since: Time, q: Path)
    requires ValidWorld(w) && q != [] && |q| <= w.depth && WalkNode(w, v, since, q).Some?
    ensures InOrder(WalkNode(w, v, since, q).value)
    decreases w.depth - |q|, 2
  {
    if IsDirAt(w, v.statAt(q), q) {
      OrderInDir(w, v, since, q);
    }
  }

  lemma {:induction false} OrderInDir(w: World, v: Visits, since: Time, p: Path)
    requires ValidWorld(w) && |p| <= w.depth && WalkDir(w, v, since, p).Some?
    ensures InOrder(WalkDir(w, v, since, p).value)
    decreases w.depth - |p|, 1
  {
    if !Skipped(w, p) {
      var t := w.at(v.listAt(p));
      assert SoundAt(w, v.listAt(p));
      assert forall n | n in Children(t, p) :: |p + [n]| <= w.depth;
      var names := Sorted(Children(t, p));
      OrderInChildren(w, v, since, p, names);
      var items := WalkChildren(w, v, since, p, names).value;
      DirectoryFirst(p, items, names);
      OrderAppend([DirItem(p)], items);
      assert [] + items == items;
    }
  }

  lemma {:induction false} OrderInChildren(w: World, v: Visits, since: Time, p: Path, names: seq<string>)
    requires ValidWorld(w) && (names != [] ==> |p| < w.depth) && Increasing(names)
    requires WalkChildren(w, v, since, p, names).Some?
    ensures InOrder(WalkChildren(w, v, since, p, names).value)
    ensures BelowChildren(WalkChildren(w, v, since, p, names).value, p, names)
    decreases w.depth - |p|, 0, |names|
  {
    if names != [] {
      var first := WalkNode(w, v, since, p + [names[0]]).value;
      var rest := WalkChildren(w, v, since, p, names[1..]).value;
      OrderInNode(w, v, since, p + [names[0]]);
      OrderInChildren(w, v, since, p, names[1..]);
      BelowNode(w, v, since, p, names[0]);
      assert names[..1] == [names[0]];
      EarlierNameFirst(first, rest, p, names);
      OrderAppend(first, rest);
    }
  }

  /** Whatever is written to the source meanwhile, the archive holds every path at most once and in
      order: by names, component by component, a directory before what is below it. */
  lemma {:induction false} WalkOrder(w: World, v: Visits, since: Time)
    requires ValidWorld(w) && WalkAll(w, v, since).Some?
    ensures var items := WalkAll(w, v, since).value;
            && (forall i, j | 0 <= i < j < |items| :: Precedes(items[i].path, items[j].path))
            && (forall i, j | 0 <= i < j < |items| :: items[i].path != items[j].path)
  {
    assert SoundAt(w, v.statAt([]));
    if IsDirAt(w, v.statAt([]), []) {
      OrderInDir(w, v, since, []);
    }
    var items := WalkAll(w, v, since).value;
    forall i, j | 0 <= i < j < |items|
      ensures items[i].path != items[j].path
    {
      assert Precedes(items[i].path, items[j].path);
    }
  }

  // ---------------------------------------------------------------------------------------------
  // When a walk of a changing source gets through.

  /** The visit to one path goes well: it is still there and the context alive, a directory can be
      listed, and a file that is picked up stays a file until its end is met, which happens no later than
      at the size it was announced with: it has not grown. */
  ghost predicate GoesWell(w: World, v: Visits, since: Time, q: Path) {
    && q in w.at(v.statAt(q)) && v.alive(q)
    && (IsDirAt(w, v.statAt(q), q) ==> IsDirAt(w, v.listAt(q), q))
    && (PicksUp(w, v, since, q) ==> Readable(w, v, q, |w.at(v.statAt(q))[q].content|))
  }

  ghost predicate AllGoWell(w: World, v: Visits, since: Time, p: Path) {
    forall q | ReachedFrom(w, v, p, q) :: GoesWell(w, v, since, q)
  }

  ghost predicate ChildrenGoWell(w: World, v: Visits, since: Time, p: Path, names: seq<string>) {
    forall i | 0 <= i < |names| :: AllGoWell(w, v, since, p + [names[i]])
  }

  /** What is reached from a path is the path and, if it is entered, what its listed children reach. */
  lemma {:induction false} ReachedBelow(w: World, v: Visits, p: Path, q: Path)
    ensures ReachedFrom(w, v, p, q) <==>
            q == p || (|p| < |q| && Open(w, v, p) && q[..|p|] == p && p + [q[|p|]] in w.at(v.listAt(p)) &&
                       ReachedFrom(w, v, p + [q[|p|]], q))
  {
    if |p| < |q| && q[..|p|] == p {
      var child := p + [q[|p|]];
      assert q[..|p| + 1] == child;
      if ReachedFrom(w, v, p, q) {
        assert Gate(w, v, q, |p|);
      }
      if Open(w, v, p) && child in w.at(v.listAt(p)) && ReachedFrom(w, v, child, q) {
        GateOfChild(w, v, p, q[|p|], q);
      }
    } else if |p| == |q| && IsPrefix(p, q) {
      assert q[..|q|] == q;
    }
  }

  lemma {:induction false} NodeGoesIff(w: World, v: Visits, since: Time, q: Path)
    requires ValidWorld(w) && q != [] && |q| <= w.depth
    ensures WalkNode(w, v, since, q).Some? <==> AllGoWell(w, v, since, q)
    decreases w.depth - |q|, 2
  {
    if IsDirAt(w, v.statAt(q), q) {
      DirGoesIff(w, v, since, q);
    } else {
      forall r
        ensures ReachedFrom(w, v, q, r) <==> r == q
      {
        ReachedBelow(w, v, q, r);
      }
      assert ReachedFrom(w, v, q, q);
      assert AllGoWell(w, v, since, q) <==> GoesWell(w, v, since, q);
      if IsFileAt(w, v.statAt(q), q) {
        ReadableIff(w, v, q, |w.at(v.statAt(q))[q].content|);
      }
    }
  }

  lemma {:induction false} DirGoesIff(w: World, v: Visits, since: Time, p: Path)
    requires ValidWorld(w) && |p| <= w.depth && IsDirAt(w, v.statAt(p), p)
    ensures WalkDir(w, v, since, p).Some? <==> AllGoWell(w, v, since, p)
    decreases w.depth - |p|, 1
  {
    ReachedBelow(w, v, p, p);
    if GoesWell(w, v, since, p) {
      if Skipped(w, p) {
        forall r | ReachedFrom(w, v, p, r)
          ensures r == p
        {
          ReachedBelow(w, v, p, r);
        }
      } else {
        var t := w.at(v.listAt(p));
        assert SoundAt(w, v.listAt(p));
        var names := Sorted(Children(t, p));
        assert forall n | n in names :: |p + [n]| <= w.depth;
        ChildrenGoIff(w, v, since, p, names);
        EnteredGoesIff(w, v, since, p, names);
      }
    }
  }

  lemma {:induction false} EnteredGoesIff(w: World, v: Visits, since: Time, p: Path, names: seq<string>)
    requires GoesWell(w, v, since, p) && Open(w, v, p)
    requires forall n :: n in names <==> p + [n] in w.at(v.listAt(p))
    ensures AllGoWell(w, v, since, p) <==> ChildrenGoWell(w, v, since, p, names)
  {
    if AllGoWell(w, v, since, p) {
      forall i, q | 0 <= i < |names| && ReachedFrom(w, v, p + [names[i]], q)
        ensures GoesWell(w, v, since, q)
      {
        assert names[i] in names;
        GateOfChild(w, v, p, names[i], q);
      }
    }
    if ChildrenGoWell(w, v, since, p, names) {
      forall q | ReachedFrom(w, v, p, q)
        ensures GoesWell(w, v, since, q)
      {
        ReachedBelow(w, v, p, q);
        if q != p {
          var i :| 0 <= i < |names| && names[i] == q[|p|];
          assert AllGoWell(w, v, since, p + [names[i]]);
        }
      }
    }
  }

  lemma {:induction false} ChildrenGoIff(w: World, v: Visits, since: Time, p: Path, names: seq<string>)
    requires ValidWorld(w) && (names != [] ==> |p| < w.depth)
    ensures WalkChildren(w, v, since, p, names).Some? <==> ChildrenGoWell(w, v, since, p, names)
    decreases w.depth - |p|, 0, |names|
  {
    if names != [] {
      NodeGoesIff(w, v, since, p + [names[0]]);
      ChildrenGoIff(w, v, since, p, names[1..]);
      assert forall i | 0 < i < |names| :: names[i] == names[1..][i - 1];
      assert ChildrenGoWell(w, v, since, p, names) <==>
             AllGoWell(w, v, since, p + [names[0]]) && ChildrenGoWell(w, v, since, p, names[1..]);
    }
  }

  /** A walk gets through exactly if every visit it reaches goes well, whatever is written meanwhile. */
  lemma {:induction false} WalkSucceedsIff(w: World, v: Visits, since: Time)
    requires ValidWorld(w)
    ensures WalkAll(w, v, since).Some? <==> forall q | Reached(w, v, q) :: GoesWell(w, v, since, q)
  {
    assert SoundAt(w, v.statAt([]));
    if IsDirAt(w, v.statAt([]), []) {
      DirGoesIff(w, v, since, []);
    } else {
      forall r
        ensures ReachedFrom(w, v, [], r) <==> r == []
      {
        ReachedBelow(w, v, [], r);
      }
      assert ReachedFrom(w, v, [], []);
      assert AllGoWell(w, v, since, []) <==> GoesWell(w, v, since, []);
    }
    assert AllGoWell(w, v, since, []) <==> forall q | Reached(w, v, q) :: GoesWell(w, v, since, q);
  }

  // ---------------------------------------------------------------------------------------------
  // A source nobody writes to: the pruned walk is a filter.

  ghost predicate Quiet(w: World, v: Visits, t: SourceTree) {
    && (forall p :: w.at(v.listAt(p)) == t && w.at(v.statAt(p)) == t && v.alive(p))
    && forall p, i :: w.at(v.readAt(p, i)) == t
  }

  /** No proper ancestor is excluded. */
  ghost predicate Included(w: World, t: SourceTree, q: Path) {
    q in t && forall k | 0 <= k < |q| :: !Skipped(w, q[..k])
  }

  lemma {:induction false} QuietRead(w: World, v: Visits, t: SourceTree, q: Path)
    requires Quiet(w, v, t) && q in t && t[q].SFile?
    ensures ReadOf(w, v, q) == Some(t[q].content)
  {
    StableRead(w, v, q, |t[q].content|, t[q].content, 0);
    assert t[q].content[0..] == t[q].content;
  }

  lemma {:induction false} QuietReached(w: World, v: Visits, t: SourceTree, q: Path)
    requires ValidWorld(w) && Quiet(w, v, t) && q in t
    ensures Reached(w, v, q) <==> Included(w, t, q)
  {
    assert SoundAt(w, v.listAt([]));
    if Included(w, t, q) {
      forall k | 0 <= k < |q|
        ensures Gate(w, v, q, k)
      {
        assert IsProperPrefix(q[..k], q);
        if k + 1 < |q| {
          assert IsProperPrefix(q[..k + 1], q);
        } else {
          assert q[..k + 1] == q;
        }
      }
    }
    if Reached(w, v, q) {
      forall k | 0 <= k < |q|
        ensures !Skipped(w, q[..k])
      {
        assert Gate(w, v, q, k);
      }
    }
  }

  lemma {:induction false} QuietNode(w: World, v: Visits, since: Time, t: SourceTree, q: Path)
    requires ValidWorld(w) && Quiet(w, v, t) && q in t && |q| <= w.depth
    ensures q != [] ==> WalkNode(w, v, since, q).Some?
    ensures t[q].SDir? ==> WalkDir(w, v, since, q).Some?
    decreases w.depth - |q|, 1
  {
    if t[q].SDir? {
      assert SoundAt(w, v.listAt(q));
      assert forall n | n in Children(t, q) :: |q + [n]| <= w.depth;
      QuietChildren(w, v, since, t, q, Sorted(Children(t, q)));
    } else if t[q].SFile? {
      QuietRead(w, v, t, q);
    }
  }

  lemma {:induction false} QuietChildren(w: World, v: Visits, since: Time, t: SourceTree, p: Path, names: seq<string>)
    requires ValidWorld(w) && Quiet(w, v, t) && (names != [] ==> |p| < w.depth)
    requires forall n | n in names :: p + [n] in t
    ensures WalkChildren(w, v, since, p, names).Some?
    decreases w.depth - |p|, 0, |names|
  {
    if names != [] {
      QuietNode(w, v, since, t, p + [names[0]]);
      QuietChildren(w, v, since, t, p, names[1..]);
    }
  }

  /** On a quiet source the skipping traversal succeeds and emits a regular file exactly if none of
      its ancestors is excluded (and it is fresh), a directory exactly if it is not excluded either. */
  lemma {:induction false} PrunedWalkIsFilter(w: World, v: Visits, since: Time, t: SourceTree)
    requires ValidWorld(w) && Quiet(w, v, t) && [] in t
    ensures WalkAll(w, v, since).Some?
    ensures forall p, content, complete :: FileItem(p, content, complete) in WalkAll(w, v, since).value <==>
              && p != [] && Included(w, t, p) && t[p].SFile? && (since == ZERO || t[p].mtime > since)
              && content == t[p].content && complete
    ensures forall p :: DirItem(p) in WalkAll(w, v, since).value <==>
              p != [] && since == ZERO && Included(w, t, p) && t[p].SDir? && !Skipped(w, p)
  {
    QuietNode(w, v, since, t, []);
    WalkExact(w, v, since);
    var items := WalkAll(w, v, since).value;
    forall p, content, complete
      ensures FileItem(p, content, complete) in items <==>
              && p != [] && Included(w, t, p) && t[p].SFile? && (since == ZERO || t[p].mtime > since)
              && content == t[p].content && complete
    {
      var item := FileItem(p, content, complete);
      assert item in items <==> Reached(w, v, p) && Carries(w, v, since, item);
      if p in t {
        QuietReached(w, v, t, p);
        if t[p].SFile? {
          QuietRead(w, v, t, p);
        }
      }
    }
    forall p
      ensures DirItem(p) in items <==>
              p != [] && since == ZERO && Included(w, t, p) && t[p].SDir? && !Skipped(w, p)
    {
      var item := DirItem(p);
      assert item in items <==> Reached(w, v, p) && Carries(w, v, since, item);
      if p in t {
        QuietReached(w, v, t, p);
      }
    }
  }

  /** Some entry of the exclude list covers the first k components of the path. */
  ghost predicate Covered(exclude: seq<string>, p: Path, k: nat)
    requires k <= |p|
  {
    exists i | 0 <= i < |exclude| :: PathNames.Entry(exclude[i]) != "" && Split(PathNames.Entry(exclude[i])) <= p[..k]
  }

  lemma {:induction false} SkippedIffCovered(exclude: seq<string>, p: Path, k: nat)
    requires 0 < k <= |p| && forall c | c in p :: NoSlash(c)
    ensures ExcludeRule(exclude)(p[..k]) <==> Covered(exclude, p, k)
  {
    ExcludedIffComponentPrefix(exclude, Join(p[..k]));
    SplitJoin(p[..k]);
  }

  /** With the connector's own rule: a full backup of a quiet source carries a regular file exactly if
      no trimmed, non-blank entry's components are the first components of a directory above it. */
  lemma {:induction false} ExcludeListIsFilter(at: Time -> SourceTree, exclude: seq<string>, depth: nat, v: Visits,
                                               t: SourceTree, p: Path)
    requires var w := World(at, ExcludeRule(exclude), depth); ValidWorld(w) && Quiet(w, v, t)
    requires [] in t && p != []
    ensures var w := World(at, ExcludeRule(exclude), depth);
            && WalkAll(w, v, ZERO).Some?
            && forall content, complete :: FileItem(p, content, complete) in WalkAll(w, v, ZERO).value <==>
                 && p in t && t[p].SFile? && content == t[p].content && complete
                 && forall k | 0 < k < |p| :: !Covered(exclude, p, k)
  {
    var w := World(at, ExcludeRule(exclude), depth);
    PrunedWalkIsFilter(w, v, ZERO, t);
    assert SoundAt(w, v.statAt([]));
    if p in t {
      IncludedIffUncovered(w, exclude, t, p);
    }
  }

  lemma {:induction false} IncludedIffUncovered(w: World, exclude: seq<string>, t: SourceTree, p: Path)
    requires w.excluded == ExcludeRule(exclude) && IsFileSystem(t, w.depth) && p in t
    ensures Included(w, t, p) <==> forall k | 0 < k < |p| :: !Covered(exclude, p, k)
  {
    assert forall c | c in p :: Ordinary(c);
    forall k | 0 < k < |p|
      ensures Skipped(w, p[..k]) <==> Covered(exclude, p, k)
    {
      SkippedIffCovered(exclude, p, k);
    }
  }
}
