/** The durable outbox: one file per command id in a directory, published by rename. */
module Outbox {
  import opened Text

  // ---------------------------------------------------------------------------------------------
  // Results and file names.

  datatype Status = Done | Failed | Cancelled

  datatype Result = Result(status: Status, backupId: string, bytes: int, error: string, cursor: string)

  datatype Report = Report(cmdId: string, result: Result)

  /** A file's content: a decodable report, or a half-written one. */
  datatype Body = Record(report: Report) | Junk

  type Directory = map<string, Body>

  predicate SafeChar(c: char) {
    'a' <= c <= 'z' || 'A' <= c <= 'Z' || '0' <= c <= '9' || c == '-' || c == '_'
  }

  function Replace(c: char): char {
    if SafeChar(c) then c else '_'
  }

  function Safe(s: string): string {
    if s == "" then "cmd" else seq(|s|, i requires 0 <= i < |s| => Replace(s[i]))
  }

  ghost predicate InAlphabet(s: string) {
    s != "" && forall i | 0 <= i < |s| :: SafeChar(s[i])
  }

  method SafeName(s: string) returns (r: string)
    ensures r == Safe(s)
  {
    var b: string := "";
    for i := 0 to |s|
      invariant |b| == i && forall j | 0 <= j < i :: b[j] == Replace(s[j])
    {
      if SafeChar(s[i]) {
        b := b + [s[i]];
      } else {
        b := b + ['_'];
      }
    }
    if |b| == 0 {
      return "cmd";
    }
    assert b == Safe(s);
    r := b;
  }

  /** Letters, digits, '-' and '_', by code point. */
  ghost predicate MayNameFile(c: int) {
    97 <= c <= 122 || 65 <= c <= 90 || 48 <= c <= 57 || c == 45 || c == 95
  }

  /** The name of an id: "cmd" for the empty one, else as long as the id, with every character outside
      the alphabet replaced by '_' and no other; so no name has a slash or a dot. Two ids share a name
      exactly if they agree up to replaced characters. */
  lemma {:induction false} SafeNames(a: string, b: string)
    ensures Safe("") == "cmd"
    ensures a != "" ==> |Safe(a)| == |a|
    ensures a != "" ==> forall i | 0 <= i < |a| :: Safe(a)[i] == if MayNameFile(a[i] as int) then a[i] else '_'
    ensures InAlphabet(Safe(a)) && '/' !in Safe(a) && '.' !in Safe(a)
    ensures InAlphabet(a) <==> a != "" && forall i | 0 <= i < |a| :: MayNameFile(a[i] as int)
    ensures InAlphabet(a) ==> Safe(a) == a
    ensures Safe(Safe(a)) == Safe(a)
    ensures a != "" && b != "" ==>
              (Safe(a) == Safe(b) <==> |a| == |b| && forall i | 0 <= i < |a| :: Replace(a[i]) == Replace(b[i]))
  {
    if a != "" && b != "" && Safe(a) == Safe(b) {
      assert |Safe(a)| == |a| && |Safe(b)| == |b|;
      forall i | 0 <= i < |a|
        ensures Replace(a[i]) == Replace(b[i])
      {
        assert Safe(a)[i] == Safe(b)[i];
      }
    }
  }

  function FileOf(cmdId: string): string {
    Safe(cmdId) + JSON
  }

  function TmpOf(cmdId: string): string {
    FileOf(cmdId) + ".tmp"
  }

  /** The extension: from the last dot on. */
  function Ext(name: string): string {
    if name == "" then ""
    else if name[|name| - 1] == '.' then "."
    else
      var e := Ext(name[..|name| - 1]);
      if e == "" then "" else e + [name[|name| - 1]]
  }

  lemma {:induction false} ExtOfSuffix(name: string, tail: string)
    requires forall i | 0 <= i < |tail| :: tail[i] != '.'
    ensures Ext(name + "." + tail) == "." + tail
  {
    var s := name + "." + tail;
    if tail != "" {
      var init := tail[..|tail| - 1];
      ExtOfSuffix(name, init);
      assert s[..|s| - 1] == name + "." + init && s[|s| - 1] == tail[|tail| - 1];
      assert "." + init + [tail[|tail| - 1]] == "." + tail;
    } else {
      assert s[|s| - 1] == '.';
    }
  }

  const JSON := ".json"

  /** The scan's test on a name; stated by suffix, which is what testing the extension amounts to. */
  predicate Listed(name: string) {
    |name| >= 5 && name[|name| - 5..] == JSON
  }

  lemma {:induction false} ExtShape(name: string)
    ensures Ext(name) != "" ==>
              Ext(name)[0] == '.' && |Ext(name)| <= |name| && name[|name| - |Ext(name)|..] == Ext(name)
  {
    if name != "" && name[|name| - 1] != '.' {
      var init, c := name[..|name| - 1], name[|name| - 1];
      ExtShape(init);
      if Ext(init) != "" {
        var k := |init| - |Ext(init)|;
        assert name[k..] == init[k..] + [c];
      }
    }
  }

  lemma {:induction false} ListedIsExtension(name: string)
    ensures Listed(name) <==> Ext(name) == ".json"
  {
    ExtShape(name);
    if Listed(name) {
      assert name == name[..|name| - 5] + "." + "json";
      ExtOfSuffix(name[..|name| - 5], "json");
    }
  }

  /** Published names are listed, temporary ones never are, so neither is taken for the other. */
  lemma {:induction false} NamesDoNotMix(a: string, b: string)
    ensures Listed(FileOf(a)) && !Listed(TmpOf(b)) && FileOf(a) != TmpOf(b)
    ensures FileOf(a) == FileOf(b) <==> Safe(a) == Safe(b)
    ensures TmpOf(a) == TmpOf(b) <==> Safe(a) == Safe(b)
  {
    var fa, fb, ta, tb := FileOf(a), FileOf(b), TmpOf(a), TmpOf(b);
    assert fa[..|fa| - 5] == Safe(a) && fb[..|fb| - 5] == Safe(b);
    assert ta[..|ta| - 4] == fa && tb[..|tb| - 4] == fb;
    assert fa[|fa| - 5..] == JSON;
    assert tb[|tb| - 1] == 'p' && JSON[4] == 'n';
    assert |tb| >= 5 ==> tb[|tb| - 5..][4] == tb[|tb| - 1];
  }

  // ---------------------------------------------------------------------------------------------
  // Atomic directory steps.

  function Published(d: Directory, cmdId: string): Directory
    requires TmpOf(cmdId) in d
  {
    (d - {TmpOf(cmdId)})[FileOf(cmdId) := d[TmpOf(cmdId)]]
  }

  /** The whole of a successful enqueue: write under the temporary name, then rename. */
  function Enqueued(d: Directory, r: Report): Directory {
    Published(d[TmpOf(r.cmdId) := Record(r)], r.cmdId)
  }

  function Acked(d: Directory, cmdId: string): Directory {
    d - {FileOf(cmdId)}
  }

  /** A file the scan reports: listed, decodable, with a command id. */
  predicate IsPending(d: Directory, name: string) {
    name in d && Listed(name) && d[name].Record? && d[name].report.cmdId != ""
  }

  function PendingIn(d: Directory, names: seq<string>): seq<Report> {
    if names == [] then []
    else
      PendingIn(d, names[..|names| - 1]) +
      if IsPending(d, names[|names| - 1]) then [d[names[|names| - 1]].report] else []
  }

  lemma {:induction false} OneMoreName(d: Directory, names: seq<string>, name: string)
    ensures PendingIn(d, names + [name]) == PendingIn(d, names) + if IsPending(d, name) then [d[name].report] else []
  {
    assert (names + [name])[..|names|] == names;
  }

  lemma {:induction false} OneMoreTaken(d: Directory, names: seq<string>, i: nat)
    requires i < |names|
    ensures PendingIn(d, names[..i + 1]) ==
            PendingIn(d, names[..i]) + if IsPending(d, names[i]) then [d[names[i]].report] else []
  {
    assert names[..i + 1][..i] == names[..i];
  }

  /** The unacked reports in file-name order. */
  function Pending(d: Directory): seq<Report> {
    PendingIn(d, Sorted(d.Keys))
  }

  /** Every published file is named from its own record's id. */
  ghost predicate WellNamed(d: Directory) {
    forall n | n in d && Listed(n) && d[n].Record? :: n == FileOf(d[n].report.cmdId)
  }

  /** The map the directory stands for: file name to report. */
  function Contents(d: Directory): map<string, Report> {
    map n | n in d && IsPending(d, n) :: d[n].report
  }

  lemma {:induction false} EnqueuedAt(d: Directory, r: Report, n: string)
    requires r.cmdId != ""
    ensures IsPending(Enqueued(d, r), n) <==> n == FileOf(r.cmdId) || IsPending(d, n)
    ensures IsPending(Enqueued(d, r), n) ==> Enqueued(d, r)[n].report == if n == FileOf(r.cmdId) then r else d[n].report
  {
    NamesDoNotMix(r.cmdId, r.cmdId);
  }

  lemma {:induction false} TmpIsInvisible(d: Directory, cmdId: string, body: Body)
    ensures Contents(d[TmpOf(cmdId) := body]) == Contents(d)
    ensures WellNamed(d) ==> WellNamed(d[TmpOf(cmdId) := body])
  {
    NamesDoNotMix(cmdId, cmdId);
  }

  lemma {:induction false} EmptyIsWellNamed()
    ensures WellNamed(map[]) && Contents(map[]) == map[]
  {
  }

  /** Refinement: enqueue is a map update, whatever temporary files lie around. */
  lemma {:induction false} EnqueueIsUpdate(d: Directory, r: Report)
    requires WellNamed(d) && r.cmdId != ""
    ensures WellNamed(Enqueued(d, r)) && Contents(Enqueued(d, r)) == Contents(d)[FileOf(r.cmdId) := r]
  {
    var e := Enqueued(d, r);
    forall n
      ensures n in Contents(e) <==> n in Contents(d)[FileOf(r.cmdId) := r]
      ensures n in Contents(e) ==> Contents(e)[n] == Contents(d)[FileOf(r.cmdId) := r][n]
    {
      EnqueuedAt(d, r, n);
    }
  }

  /** Refinement: ack is a map removal. */
  lemma {:induction false} AckIsRemoval(d: Directory, cmdId: string)
    ensures Contents(Acked(d, cmdId)) == Contents(d) - {FileOf(cmdId)}
    ensures WellNamed(d) ==> WellNamed(Acked(d, cmdId))
  {
  }

  // ---------------------------------------------------------------------------------------------
  // The scan lists the map's values in key order.

  /** The listed, decodable names in order. */
  function PendingNames(d: Directory, names: seq<string>): seq<string> {
    if names == [] then []
    else
      PendingNames(d, names[..|names| - 1]) +
      if IsPending(d, names[|names| - 1]) then [names[|names| - 1]] else []
  }

  lemma {:induction false} PendingNamesFilter(d: Directory, names: seq<string>)
    ensures var ps := PendingNames(d, names);
            && (forall n :: n in ps <==> n in names && IsPending(d, n))
            && |PendingIn(d, names)| == |ps|
            && forall i | 0 <= i < |ps| :: IsPending(d, ps[i]) && PendingIn(d, names)[i] == d[ps[i]].report
  {
    if names != [] {
      var init, last := names[..|names| - 1], names[|names| - 1];
      assert names == init + [last];
      PendingNamesFilter(d, init);
    }
  }

  lemma {:induction false} PendingNamesIncrease(d: Directory, names: seq<string>)
    requires Increasing(names)
    ensures Increasing(PendingNames(d, names))
  {
    if names != [] {
      var init, last := names[..|names| - 1], names[|names| - 1];
      PendingNamesIncrease(d, init);
      var before := PendingNames(d, init);
      forall i | 0 <= i < |before|
        ensures Leq(before[i], last) && before[i] != last
      {
        PendingNamesFilter(d, init);
        assert before[i] in init;
        var j :| 0 <= j < |init| && init[j] == before[i];
        assert names[j] == init[j];
      }
    }
  }

  /** Pending reports are exactly the map's values, one per key, in increasing key order. */
  lemma {:induction false} PendingIsMapInKeyOrder(d: Directory) returns (keys: seq<string>)
    ensures Increasing(keys) && (forall n :: n in keys <==> n in Contents(d))
    ensures |Pending(d)| == |keys| == |Contents(d)|
    ensures forall i | 0 <= i < |keys| :: keys[i] in Contents(d) && Pending(d)[i] == Contents(d)[keys[i]]
  {
    keys := PendingNames(d, Sorted(d.Keys));
    PendingNamesFilter(d, Sorted(d.Keys));
    PendingNamesIncrease(d, Sorted(d.Keys));
    DistinctCount(keys, Contents(d).Keys);
    assert |Contents(d).Keys| == |Contents(d)|;
    forall i | 0 <= i < |keys|
      ensures keys[i] in Contents(d)
    {
      assert keys[i] in keys;
    }
  }

  lemma {:induction false} DistinctCount(names: seq<string>, s: set<string>)
    requires forall i, j | 0 <= i < j < |names| :: names[i] != names[j]
    requires forall n :: n in names <==> n in s
    ensures |names| == |s|
  {
    if names == [] {
      assert s == {};
    } else {
      var init, last := names[..|names| - 1], names[|names| - 1];
      assert names == init + [last];
      assert last in names;
      DistinctCount(init, s - {last});
    }
  }

  // ---------------------------------------------------------------------------------------------
  // One flush.

  datatype FlushState = FlushState(dir: Directory, remaining: nat, stopped: bool)

  /** The answers a flush meets: is the context live, does the send succeed, does the removal work. */
  datatype Answers = Answers(live: nat -> bool, accepts: nat -> bool, removes: nat -> bool)

  /** The first n snapshot records, delivered one by one; a cancelled context stops with one more. */
  function Flushed(d: Directory, snapshot: seq<Report>, a: Answers, n: nat): FlushState
    requires n <= |snapshot|
  {
    if n == 0 then FlushState(d, 0, false)
    else
      var f := Flushed(d, snapshot, a, n - 1);
      if f.stopped then f
      else if !a.live(n - 1) then f.(remaining := f.remaining + 1, stopped := true)
      else if !a.accepts(n - 1) then f.(remaining := f.remaining + 1)
      else if a.removes(n - 1) then f.(dir := Acked(f.dir, snapshot[n - 1].cmdId))
      else f
  }

  /** How many of the first n records were refused, and how many accepted ones stay on disk. */
  function RefusedBy(a: Answers, n: nat): nat {
    if n == 0 then 0 else RefusedBy(a, n - 1) + if a.accepts(n - 1) then 0 else 1
  }

  function Stale(a: Answers, n: nat): nat {
    if n == 0 then 0 else Stale(a, n - 1) + if a.accepts(n - 1) && !a.removes(n - 1) then 1 else 0
  }

  ghost predicate Uncancelled(a: Answers, n: nat) {
    forall i | 0 <= i < n :: a.live(i)
  }

  /** A flush stops early exactly if its context is cancelled before one of the deliveries. */
  lemma {:induction false} FlushStopsIff(d: Directory, snapshot: seq<Report>, a: Answers, n: nat)
    requires n <= |snapshot|
    ensures Flushed(d, snapshot, a, n).stopped <==> !Uncancelled(a, n)
  {
    if n > 0 {
      FlushStopsIff(d, snapshot, a, n - 1);
      assert Uncancelled(a, n) <==> Uncancelled(a, n - 1) && a.live(n - 1);
    }
  }

  /** The record was accepted and its removal worked. */
  ghost predicate Gone(a: Answers, i: nat) {
    a.accepts(i) && a.removes(i)
  }

  /** The keys gone after n records. */
  ghost function GoneKeys(keys: seq<string>, a: Answers, n: nat): set<string>
    requires n <= |keys|
  {
    set i | 0 <= i < n && Gone(a, i) :: keys[i]
  }

  lemma {:induction false} GoneStep(keys: seq<string>, a: Answers, n: nat)
    requires 0 < n <= |keys|
    ensures GoneKeys(keys, a, n) ==
            if Gone(a, n - 1) then GoneKeys(keys, a, n - 1) + {keys[n - 1]} else GoneKeys(keys, a, n - 1)
  {
  }

  /** The records a snapshot holds are named by the keys, one each. */
  ghost predicate Names(snapshot: seq<Report>, keys: seq<string>) {
    && |keys| == |snapshot|
    && (forall i, j | 0 <= i < j < |keys| :: keys[i] != keys[j])
    && forall i | 0 <= i < |keys| :: keys[i] == FileOf(snapshot[i].cmdId)
  }

  lemma {:induction false} GoneCount(keys: seq<string>, a: Answers, n: nat)
    requires n <= |keys| && forall i, j | 0 <= i < j < |keys| :: keys[i] != keys[j]
    ensures |GoneKeys(keys, a, n)| + RefusedBy(a, n) + Stale(a, n) == n
  {
    if n > 0 {
      GoneCount(keys, a, n - 1);
      GoneStep(keys, a, n);
      assert keys[n - 1] !in GoneKeys(keys, a, n - 1);
    }
  }

  lemma {:induction false} Uninterrupted(d: Directory, snapshot: seq<Report>, a: Answers, n: nat)
    requires n <= |snapshot| && Uncancelled(a, n)
    ensures !Flushed(d, snapshot, a, n).stopped && Flushed(d, snapshot, a, n).remaining == RefusedBy(a, n)
  {
    if n > 0 {
      Uninterrupted(d, snapshot, a, n - 1);
    }
  }

  lemma {:induction false} FlushRemoves(d: Directory, snapshot: seq<Report>, keys: seq<string>, a: Answers, n: nat)
    requires Names(snapshot, keys) && n <= |keys| && Uncancelled(a, n)
    ensures Flushed(d, snapshot, a, n).dir == d - GoneKeys(keys, a, n)
  {
    if n > 0 {
      FlushRemoves(d, snapshot, keys, a, n - 1);
      Uninterrupted(d, snapshot, a, n - 1);
      GoneStep(keys, a, n);
      assert keys[n - 1] == FileOf(snapshot[n - 1].cmdId);
      assert d - GoneKeys(keys, a, n - 1) - {keys[n - 1]} == d - (GoneKeys(keys, a, n - 1) + {keys[n - 1]});
    }
  }

  lemma {:induction false} RemovedContents(d: Directory, gone: set<string>)
    ensures Contents(d - gone) == Contents(d) - gone
  {
  }

  lemma {:induction false} RemovedFiles(d: Directory, gone: set<string>)
    requires gone <= Contents(d).Keys
    ensures |Pending(d - gone)| == |Pending(d)| - |gone|
  {
    RemovedContents(d, gone);
    var before := PendingIsMapInKeyOrder(d);
    var after := PendingIsMapInKeyOrder(d - gone);
    FewerKeys(Contents(d), gone);
  }

  lemma {:induction false} FewerKeys(m: map<string, Report>, gone: set<string>)
    requires gone <= m.Keys
    ensures |m - gone| == |m| - |gone|
  {
    assert (m - gone).Keys == m.Keys - gone;
    assert |m.Keys - gone| == |m.Keys| - |gone|;
  }

  /** The keys of a scan: the map's keys in order, each the file name of the record under it. */
  lemma {:induction false} ScanKeys(d: Directory) returns (keys: seq<string>)
    requires WellNamed(d)
    ensures Names(Pending(d), keys) && Increasing(keys) && forall n :: n in keys <==> n in Contents(d)
  {
    keys := PendingIsMapInKeyOrder(d);
    forall i | 0 <= i < |keys|
      ensures keys[i] == FileOf(Pending(d)[i].cmdId)
    {
      assert keys[i] in Contents(d);
    }
  }

  /** What an uncancelled prefix of a flush leaves behind. */
  lemma {:induction false} FlushLeaves(d: Directory, a: Answers, n: nat) returns (keys: seq<string>)
    requires WellNamed(d) && n <= |Pending(d)| && Uncancelled(a, n)
    ensures Names(Pending(d), keys) && forall k :: k in keys <==> k in Contents(d)
    ensures var f := Flushed(d, Pending(d), a, n);
            && !f.stopped && f.remaining == RefusedBy(a, n)
            && f.dir == d - GoneKeys(keys, a, n)
            && Contents(f.dir) == Contents(d) - GoneKeys(keys, a, n)
            && |Pending(f.dir)| == |Pending(d)| - n + f.remaining + Stale(a, n)
  {
    keys := ScanKeys(d);
    Uninterrupted(d, Pending(d), a, n);
    FlushRemoves(d, Pending(d), keys, a, n);
    GoneCount(keys, a, n);
    RemovedContents(d, GoneKeys(keys, a, n));
    RemovedFiles(d, GoneKeys(keys, a, n));
  }

  /** Flush accounting. An uncancelled flush takes exactly the accepted records whose removal works
      off the disk and returns the number of refused ones, which is the number left when removals
      work; 0 means the whole snapshot was delivered. */
  lemma {:induction false} UncancelledFlush(d: Directory, a: Answers) returns (keys: seq<string>)
    requires WellNamed(d) && Uncancelled(a, |Pending(d)|)
    ensures Names(Pending(d), keys) && forall k :: k in keys <==> k in Contents(d)
    ensures var n := |Pending(d)|; var f := Flushed(d, Pending(d), a, n);
            && !f.stopped
            && Contents(f.dir) == Contents(d) - GoneKeys(keys, a, n)
            && |Pending(f.dir)| == f.remaining + Stale(a, n)
            && (f.remaining == 0 <==> forall i | 0 <= i < n :: a.accepts(i))
  {
    keys := FlushLeaves(d, a, |Pending(d)|);
    NoneRefused(a, |Pending(d)|);
  }

  lemma {:induction false} NoneRefused(a: Answers, n: nat)
    ensures RefusedBy(a, n) == 0 <==> forall i | 0 <= i < n :: a.accepts(i)
  {
    if n > 0 {
      NoneRefused(a, n - 1);
    }
  }

  lemma {:induction false} StoppedStays(d: Directory, snapshot: seq<Report>, a: Answers, k: nat, n: nat)
    requires k <= n <= |snapshot| && Flushed(d, snapshot, a, k).stopped
    ensures Flushed(d, snapshot, a, n) == Flushed(d, snapshot, a, k)
  {
    if n > k {
      StoppedStays(d, snapshot, a, k, n - 1);
    }
  }

  lemma {:induction false} StopsAt(d: Directory, snapshot: seq<Report>, a: Answers, k: nat)
    requires k < |snapshot| && !Flushed(d, snapshot, a, k).stopped && !a.live(k)
    ensures var f, g := Flushed(d, snapshot, a, k), Flushed(d, snapshot, a, |snapshot|);
            g == FlushState(f.dir, f.remaining + 1, true)
  {
    StoppedStays(d, snapshot, a, k + 1, |snapshot|);
  }

  lemma {:induction false} OneMoreDelivered(d: Directory, snapshot: seq<Report>, a: Answers, i: nat)
    requires i < |snapshot| && !Flushed(d, snapshot, a, i).stopped && a.live(i)
    ensures var f, g := Flushed(d, snapshot, a, i), Flushed(d, snapshot, a, i + 1);
            && g.dir == (if a.accepts(i) && a.removes(i) then Acked(f.dir, snapshot[i].cmdId) else f.dir)
            && g.remaining == f.remaining + (if a.accepts(i) then 0 else 1)
            && !g.stopped
  {
  }

  /** A cancelled flush returns at least 1 and at most the number left on disk. */
  lemma {:induction false} CancelledFlush(d: Directory, a: Answers, k: nat)
    requires WellNamed(d) && k < |Pending(d)| && Uncancelled(a, k) && !a.live(k)
    ensures var f := Flushed(d, Pending(d), a, |Pending(d)|);
            f.stopped && 1 <= f.remaining <= |Pending(f.dir)|
  {
    var keys := FlushLeaves(d, a, k);
    StopsAt(d, Pending(d), a, k);
  }

  /** With an accepting server and working removals one flush empties the box. */
  lemma {:induction false} AcceptedFlushEmpties(d: Directory, a: Answers)
    requires WellNamed(d) && Uncancelled(a, |Pending(d)|)
    requires forall i | 0 <= i < |Pending(d)| :: Gone(a, i)
    ensures var f := Flushed(d, Pending(d), a, |Pending(d)|); f.remaining == 0 && |Pending(f.dir)| == 0
  {
    var n := |Pending(d)|;
    forall i | 0 <= i < n
      ensures a.accepts(i)
    {
      assert Gone(a, i);
    }
    NothingStale(a, n);
    NoneRefused(a, n);
    var keys := FlushLeaves(d, a, n);
  }

  lemma {:induction false} NothingStale(a: Answers, n: nat)
    requires forall i | 0 <= i < n :: Gone(a, i)
    ensures Stale(a, n) == 0
  {
    if n > 0 {
      assert Gone(a, n - 1);
      NothingStale(a, n - 1);
    }
  }

  // ---------------------------------------------------------------------------------------------
  // The outbox object.

  /** How writing the temporary file goes: completely, cut short, or not at all. */
  datatype Write = Complete | CutShort | Refused

  class Box {
    var dir: Directory

    constructor (dir: Directory)
      ensures this.dir == dir
    {
      this.dir := dir;
    }

    method Enqueue(r: Report, write: Write, renameOk: bool) returns (ok: bool)
      modifies this
      ensures ok <==> write.Complete? && renameOk
      ensures dir == match write
                     case Complete => if renameOk then Enqueued(old(dir), r) else old(dir)[TmpOf(r.cmdId) := Record(r)]
                     case CutShort => old(dir)[TmpOf(r.cmdId) := Junk]
                     case Refused => old(dir)
    {
      var name := SafeName(r.cmdId);
      var tmp := name + JSON + ".tmp";
      match write {
        case Refused => return false;
        case CutShort =>
          dir := dir[tmp := Junk];
          return false;
        case Complete =>
          dir := dir[tmp := Record(r)];
      }
      if !renameOk {
        return false;
      }
      dir := (dir - {tmp})[name + JSON := dir[tmp]];
      ok := true;
    }

    method Ack(cmdId: string, removeOk: bool)
      modifies this
      ensures dir == if removeOk then Acked(old(dir), cmdId) else old(dir)
    {
      var name := SafeName(cmdId);
      if removeOk {
        dir := dir - {name + JSON};
      }
    }

    /** The names with the right extension, in order. */
    method ListedNames() returns (names: seq<string>)
      ensures PendingIn(dir, names) == Pending(dir)
      ensures forall n | n in names :: n in dir && Listed(n)
    {
      var entries := Sorted(dir.Keys);
      names := [];
      for i := 0 to |entries|
        invariant PendingIn(dir, names) == PendingIn(dir, entries[..i])
        invariant forall n | n in names :: n in dir && Listed(n)
      {
        var name := entries[i];
        assert name in entries;
        ListedIsExtension(name);
        OneMoreTaken(dir, entries, i);
        OneMoreName(dir, names, name);
        if Ext(name) == ".json" {
          names := names + [name];
        }
      }
      assert entries[..|entries|] == entries;
    }

    /** Scan the directory: the listed names in order, then every decodable record among them. */
    method Scan() returns (out: seq<Report>)
      ensures out == Pending(dir)
    {
      var names := ListedNames();
      out := [];
      for i := 0 to |names|
        invariant out == PendingIn(dir, names[..i])
      {
        OneMoreTaken(dir, names, i);
        assert names[i] in names;
        var body := dir[names[i]];
        if body.Record? && body.report.cmdId != "" {
          out := out + [body.report];
        }
      }
      assert names[..|names|] == names;
    }

    /** Deliver every pending report once, acking the accepted ones. */
    method Flush(a: Answers) returns (remaining: nat)
      modifies this
      ensures var f := Flushed(old(dir), Pending(old(dir)), a, |Pending(old(dir))|);
              dir == f.dir && remaining == f.remaining
    {
      ghost var before := dir;
      var pend := Scan();
      remaining := 0;
      for i := 0 to |pend|
        invariant var f := Flushed(before, pend, a, i); f.dir == dir && f.remaining == remaining && !f.stopped
      {
        if !a.live(i) {
          StopsAt(before, pend, a, i);
          return remaining + 1;
        }
        OneMoreDelivered(before, pend, a, i);
        if a.accepts(i) {
          Ack(pend[i].cmdId, a.removes(i));
        } else {
          remaining := remaining + 1;
        }
      }
    }
  }
}
