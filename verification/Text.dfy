/** Strings as the program handles them: splitting and joining at '/', and the order in which
    directory listings are sorted. */
module Text {

  const SLASH := '/'

  predicate NoSlash(s: string) {
    SLASH !in s
  }

  /** One more character in front of a string, seen on its components. */
  function Attach(c: char, parts: seq<string>): (r: seq<string>)
    requires |parts| >= 1
  {
    if c == SLASH then [""] + parts else [[c] + parts[0]] + parts[1..]
  }

  /** The slash-separated components of a string; "a//b" has an empty component in the middle. */
  function Split(s: string): (parts: seq<string>)
    ensures |parts| >= 1
    ensures forall c | c in parts :: NoSlash(c)
  {
    if s == "" then [""]
    else
      var rest := Split(s[1..]);
      assert rest[0] in rest;
      Attach(s[0], rest)
  }

  function Join(parts: seq<string>): string {
    if parts == [] then ""
    else if |parts| == 1 then parts[0]
    else parts[0] + "/" + Join(parts[1..])
  }

  lemma {:induction false} SplitPlain(s: string)
    requires NoSlash(s)
    ensures Split(s) == [s]
  {
    if s != "" {
      SplitPlain(s[1..]);
      assert [s[0]] + s[1..] == s;
    }
  }

  lemma {:induction false} AttachAppend(c: char, a: seq<string>, b: seq<string>)
    requires |a| >= 1
    ensures Attach(c, a + b) == Attach(c, a) + b
  {
    if c != SLASH {
      assert (a + b)[1..] == a[1..] + b;
    }
  }

  /** Splitting distributes over a separator. */
  lemma {:induction false} SplitAppend(a: string, b: string)
    ensures Split(a + "/" + b) == Split(a) + Split(b)
  {
    var s := a + "/" + b;
    if a == "" {
      assert s[0] == SLASH && s[1..] == b;
    } else {
      SplitAppend(a[1..], b);
      assert s[0] == a[0] && s[1..] == a[1..] + "/" + b;
      AttachAppend(a[0], Split(a[1..]), Split(b));
    }
  }

  /** Joining slash-free components and splitting again gives the components back. */
  lemma {:induction false} SplitJoin(parts: seq<string>)
    requires parts != []
    requires forall c | c in parts :: NoSlash(c)
    ensures Split(Join(parts)) == parts
  {
    SplitPlain(parts[0]);
    if |parts| > 1 {
      SplitAppend(parts[0], Join(parts[1..]));
      SplitJoin(parts[1..]);
    }
  }

  lemma {:induction false} JoinSplit(s: string)
    ensures Join(Split(s)) == s
  {
    if s != "" {
      var rest := Split(s[1..]);
      JoinSplit(s[1..]);
      if s[0] == SLASH {
        assert ([""] + rest)[1..] == rest;
      } else if |rest| > 1 {
        var parts := [[s[0]] + rest[0]] + rest[1..];
        assert parts[1..] == rest[1..];
        assert parts[0] + "/" + Join(parts[1..]) == [s[0]] + (rest[0] + "/" + Join(rest[1..]));
      }
    }
  }

  lemma {:induction false} JoinAppend(a: seq<string>, b: seq<string>)
    requires a != [] && b != []
    ensures Join(a + b) == Join(a) + "/" + Join(b)
  {
    assert (a + b)[1..] == a[1..] + b;
    if |a| > 1 {
      JoinAppend(a[1..], b);
    }
  }

  // ---------------------------------------------------------------------------------------------
  // Lexicographic order, as used by sorted directory listings.

  predicate Leq(a: string, b: string) {
    a == "" || (b != "" && (a[0] < b[0] || (a[0] == b[0] && Leq(a[1..], b[1..]))))
  }

  /** The position up to which two strings agree, as the order sees it. */
  ghost predicate FirstDifference(a: string, b: string, k: nat) {
    k <= |a| && k <= |b| && a[..k] == b[..k] && (k == |a| || k == |b| || a[k] != b[k])
  }

  lemma {:induction false} SomeFirstDifference(a: string, b: string)
    ensures exists k: nat :: FirstDifference(a, b, k)
  {
    if a == "" || b == "" || a[0] != b[0] {
      assert FirstDifference(a, b, 0);
    } else {
      SomeFirstDifference(a[1..], b[1..]);
      var k: nat :| FirstDifference(a[1..], b[1..], k);
      assert a[..k + 1] == [a[0]] + a[1..][..k] && b[..k + 1] == [b[0]] + b[1..][..k];
      assert FirstDifference(a, b, k + 1);
    }
  }

  /** At the first difference the smaller character decides, and a proper prefix comes first. */
  lemma {:induction false} LeqAtFirstDifference(a: string, b: string, k: nat)
    requires FirstDifference(a, b, k)
    ensures Leq(a, b) <==> k == |a| || (k < |b| && a[k] < b[k])
  {
    if k > 0 {
      assert a[0] == a[..k][0] && b[0] == b[..k][0];
      assert a[1..][..k - 1] == a[..k][1..] && b[1..][..k - 1] == b[..k][1..];
      LeqAtFirstDifference(a[1..], b[1..], k - 1);
    }
  }

  lemma {:induction false} LeqTotal(a: string, b: string)
    ensures Leq(a, b) || Leq(b, a)
  {
    if a != "" && b != "" && a[0] == b[0] {
      LeqTotal(a[1..], b[1..]);
    }
  }

  lemma {:induction false} LeqAntisymmetric(a: string, b: string)
    requires Leq(a, b) && Leq(b, a)
    ensures a == b
  {
    if a != "" {
      LeqAntisymmetric(a[1..], b[1..]);
      assert a == [a[0]] + a[1..];
    }
  }

  lemma {:induction false} LeqTransitive(a: string, b: string, c: string)
    requires Leq(a, b) && Leq(b, c)
    ensures Leq(a, c)
  {
    if a != "" && a[0] == b[0] == c[0] {
      LeqTransitive(a[1..], b[1..], c[1..]);
    }
  }

  predicate IsLeast(m: string, s: set<string>) {
    m in s && forall y | y in s :: Leq(m, y)
  }

  lemma {:induction false} LeastExists(s: set<string>)
    requires s != {}
    ensures exists m :: IsLeast(m, s)
  {
    var x :| x in s;
    LeqTotal(x, x);
    if s == {x} {
      assert IsLeast(x, s);
    } else {
      LeastExists(s - {x});
      var m :| IsLeast(m, s - {x});
      LeqTotal(x, m);
      var least := if Leq(x, m) then x else m;
      forall y | y in s
        ensures Leq(least, y)
      {
        if y != x && Leq(x, m) {
          LeqTransitive(x, m, y);
        }
      }
      assert IsLeast(least, s);
    }
  }

  lemma {:induction false} LeastUnique(s: set<string>)
    ensures forall m, n | IsLeast(m, s) && IsLeast(n, s) :: m == n
  {
    forall m, n | IsLeast(m, s) && IsLeast(n, s)
      ensures m == n
    {
      LeqAntisymmetric(m, n);
    }
  }

  function Least(s: set<string>): (m: string)
    requires s != {}
    ensures IsLeast(m, s)
  {
    LeastExists(s);
    LeastUnique(s);
    var m :| m in s && IsLeast(m, s);
    m
  }

  /** Strictly increasing, hence without duplicates. */
  ghost predicate Increasing(names: seq<string>) {
    forall i, j | 0 <= i < j < |names| :: Leq(names[i], names[j]) && names[i] != names[j]
  }

  /** Two increasing listings of the same names are the same. */
  lemma {:induction false} IncreasingUnique(a: seq<string>, b: seq<string>)
    requires Increasing(a) && Increasing(b) && forall x :: x in a <==> x in b
    ensures a == b
  {
    EmptyTogether(a, b);
    if a != [] {
      assert a[0] in b && b[0] in a;
      SmallestFirst(a, b[0]);
      SmallestFirst(b, a[0]);
      LeqAntisymmetric(a[0], b[0]);
      forall x
        ensures x in a[1..] <==> x in b[1..]
      {
        TailNames(a, x);
        TailNames(b, x);
      }
      IncreasingUnique(a[1..], b[1..]);
      assert a == [a[0]] + a[1..] && b == [b[0]] + b[1..];
    }
  }

  lemma {:induction false} EmptyTogether(a: seq<string>, b: seq<string>)
    requires forall x :: x in a <==> x in b
    ensures a == [] <==> b == []
  {
    if a != [] {
      assert a[0] in a;
    }
    if b != [] {
      assert b[0] in b;
    }
  }

  lemma {:induction false} SmallestFirst(names: seq<string>, x: string)
    requires Increasing(names) && x in names
    ensures Leq(names[0], x)
  {
    var i :| 0 <= i < |names| && names[i] == x;
    LeqTotal(x, x);
  }

  lemma {:induction false} TailNames(names: seq<string>, x: string)
    requires Increasing(names) && names != []
    ensures x in names[1..] <==> x in names && x != names[0]
  {
    if x in names && x != names[0] {
      var i :| 0 <= i < |names| && names[i] == x;
      assert names[1..][i - 1] == x;
    }
  }

  /** A directory listing: every name of the set once, in increasing order. */
  function Sorted(s: set<string>): (names: seq<string>)
    ensures Increasing(names) && |names| == |s|
    ensures forall x :: x in names <==> x in s
  {
    if s == {} then []
    else
      var m := Least(s);
      [m] + Sorted(s - {m})
  }

  lemma {:induction false} SortedSingle(name: string)
    ensures Sorted({name}) == [name]
  {
    assert Sorted({name})[0] in Sorted({name});
  }
}
