/** Redis commands as arrays of bulk strings. */
module Resp {
  import opened FileTree

  const CR: Byte := 13
  const LF: Byte := 10
  const STAR: Byte := 42
  const DOLLAR: Byte := 36
  const CRLF := [CR, LF]

  predicate IsDigit(b: Byte) {
    48 <= b <= 57
  }

  /** Decimal, without leading zeros. */
  function Decimal(n: nat): (ds: Bytes)
    ensures ds != [] && forall i | 0 <= i < |ds| :: IsDigit(ds[i])
  {
    if n < 10 then [(48 + n) as Byte] else Decimal(n / 10) + [(48 + n % 10) as Byte]
  }

  function Number(ds: Bytes): nat
    requires forall i | 0 <= i < |ds| :: IsDigit(ds[i])
  {
    if ds == [] then 0
    else
      var last := ds[|ds| - 1];
      assert IsDigit(last);
      10 * Number(ds[..|ds| - 1]) + (last as int - 48)
  }

  lemma {:induction false} NumberOfDecimal(n: nat)
    ensures Number(Decimal(n)) == n
    decreases n
  {
    if n >= 10 {
      NumberOfDecimal(n / 10);
      assert Decimal(n)[..|Decimal(n)| - 1] == Decimal(n / 10);
    } else {
      assert Decimal(n)[..0] == [];
    }
  }

  function Bulk(arg: Bytes): Bytes {
    [DOLLAR] + Decimal(|arg|) + CRLF + arg + CRLF
  }

  function Bulks(args: seq<Bytes>): Bytes {
    if args == [] then [] else Bulks(args[..|args| - 1]) + Bulk(args[|args| - 1])
  }

  function Encoded(args: seq<Bytes>): Bytes {
    [STAR] + Decimal(|args|) + CRLF + Bulks(args)
  }

  lemma {:induction false} OneMoreBulk(header: Bytes, args: seq<Bytes>, i: nat)
    requires i < |args|
    ensures header + Bulks(args[..i + 1]) == header + Bulks(args[..i]) + Bulk(args[i])
  {
    assert args[..i + 1][..i] == args[..i];
    assert header + (Bulks(args[..i]) + Bulk(args[i])) == header + Bulks(args[..i]) + Bulk(args[i]);
  }

  /** Grow the buffer argument by argument. */
  method RespCmd(args: seq<Bytes>) returns (buf: Bytes)
    ensures buf == Encoded(args)
  {
    buf := [STAR] + Decimal(|args|) + CRLF;
    for i := 0 to |args|
      invariant buf == [STAR] + Decimal(|args|) + CRLF + Bulks(args[..i])
    {
      OneMoreBulk([STAR] + Decimal(|args|) + CRLF, args, i);
      buf := buf + Bulk(args[i]);
    }
    assert args[..|args|] == args;
  }

  lemma {:induction false} NoLeadingZero(n: nat)
    requires n > 0
    ensures Decimal(n)[0] != 48
    decreases n
  {
    if n >= 10 {
      NoLeadingZero(n / 10);
    }
  }

  /** The bytes on the wire: '*', the number of arguments, CR LF, and for each argument '$', its length,
      CR LF, the argument, CR LF. */
  lemma {:induction false} WireBytes(args: seq<Bytes>, arg: Bytes)
    ensures Encoded([]) == [42, 48, 13, 10]
    ensures Encoded(args) == [42] + Decimal(|args|) + [13, 10] + Bulks(args)
    ensures Bulks(args + [arg]) == Bulks(args) + ([36] + Decimal(|arg|) + [13, 10] + arg + [13, 10])
    ensures Decimal(0) == [48] && Decimal(10) == [49, 48]
    ensures var flushAll: Bytes := [70, 76, 85, 83, 72, 65, 76, 76];
            Encoded([flushAll]) == [42, 49, 13, 10, 36, 56, 13, 10] + flushAll + [13, 10]
  {
    assert (args + [arg])[..|args|] == args;
    var flushAll: Bytes := [70, 76, 85, 83, 72, 65, 76, 76];
    var empty: seq<Bytes> := [];
    assert empty + [flushAll] == [flushAll] && [flushAll][..0] == empty;
    assert Bulks([flushAll]) == Bulks(empty) + Bulk(flushAll) == Bulk(flushAll);
    assert Decimal(1) == [49] && Decimal(8) == [56];
    assert Decimal(10) == Decimal(1) + [48];
  }

  // ---------------------------------------------------------------------------------------------
  // Reading commands back.

  datatype Parsed<T> = Parsed(value: T, rest: Bytes) | Malformed

  /** How many digits the input starts with. */
  function Digits(s: Bytes): (k: nat)
    ensures k <= |s| && (forall i | 0 <= i < k :: IsDigit(s[i])) && (k < |s| ==> !IsDigit(s[k]))
  {
    if s != [] && IsDigit(s[0]) then 1 + Digits(s[1..]) else 0
  }

  /** A marker, a number and CRLF. */
  function ReadHeader(marker: Byte, s: Bytes): Parsed<nat> {
    if s == [] || s[0] != marker then Malformed
    else
      var k := Digits(s[1..]);
      if k == 0 || |s| < k + 3 || s[k + 1..k + 3] != CRLF then Malformed
      else Parsed(Number(s[1..k + 1]), s[k + 3..])
  }

  function ReadBulk(s: Bytes): Parsed<Bytes> {
    match ReadHeader(DOLLAR, s)
    case Malformed => Malformed
    case Parsed(n, rest) =>
      if |rest| < n + 2 || rest[n..n + 2] != CRLF then Malformed else Parsed(rest[..n], rest[n + 2..])
  }

  function ReadBulks(n: nat, s: Bytes): Parsed<seq<Bytes>> {
    if n == 0 then Parsed([], s)
    else
      match ReadBulk(s)
      case Malformed => Malformed
      case Parsed(arg, rest) =>
        match ReadBulks(n - 1, rest)
        case Malformed => Malformed
        case Parsed(args, rest') => Parsed([arg] + args, rest')
  }

  function ReadCommand(s: Bytes): Parsed<seq<Bytes>> {
    match ReadHeader(STAR, s)
    case Malformed => Malformed
    case Parsed(n, rest) => ReadBulks(n, rest)
  }

  lemma {:induction false} DigitsStop(ds: Bytes, s: Bytes)
    requires (forall i | 0 <= i < |ds| :: IsDigit(ds[i])) && s != [] && !IsDigit(s[0])
    ensures Digits(ds + s) == |ds|
  {
    if ds == [] {
      assert ds + s == s;
    } else {
      DigitsStop(ds[1..], s);
      assert (ds + s)[1..] == ds[1..] + s;
    }
  }

  lemma {:induction false} HeaderReads(marker: Byte, n: nat, rest: Bytes)
    ensures ReadHeader(marker, [marker] + Decimal(n) + CRLF + rest) == Parsed(n, rest)
  {
    var ds, s := Decimal(n), [marker] + Decimal(n) + CRLF + rest;
    assert s[1..] == ds + (CRLF + rest);
    DigitsStop(ds, CRLF + rest);
    assert s[1..|ds| + 1] == ds && s[|ds| + 1..|ds| + 3] == CRLF && s[|ds| + 3..] == rest;
    NumberOfDecimal(n);
  }

  lemma {:induction false} BulkReads(arg: Bytes, rest: Bytes)
    ensures ReadBulk(Bulk(arg) + rest) == Parsed(arg, rest)
  {
    var tail := arg + CRLF + rest;
    assert Bulk(arg) + rest == [DOLLAR] + Decimal(|arg|) + CRLF + tail;
    HeaderReads(DOLLAR, |arg|, tail);
    assert tail[..|arg|] == arg && tail[|arg|..|arg| + 2] == CRLF && tail[|arg| + 2..] == rest;
  }

  lemma {:induction false} BulksFromFront(args: seq<Bytes>)
    requires args != []
    ensures Bulks(args) == Bulk(args[0]) + Bulks(args[1..])
  {
    if |args| > 1 {
      var init := args[..|args| - 1];
      BulksFromFront(init);
      assert args[1..][..|args| - 2] == init[1..];
    }
  }

  lemma {:induction false} OneMoreRead(args: seq<Bytes>, s: Bytes, rest: Bytes)
    requires args != [] && ReadBulks(|args| - 1, s) == Parsed(args[1..], rest)
    ensures ReadBulks(|args|, Bulk(args[0]) + s) == Parsed(args, rest)
  {
    BulkReads(args[0], s);
    assert [args[0]] + args[1..] == args;
  }

  lemma {:induction false} FrontThenRest(args: seq<Bytes>, rest: Bytes)
    requires args != []
    ensures Bulks(args) + rest == Bulk(args[0]) + (Bulks(args[1..]) + rest)
  {
    BulksFromFront(args);
    assert Bulk(args[0]) + Bulks(args[1..]) + rest == Bulk(args[0]) + (Bulks(args[1..]) + rest);
  }

  lemma {:induction false} BulksRead(args: seq<Bytes>, rest: Bytes)
    ensures ReadBulks(|args|, Bulks(args) + rest) == Parsed(args, rest)
  {
    if args == [] {
      assert Bulks(args) + rest == rest;
    } else {
      FrontThenRest(args, rest);
      BulksRead(args[1..], rest);
      OneMoreRead(args, Bulks(args[1..]) + rest, rest);
    }
  }

  /** A command is read back exactly, whatever bytes its arguments hold and whatever follows. */
  lemma {:induction false} CommandReadsBack(args: seq<Bytes>, rest: Bytes)
    ensures ReadCommand(Encoded(args) + rest) == Parsed(args, rest)
  {
    assert Encoded(args) + rest == [STAR] + Decimal(|args|) + CRLF + (Bulks(args) + rest);
    HeaderReads(STAR, |args|, Bulks(args) + rest);
    BulksRead(args, rest);
  }

  /** A pipeline: the commands one after the other. */
  function Pipeline(cmds: seq<seq<Bytes>>): Bytes {
    if cmds == [] then [] else Encoded(cmds[0]) + Pipeline(cmds[1..])
  }

  /** Concatenated commands determine the commands. */
  lemma {:induction false} PipelineSplits(a: seq<seq<Bytes>>, b: seq<seq<Bytes>>)
    requires Pipeline(a) == Pipeline(b)
    ensures a == b
  {
    if a != [] && b != [] {
      CommandReadsBack(a[0], Pipeline(a[1..]));
      CommandReadsBack(b[0], Pipeline(b[1..]));
      PipelineSplits(a[1..], b[1..]);
      assert a == [a[0]] + a[1..] && b == [b[0]] + b[1..];
    }
  }
}
