/** Path and member names of the WordPress connector: lexical cleaning, the rejection tests of the
    extractor, the exclude list, and the classification of archive members. */
module PathNames {
  import opened Text

  datatype Option<+T> = None | Some(value: T)

  type Path = seq<string>

  // ---------------------------------------------------------------------------------------------
  // Prefix tests on strings, read as statements about components.

  predicate HasPrefix(s: string, p: string) {
    p <= s
  }

  predicate HasSuffix(s: string, p: string) {
    |p| <= |s| && s[|s| - |p|..] == p
  }

  /** The test "equal, or starts with e and a slash" is exactly a component prefix. */
  lemma {:induction false} PrefixIsComponentPrefix(s: string, e: string)
    ensures (s == e || HasPrefix(s, e + "/")) <==> Split(e) <= Split(s)
  {
    if HasPrefix(s, e + "/") {
      SplitAppend(e, s[|e| + 1..]);
      assert s == e + "/" + s[|e| + 1..];
    }
    if Split(e) <= Split(s) {
      var rest := Split(s)[|Split(e)|..];
      assert Split(s) == Split(e) + rest;
      JoinSplit(s);
      JoinSplit(e);
      if rest == [] {
        assert Split(s) == Split(e);
      } else {
        JoinAppend(Split(e), rest);
        assert s == e + "/" + Join(rest);
      }
    }
  }

  // ---------------------------------------------------------------------------------------------
  // Excluded directories.

  predicate IsSpace(c: char) {
    || '\t' <= c <= '\r' || c == ' ' || c == '\U{85}' || c == '\U{A0}' || c == '\U{1680}'
    || '\U{2000}' <= c <= '\U{200A}'
    || c == '\U{2028}' || c == '\U{2029}' || c == '\U{202F}' || c == '\U{205F}' || c == '\U{3000}'
  }

  function TrimSpace(s: string): string
    decreases |s|
  {
    if s == "" then s
    else if IsSpace(s[0]) then TrimSpace(s[1..])
    else if IsSpace(s[|s| - 1]) then TrimSpace(s[..|s| - 1])
    else s
  }

  function TrimSlash(s: string): string
    decreases |s|
  {
    if s == "" then s
    else if s[0] == SLASH then TrimSlash(s[1..])
    else if s[|s| - 1] == SLASH then TrimSlash(s[..|s| - 1])
    else s
  }

  /** An entry of the exclude list as it is compared: blanks, then slashes, trimmed from both ends. */
  function Entry(e: string): string {
    TrimSlash(TrimSpace(e))
  }

  /** The blanks, by code point. */
  lemma {:induction false} Blanks(c: char)
    ensures IsSpace(c) <==>
            var u := c as int;
            9 <= u <= 13 || u == 32 || u == 133 || u == 160 || u == 5760 || 8192 <= u <= 8202 ||
            u == 8232 || u == 8233 || u == 8239 || u == 8287 || u == 12288
  {
  }

  ghost predicate AllSpaces(s: string) {
    forall i | 0 <= i < |s| :: IsSpace(s[i])
  }

  lemma {:induction false} MoreInFront(c: char, left: string, core: string, right: string)
    ensures [c] + (left + core + right) == ([c] + left) + core + right
  {
  }

  lemma {:induction false} MoreBehind(left: string, core: string, right: string, c: char)
    ensures (left + core + right) + [c] == left + core + (right + [c])
  {
  }

  lemma {:induction false} SpaceInFront(c: char, s: string)
    requires IsSpace(c) && AllSpaces(s)
    ensures AllSpaces([c] + s)
  {
  }

  lemma {:induction false} SpaceBehind(s: string, c: char)
    requires AllSpaces(s) && IsSpace(c)
    ensures AllSpaces(s + [c])
  {
  }

  lemma {:induction false} TrimSpaceEnds(s: string)
    ensures var t := TrimSpace(s); t != "" ==> !IsSpace(t[0]) && !IsSpace(t[|t| - 1])
    decreases |s|
  {
    if s != "" {
      if IsSpace(s[0]) {
        TrimSpaceEnds(s[1..]);
      } else if IsSpace(s[|s| - 1]) {
        TrimSpaceEnds(s[..|s| - 1]);
      }
    }
  }

  /** Trimming takes nothing but blanks off both ends. */
  lemma {:induction false} TrimSpaceIs(s: string) returns (left: string, right: string)
    ensures s == left + TrimSpace(s) + right
    ensures AllSpaces(left) && AllSpaces(right)
    decreases |s|
  {
    if s == "" || !(IsSpace(s[0]) || IsSpace(s[|s| - 1])) {
      left, right := "", "";
    } else if IsSpace(s[0]) {
      var inner, after := TrimSpaceIs(s[1..]);
      assert s == [s[0]] + s[1..];
      MoreInFront(s[0], inner, TrimSpace(s[1..]), after);
      SpaceInFront(s[0], inner);
      left, right := [s[0]] + inner, after;
    } else {
      var before, inner := TrimSpaceIs(s[..|s| - 1]);
      assert s == s[..|s| - 1] + [s[|s| - 1]];
      MoreBehind(before, TrimSpace(s[..|s| - 1]), inner, s[|s| - 1]);
      SpaceBehind(inner, s[|s| - 1]);
      left, right := before, inner + [s[|s| - 1]];
    }
  }

  lemma {:induction false} TrimSlashIs(s: string) returns (left: string, right: string)
    ensures s == left + TrimSlash(s) + right
    ensures forall c | c in left || c in right :: c == '/'
    ensures var t := TrimSlash(s); t != "" ==> t[0] != '/' && t[|t| - 1] != '/'
    decreases |s|
  {
    if s == "" || (s[0] != SLASH && s[|s| - 1] != SLASH) {
      left, right := "", "";
    } else if s[0] == SLASH {
      var inner, after := TrimSlashIs(s[1..]);
      assert s == [s[0]] + s[1..];
      MoreInFront(s[0], inner, TrimSlash(s[1..]), after);
      left, right := [s[0]] + inner, after;
    } else {
      var before, inner := TrimSlashIs(s[..|s| - 1]);
      assert s == s[..|s| - 1] + [s[|s| - 1]];
      MoreBehind(before, TrimSlash(s[..|s| - 1]), inner, s[|s| - 1]);
      left, right := before, inner + [s[|s| - 1]];
    }
  }

  /** A text is its core between slashes, and that between blanks, both taken off as far as they go. */
  ghost predicate IsCore(core: string, e: string, blanks: (string, string), slashes: (string, string)) {
    var inner := slashes.0 + core + slashes.1;
    && e == blanks.0 + inner + blanks.1
    && AllSpaces(blanks.0) && AllSpaces(blanks.1)
    && (forall c | c in slashes.0 || c in slashes.1 :: c == '/')
    && (core != "" ==> core[0] != '/' && core[|core| - 1] != '/')
    && (inner != "" ==> !IsSpace(inner[0]) && !IsSpace(inner[|inner| - 1]))
  }

  /** What an entry of the exclude list is compared as: the text without the blanks around it and
      without the slashes around that. */
  lemma {:induction false} EntryIs(e: string)
    ensures exists blanks, slashes :: IsCore(Entry(e), e, blanks, slashes)
  {
    var blank0, blank1 := TrimSpaceIs(e);
    TrimSpaceEnds(e);
    var slash0, slash1 := TrimSlashIs(TrimSpace(e));
    assert IsCore(Entry(e), e, (blank0, blank1), (slash0, slash1));
  }

  predicate IsExcluded(exclude: seq<string>, rel: string) {
    if exclude == [] then false
    else
      var e := Entry(exclude[0]);
      if e != "" && (rel == e || HasPrefix(rel, e + "/")) then true
      else IsExcluded(exclude[1..], rel)
  }

  /** A directory is skipped exactly when the components of some non-blank entry are the first
      components of its path, so entries are anchored at the root of the tree. */
  lemma {:induction false} ExcludedIffComponentPrefix(exclude: seq<string>, rel: string)
    ensures IsExcluded(exclude, rel) <==>
            exists i | 0 <= i < |exclude| :: Entry(exclude[i]) != "" && Split(Entry(exclude[i])) <= Split(rel)
  {
    if exclude != [] {
      var tail := exclude[1..];
      PrefixIsComponentPrefix(rel, Entry(exclude[0]));
      ExcludedIffComponentPrefix(tail, rel);
      if j :| 0 <= j < |tail| && Entry(tail[j]) != "" && Split(Entry(tail[j])) <= Split(rel) {
        assert exclude[j + 1] == tail[j];
      }
      if i :| 0 <= i < |exclude| && Entry(exclude[i]) != "" && Split(Entry(exclude[i])) <= Split(rel) {
        if i > 0 {
          assert tail[i - 1] == exclude[i];
        }
      }
    }
  }

  /** Everything below an excluded directory would be excluded as well. */
  lemma {:induction false} ExclusionIsInherited(exclude: seq<string>, a: Path, b: Path)
    requires a != [] && a <= b
    requires forall c | c in b :: NoSlash(c)
    requires IsExcluded(exclude, Join(a))
    ensures IsExcluded(exclude, Join(b))
  {
    ExcludedIffComponentPrefix(exclude, Join(a));
    ExcludedIffComponentPrefix(exclude, Join(b));
    assert a == b[..|a|];
    SplitJoin(a);
    SplitJoin(b);
  }

  /** Nested directories of the same name are kept: an entry of one component decides on the
      first component of the path alone. */
  lemma {:induction false} SimpleEntryIsAnchored(e: string, p: Path)
    requires Entry(e) != "" && NoSlash(Entry(e))
    requires p != [] && forall c | c in p :: NoSlash(c)
    ensures IsExcluded([e], Join(p)) <==> p[0] == Entry(e)
  {
    ExcludedIffComponentPrefix([e], Join(p));
    SplitJoin(p);
    SplitPlain(Entry(e));
    assert [Entry(e)] <= p <==> p[0] == Entry(e);
    assert [e][0] == e;
  }

  // ---------------------------------------------------------------------------------------------
  // Lexical cleaning.

  predicate Ordinary(c: string) {
    c != "" && c != "." && c != ".." && NoSlash(c)
  }

  predicate Rooted(s: string) {
    s != "" && s[0] == SLASH
  }

  function Push(rooted: bool, stack: seq<string>, c: string): seq<string> {
    if c == "" || c == "." then stack
    else if c != ".." then stack + [c]
    else if stack != [] && stack[|stack| - 1] != ".." then stack[..|stack| - 1]
    else if rooted then stack
    else stack + [c]
  }

  function Fold(rooted: bool, stack: seq<string>, parts: seq<string>): seq<string>
    decreases |parts|
  {
    if parts == [] then stack
    else Fold(rooted, Push(rooted, stack, parts[0]), parts[1..])
  }

  /** The components left of a path string after cleaning. */
  function Stack(s: string): seq<string> {
    Fold(Rooted(s), [], Split(s))
  }

  function Render(rooted: bool, stack: seq<string>): string {
    if rooted then "/" + Join(stack)
    else if stack == [] then "."
    else Join(stack)
  }

  function Clean(s: string): string {
    Render(Rooted(s), Stack(s))
  }

  /** Joining two names cleans the result; an empty element is ignored. */
  function JoinPath(root: string, name: string): string {
    if root == "" && name == "" then ""
    else if root == "" then Clean(name)
    else if name == "" then Clean(root)
    else Clean(root + "/" + name)
  }

  lemma {:induction false} JoinIgnoresEmpty(name: string)
    ensures JoinPath(name, "") == JoinPath("", name)
    ensures JoinPath(name, "") == if name == "" then "" else Clean(name)
  {
  }

  /** Shape of a cleaned path: `ups` parent steps followed by ordinary components. */
  ghost predicate Cleaned(stack: seq<string>, ups: nat) {
    && ups <= |stack|
    && (forall i | 0 <= i < ups :: stack[i] == "..")
    && (forall i | ups <= i < |stack| :: Ordinary(stack[i]))
  }

  lemma {:induction false} FoldCleaned(rooted: bool, stack: seq<string>, ups: nat, parts: seq<string>) returns (k: nat)
    requires Cleaned(stack, ups) && (rooted ==> ups == 0)
    requires forall c | c in parts :: NoSlash(c)
    ensures Cleaned(Fold(rooted, stack, parts), k) && ups <= k && (rooted ==> k == 0)
    decreases |parts|
  {
    if parts == [] {
      k := ups;
    } else {
      var next := Push(rooted, stack, parts[0]);
      var u := if |next| > |stack| && parts[0] == ".." then |next| else ups;
      k := FoldCleaned(rooted, next, u, parts[1..]);
    }
  }

  lemma {:induction false} FoldOrdinary(rooted: bool, stack: seq<string>, parts: seq<string>)
    requires forall c | c in parts :: Ordinary(c)
    ensures Fold(rooted, stack, parts) == stack + parts
    decreases |parts|
  {
    if parts != [] {
      assert Ordinary(parts[0]);
      FoldOrdinary(rooted, stack + [parts[0]], parts[1..]);
      assert stack + [parts[0]] + parts[1..] == stack + parts;
    } else {
      assert stack + parts == stack;
    }
  }

  lemma {:induction false} FoldAppend(rooted: bool, stack: seq<string>, a: seq<string>, b: seq<string>)
    ensures Fold(rooted, stack, a + b) == Fold(rooted, Fold(rooted, stack, a), b)
    decreases |a|
  {
    if a == [] {
      assert a + b == b;
    } else {
      assert (a + b)[1..] == a[1..] + b;
      FoldAppend(rooted, Push(rooted, stack, a[0]), a[1..], b);
    }
  }

  /** What lexical cleaning does to the components, wherever they stand: empty ones and dots go, and a
      parent step takes the ordinary component before it away. Together with FoldOrdinary, and with
      parent steps at the start, these laws determine the result. */
  lemma {:induction false} CleaningLaws(rooted: bool, a: seq<string>, b: seq<string>, c: string)
    requires Ordinary(c)
    ensures Fold(rooted, [], a + [""] + b) == Fold(rooted, [], a + b)
    ensures Fold(rooted, [], a + ["."] + b) == Fold(rooted, [], a + b)
    ensures Fold(rooted, [], a + [c, ".."] + b) == Fold(rooted, [], a + b)
  {
    var stack := Fold(rooted, [], a);
    FoldAppend(rooted, [], a, b);
    Passed(rooted, a, [""], b);
    Passed(rooted, a, ["."], b);
    Passed(rooted, a, [c, ".."], b);
    assert [""][1..] == [] && ["."][1..] == [] && [c, ".."][1..] == [".."] && [".."][1..] == [];
    assert Fold(rooted, stack, [""]) == stack && Fold(rooted, stack, ["."]) == stack;
    assert Push(rooted, stack, c) == stack + [c];
    assert Push(rooted, stack + [c], "..") == stack;
    assert Fold(rooted, stack, [c, ".."]) == Fold(rooted, stack + [c], [".."]) == stack;
  }

  lemma {:induction false} Passed(rooted: bool, a: seq<string>, mid: seq<string>, b: seq<string>)
    ensures Fold(rooted, [], a + mid + b) == Fold(rooted, Fold(rooted, Fold(rooted, [], a), mid), b)
  {
    FoldAppend(rooted, [], a + mid, b);
    FoldAppend(rooted, [], a, mid);
  }

  /** Parent steps at the start stay in a relative path and vanish at the root. */
  lemma {:induction false} LeadingParents(rooted: bool, ups: seq<string>, rest: seq<string>)
    requires forall i | 0 <= i < |ups| :: ups[i] == ".."
    requires forall c | c in rest :: Ordinary(c)
    ensures Fold(rooted, [], ups + rest) == (if rooted then [] else ups) + rest
  {
    ParentsOnly(rooted, [], ups);
    FoldAppend(rooted, [], ups, rest);
    FoldOrdinary(rooted, if rooted then [] else ups, rest);
    assert [] + ups == ups;
  }

  lemma {:induction false} ParentsOnly(rooted: bool, stack: seq<string>, ups: seq<string>)
    requires forall i | 0 <= i < |ups| :: ups[i] == ".."
    requires forall i | 0 <= i < |stack| :: stack[i] == ".."
    requires rooted ==> stack == []
    ensures Fold(rooted, stack, ups) == if rooted then [] else stack + ups
    decreases |ups|
  {
    if ups != [] {
      assert ups[0] == "..";
      ParentsOnly(rooted, if rooted then [] else stack + [".."], ups[1..]);
      assert stack + [".."] + ups[1..] == stack + ups;
    } else {
      assert stack + ups == stack;
    }
  }

  /** A cleaned path is clean, and absolute if and only if the path was. */
  lemma {:induction false} CleanIsIdempotent(s: string)
    ensures Clean(Clean(s)) == Clean(s) && (Rooted(Clean(s)) <==> Rooted(s))
  {
    var ups := FoldCleaned(Rooted(s), [], 0, Split(s));
    var stack := Stack(s);
    CleanedAgain(Rooted(s), stack, ups);
    RenderedRoot(Rooted(s), stack, ups);
    RenderedSplit(Rooted(s), stack);
  }

  lemma {:induction false} CleanedAgain(rooted: bool, stack: seq<string>, ups: nat)
    requires Cleaned(stack, ups) && (rooted ==> ups == 0)
    ensures Fold(rooted, [], stack) == stack
    ensures Fold(rooted, [], [""] + stack) == stack && Fold(rooted, [], ["."]) == [] && Fold(rooted, [], ["", ""]) == []
  {
    assert stack == stack[..ups] + stack[ups..];
    LeadingParents(rooted, stack[..ups], stack[ups..]);
    assert ([""] + stack)[1..] == stack;
    assert ["."][1..] == [] && ["", ""][1..] == [""] && [""][1..] == [];
  }

  lemma {:induction false} CleanedNoSlash(stack: seq<string>, ups: nat)
    requires Cleaned(stack, ups)
    ensures forall c | c in stack :: NoSlash(c) && c != ""
  {
    forall c | c in stack
      ensures NoSlash(c) && c != ""
    {
      var i :| 0 <= i < |stack| && stack[i] == c;
    }
  }

  lemma {:induction false} RenderedRoot(rooted: bool, stack: seq<string>, ups: nat)
    requires Cleaned(stack, ups)
    ensures Rooted(Render(rooted, stack)) <==> rooted
    ensures forall c | c in stack :: NoSlash(c) && c != ""
  {
    CleanedNoSlash(stack, ups);
    if !rooted && stack != [] {
      SplitJoin(stack);
      assert stack[0] in stack;
      FirstOfSplit(Join(stack));
    }
  }

  lemma {:induction false} FirstOfSplit(s: string)
    ensures Rooted(s) ==> Split(s)[0] == ""
  {
  }

  lemma {:induction false} RenderedSplit(rooted: bool, stack: seq<string>)
    requires forall c | c in stack :: NoSlash(c) && c != ""
    ensures Split(Render(rooted, stack)) ==
            if rooted then (if stack == [] then ["", ""] else [""] + stack)
            else if stack == [] then ["."] else stack
  {
    SplitPlain("");
    SplitPlain(".");
    if stack != [] {
      SplitJoin(stack);
    }
    if rooted {
      assert "" + "/" + Join(stack) == "/" + Join(stack);
      SplitAppend("", Join(stack));
      assert [""] + [""] == ["", ""];
    }
  }

  // ---------------------------------------------------------------------------------------------
  // Where an archive member is extracted.

  /** The extractor's rejection tests on a cleaned name. */
  predicate Rejected(clean: string) {
    clean == ".." || Rooted(clean) || HasPrefix(clean, "../")
  }

  /** The tree position a content-relative member name stands for, or None if it is rejected. */
  function Resolve(rel: string): Option<Path> {
    var clean := Clean(rel);
    if Rejected(clean) then None
    else Some(if clean == "." then [] else Split(clean))
  }

  lemma {:induction false} RenderedRejection(rooted: bool, stack: seq<string>, ups: nat)
    requires Cleaned(stack, ups) && (rooted ==> ups == 0)
    ensures Rejected(Render(rooted, stack)) <==> rooted || ups > 0
    ensures !rooted && stack != [] ==> Split(Join(stack)) == stack && Join(stack) != "."
  {
    if !rooted && stack != [] {
      SplitJoin(stack);
      var s := Join(stack);
      PrefixIsComponentPrefix(s, "..");
      SplitPlain("..");
      SplitPlain(".");
      RootedSplit(s);
      assert [".."] <= stack <==> stack[0] == "..";
    } else if !rooted {
      assert !HasPrefix(".", "../");
    }
  }

  lemma {:induction false} RootedSplit(s: string)
    ensures Rooted(s) <==> |Split(s)| >= 2 && Split(s)[0] == ""
  {
  }

  /** Resolve describes the cleaned components: it succeeds exactly for relative names that clean
      to no parent step, and then yields those components, all of them ordinary. */
  lemma {:induction false} ResolveExact(rel: string) returns (ups: nat)
    ensures Cleaned(Stack(rel), ups)
    ensures Resolve(rel).Some? <==> !Rooted(rel) && ups == 0
    ensures Resolve(rel).Some? ==> Resolve(rel).value == Stack(rel) && forall c | c in Stack(rel) :: Ordinary(c)
  {
    ups := FoldCleaned(Rooted(rel), [], 0, Split(rel));
    RenderedRejection(Rooted(rel), Stack(rel), ups);
    forall c | c in Stack(rel) && ups == 0
      ensures Ordinary(c)
    {
      var i :| 0 <= i < |Stack(rel)| && Stack(rel)[i] == c;
    }
  }

  /** How far below its start a walk along the components ends. */
  function Depth(parts: seq<string>): int {
    if parts == [] then 0
    else (if parts[0] == "" || parts[0] == "." then 0 else if parts[0] == ".." then -1 else 1) + Depth(parts[1..])
  }

  lemma {:induction false} FoldKeepsBottom(stack: seq<string>, parts: seq<string>)
    requires stack != [] && stack[0] == ".."
    ensures var r := Fold(false, stack, parts); r != [] && r[0] == ".."
    decreases |parts|
  {
    if parts != [] {
      FoldKeepsBottom(Push(false, stack, parts[0]), parts[1..]);
    }
  }

  lemma {:induction false} FoldClimbs(stack: seq<string>, parts: seq<string>)
    requires forall i | 0 <= i < |stack| :: stack[i] != ".."
    ensures (var r := Fold(false, stack, parts); r != [] && r[0] == "..") <==>
            exists i | 0 <= i <= |parts| :: |stack| + Depth(parts[..i]) < 0
    decreases |parts|
  {
    if parts == [] {
      assert parts[..0] == [];
    } else {
      var next, tail := Push(false, stack, parts[0]), parts[1..];
      forall i | 1 <= i <= |parts|
        ensures parts[..i][1..] == tail[..i - 1] && parts[..i][0] == parts[0]
      {
      }
      assert parts[..0] == [] && tail[..0] == [];
      if stack == [] && parts[0] == ".." {
        FoldKeepsBottom(next, tail);
        assert Depth(parts[..1]) == -1;
      } else {
        FoldClimbs(next, tail);
        if j :| 0 <= j <= |tail| && |next| + Depth(tail[..j]) < 0 {
          assert |stack| + Depth(parts[..j + 1]) < 0;
        }
        if i :| 0 <= i <= |parts| && |stack| + Depth(parts[..i]) < 0 {
          assert i > 0;
          assert |next| + Depth(tail[..i - 1]) < 0;
        }
      }
    }
  }

  /** A name is rejected exactly when it is absolute or, read component by component, at some
      point leaves the directory it starts in. */
  lemma {:induction false} RejectedIffEscapes(rel: string)
    ensures Resolve(rel).None? <==>
            Rooted(rel) || exists i | 0 <= i <= |Split(rel)| :: Depth(Split(rel)[..i]) < 0
  {
    var ups := ResolveExact(rel);
    if !Rooted(rel) {
      var parts, r := Split(rel), Stack(rel);
      var empty: seq<string> := [];
      FoldClimbs(empty, parts);
      assert ups > 0 <==> r != [] && r[0] == "..";
      var climbs := r != [] && r[0] == "..";
      if climbs {
        var i :| 0 <= i <= |parts| && |empty| + Depth(parts[..i]) < 0;
        assert Depth(Split(rel)[..i]) < 0;
      } else {
        forall i | 0 <= i <= |parts|
          ensures Depth(parts[..i]) >= 0
        {
          assert |empty| + Depth(parts[..i]) >= 0;
        }
      }
    }
  }

  /** Containment: whatever the extractor creates is the cleaned root followed only by ordinary
      components, the ones Resolve reports. */
  lemma {:induction false} ExtractedUnderRoot(root: string, rel: string)
    requires Resolve(rel).Some?
    ensures JoinPath(root, Clean(rel)) == Render(Rooted(root), Stack(root) + Resolve(rel).value)
    ensures forall c | c in Resolve(rel).value :: Ordinary(c)
  {
    var ups := ResolveExact(rel);
    var stack := Stack(rel);
    var clean := Clean(rel);
    RenderedRejection(false, stack, 0);
    SplitPlain(".");
    SplitPlain("");
    assert Fold(Rooted(root), Stack(root), Split(clean)) == Stack(root) + stack by {
      if stack == [] {
        assert !Rooted(rel);
        assert clean == "." && Split(clean) == ["."];
        assert ["."][1..] == [];
        assert Fold(Rooted(root), Stack(root), ["."]) == Fold(Rooted(root), Stack(root), []);
        assert Stack(root) + stack == Stack(root);
      } else {
        FoldOrdinary(Rooted(root), Stack(root), stack);
      }
    }
    if root == "" {
      assert [""][1..] == [];
      assert Stack(root) == Fold(false, [], []) == [];
    } else {
      SplitAppend(root, clean);
      FoldAppend(Rooted(root), [], Split(root), Split(clean));
    }
  }

  /** Names the walk writes are already clean, up to a directory's trailing slash. */
  lemma {:induction false} WalkedNamesAreClean(p: Path)
    requires p != [] && forall c | c in p :: Ordinary(c)
    ensures Clean(Join(p)) == Join(p) == Clean(Join(p) + "/")
    ensures Resolve(Join(p)) == Some(p) == Resolve(Join(p) + "/")
  {
    SplitJoin(p);
    var s := Join(p);
    assert Ordinary(p[0]) by { assert p[0] in p; }
    assert !Rooted(s) by {
      RootedSplit(s);
    }
    assert s != "" by { SplitPlain(""); }
    FoldOrdinary(false, [], p);
    assert [] + p == p;
    assert Cleaned(p, 0);
    RenderedRejection(false, p, 0);
    assert s + "/" == s + "/" + "";
    SplitAppend(s, "");
    FoldAppend(false, [], p, [""]);
    assert [""][1..] == [];
    assert Fold(false, p, [""]) == Fold(false, p, []);
  }

  // ---------------------------------------------------------------------------------------------
  // Archive members.

  const DB_ENTRY := "db/dump.sql"
  const FILES_PREFIX := "files/"
  const LEGACY_PREFIX := "wp-content/"

  predicate IsDBDump(name: string) {
    if name == DB_ENTRY || name == "db.sql" then true
    else if !HasSuffix(name, ".sql") then false
    else if SLASH in name then HasPrefix(name, "db/") && SLASH !in name[3..]
    else true
  }

  function ContentRel(name: string): Option<string> {
    if HasPrefix(name, FILES_PREFIX) then Some(name[|FILES_PREFIX|..])
    else if HasPrefix(name, LEGACY_PREFIX) then Some(name[|LEGACY_PREFIX|..])
    else None
  }

  lemma {:induction false} TwoComponents(name: string)
    requires HasPrefix(name, "db/")
    ensures Split(name) == ["db"] + Split(name[3..])
    ensures NoSlash(name[3..]) <==> |Split(name[3..])| == 1
  {
    var rest := name[3..];
    assert name == "db" + "/" + rest;
    SplitPlain("db");
    SplitAppend("db", rest);
    OneComponent(rest);
  }

  lemma {:induction false} OneComponent(s: string)
    ensures NoSlash(s) <==> |Split(s)| == 1
  {
    JoinSplit(s);
    assert NoSlash(Split(s)[0]);
    if NoSlash(s) {
      SplitPlain(s);
    }
  }

  lemma {:induction false} FixedDumpNames()
    ensures HasSuffix(DB_ENTRY, ".sql") && HasSuffix("db.sql", ".sql") && NoSlash("db.sql")
    ensures HasPrefix(DB_ENTRY, "db/") && NoSlash(DB_ENTRY[3..]) && !NoSlash(DB_ENTRY)
  {
    assert DB_ENTRY[2] == SLASH;
  }

  lemma {:induction false} DumpName()
    ensures Split(DB_ENTRY) == ["db", "dump.sql"]
  {
    FixedDumpNames();
    TwoComponents(DB_ENTRY);
    SplitPlain(DB_ENTRY[3..]);
    assert DB_ENTRY[3..] == "dump.sql";
  }

  lemma {:induction false} SplitUnderDb(name: string)
    ensures |Split(name)| == 2 && Split(name)[0] == "db" ==> HasPrefix(name, "db/") && !NoSlash(name)
  {
    if |Split(name)| == 2 && Split(name)[0] == "db" {
      OneComponent(name);
      PrefixIsComponentPrefix(name, "db");
      SplitPlain("db");
      assert Split("db") <= Split(name);
    }
  }

  /** A dump is any name ending in ".sql" that lies at the archive root or directly under db/. */
  lemma {:induction false} DumpNames(name: string)
    ensures IsDBDump(name) <==>
            HasSuffix(name, ".sql") && (|Split(name)| == 1 || (|Split(name)| == 2 && Split(name)[0] == "db"))
  {
    FixedDumpNames();
    OneComponent(name);
    SplitUnderDb(name);
    if HasPrefix(name, "db/") {
      TwoComponents(name);
    }
  }

  /** No member is both a dump and content, and both content prefixes give the same name back. */
  lemma {:induction false} MemberKindsAreDisjoint(name: string, rel: string)
    ensures IsDBDump(name) ==> ContentRel(name) == None
    ensures ContentRel(FILES_PREFIX + rel) == Some(rel) == ContentRel(LEGACY_PREFIX + rel)
  {
    if HasPrefix(name, FILES_PREFIX) {
      assert name[0] == 'f' && name[5] == SLASH;
    }
    if HasPrefix(name, LEGACY_PREFIX) {
      assert name[0] == 'w' && name[10] == SLASH;
    }
    assert (LEGACY_PREFIX + rel)[0] == 'w';
  }

  lemma {:induction false} UnderPrefix(dir: string, name: string)
    requires NoSlash(dir)
    ensures HasPrefix(name, dir + "/") <==> |Split(name)| >= 2 && Split(name)[0] == dir
    ensures HasPrefix(name, dir + "/") ==> Split(name[|dir| + 1..]) == Split(name)[1..]
  {
    SplitPlain(dir);
    PrefixIsComponentPrefix(name, dir);
    OneComponent(name);
    assert [dir] <= Split(name) <==> Split(name)[0] == dir;
    if HasPrefix(name, dir + "/") {
      var rest := name[|dir| + 1..];
      assert name == dir + "/" + rest;
      SplitAppend(dir, rest);
    }
  }

  /** Content is exactly what lies below files/ or wp-content/; everything else that is no dump is
      unknown. The rest of the name is the path below wp-content. */
  lemma {:induction false} ContentNames(name: string)
    ensures ContentRel(name).Some? <==>
            |Split(name)| >= 2 && (Split(name)[0] == "files" || Split(name)[0] == "wp-content")
    ensures ContentRel(name).Some? ==> Split(ContentRel(name).value) == Split(name)[1..]
  {
    assert "files" + "/" == FILES_PREFIX && "wp-content" + "/" == LEGACY_PREFIX;
    UnderPrefix("files", name);
    UnderPrefix("wp-content", name);
  }
}
