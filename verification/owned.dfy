/**
 * `OwnedPath` of src/path/owned.rs: a path held as a growable string.
 * `push` appends the components of a segment one at a time, putting a
 * separator in front of each one when the path does not already end in one;
 * `..` cuts the path back at its last separator, `.` adds nothing, the root
 * only starts an empty path. `into_components` resolves the components of a
 * path into the list of names it leads to.
 */
module Owned {
  import opened Io
  import opened PathComponents

  /** No two separators in a row. */
  ghost predicate NoDoubleSep(s: string)
  {
    forall j, k :: 0 <= j < k < |s| && k == j + 1 ==> !(s[j] == Sep && s[k] == Sep)
  }

  /** `str::trim_end_matches(SEPARATOR)`: the longest prefix that does not end in a separator. */
  function TrimEndSep(s: string): (t: string)
    ensures |t| <= |s| && t == s[..|t|]
    ensures t == [] || t[|t| - 1] != Sep
    ensures forall j :: |t| <= j < |s| ==> s[j] == Sep
  {
    if s != [] && s[|s| - 1] == Sep then TrimEndSep(s[..|s| - 1]) else s
  }

  /** `str::rfind(SEPARATOR)`: the index of the last separator, if any. */
  function RFind(s: string): (r: Option<nat>)
    ensures r.Some? ==> r.value < |s| && s[r.value] == Sep
    ensures r.Some? ==> forall j :: r.value < j < |s| ==> s[j] != Sep
    ensures r.None? ==> Sep !in s
  {
    if s == [] then None
    else if s[|s| - 1] == Sep then Some(|s| - 1)
    else RFind(s[..|s| - 1])
  }

  /** The path as `push` finds it before each component: a separator added unless empty or already ending in one. */
  function WithSep(inner: string): (s: string)
    ensures inner == [] ==> s == []
    ensures inner != [] ==> |inner| <= |s| <= |inner| + 1 && s[..|inner|] == inner && s[|s| - 1] == Sep
  {
    if inner != [] && inner[|inner| - 1] != Sep then inner + [Sep] else inner
  }

  /** What one component does to the path inside `push`. */
  function PushStep(inner: string, c: Component): string
  {
    var s := WithSep(inner);
    match c
    case CurrentDir => s
    case ParentDir =>
      (match RFind(TrimEndSep(s))
       case Some(i) => s[..i]
       case None => s)
    case Normal(name) => s + name
    case RootDir => if s == [] then [Sep] else s
  }

  /** The components `cs` pushed one after another onto `inner`. */
  function PushAll(inner: string, cs: seq<Component>): string
  {
    if cs == [] then inner else PushStep(PushAll(inner, cs[..|cs| - 1]), cs[|cs| - 1])
  }

  /** The segments pushed one after another onto `inner`, each tokenised as `push` does. */
  function PushEach(inner: string, segments: seq<string>): string
  {
    if segments == [] then inner
    else PushAll(PushEach(inner, segments[..|segments| - 1]), ComponentsOf(segments[|segments| - 1]))
  }

  /** Entries ending a list that are `.` are dropped (the inner loop of `into_components`). */
  function DropDots(d: seq<string>): (r: seq<string>)
    ensures |r| <= |d| && r == d[..|r|]
    ensures r == [] || r[|r| - 1] != "."
  {
    if d != [] && d[|d| - 1] == "." then DropDots(d[..|d| - 1]) else d
  }

  /** `Vec::pop`, its value discarded. */
  function DropLast(d: seq<string>): seq<string>
  {
    if d == [] then [] else d[..|d| - 1]
  }

  /** What one component does to the list in `into_components`. */
  function ResolveStep(d: seq<string>, c: Component): seq<string>
  {
    match c
    case ParentDir => DropLast(DropDots(d))
    case Normal(p) => d + [PushAll([], ComponentsOf(p))]
    case _ => d
  }

  /** The list `into_components` builds from components `cs`. */
  function Resolve(cs: seq<Component>): seq<string>
  {
    if cs == [] then [] else ResolveStep(Resolve(cs[..|cs| - 1]), cs[|cs| - 1])
  }

  /** The normal components of a list of names. */
  function Names(segments: seq<string>): (r: seq<Component>)
    ensures |r| == |segments| && forall j :: 0 <= j < |r| ==> r[j] == Normal(segments[j])
  {
    if segments == [] then [] else Names(segments[..|segments| - 1]) + [Normal(segments[|segments| - 1])]
  }

  /** A name is a single normal component. */
  lemma NameComponents(n: string)
    requires IsName(n)
    ensures ComponentsOf(n) == [Normal(n)]
  {
    assert FirstMatch(n, IsSep).None?;
    assert Split(n) == [n];
    assert [n][1..] == [];
  }

  /** `OwnedPath::from(name)` is the name itself. */
  lemma NameFromItself(n: string)
    requires IsName(n)
    ensures PushAll([], ComponentsOf(n)) == n
  {
    NameComponents(n);
    assert [Normal(n)][..0] == [];
  }

  /** Every step keeps a path free of doubled separators, as long as names hold no separator. */
  lemma PushStepNoDoubleSep(inner: string, c: Component)
    requires NoDoubleSep(inner)
    requires c.Normal? ==> c.name != [] && Sep !in c.name
    ensures NoDoubleSep(PushStep(inner, c))
  {
    var s := WithSep(inner);
    assert NoDoubleSep(s) by {
      if s != inner {
        assert s == inner + [Sep] && inner[|inner| - 1] != Sep;
      }
    }
    match c {
      case Normal(name) =>
        var t := s + name;
        forall j | 0 <= j < |t| - 1
          ensures !(t[j] == Sep && t[j + 1] == Sep)
        {
          if j + 1 < |s| {
            assert t[j] == s[j] && t[j + 1] == s[j + 1];
          } else {
            assert t[j + 1] == name[j + 1 - |s|];
          }
        }
      case ParentDir =>
        var r := RFind(TrimEndSep(s));
        if r.Some? {
          var t := s[..r.value];
          forall j | 0 <= j < |t| - 1
            ensures !(t[j] == Sep && t[j + 1] == Sep)
          {
            assert t[j] == s[j] && t[j + 1] == s[j + 1];
          }
        }
      case _ =>
    }
  }

  /** Pushing components whose names hold no separator keeps a path free of doubled separators. */
  lemma {:induction false} PushAllNoDoubleSep(inner: string, cs: seq<Component>)
    requires NoDoubleSep(inner)
    requires forall j :: 0 <= j < |cs| && cs[j].Normal? ==> cs[j].name != [] && Sep !in cs[j].name
    ensures NoDoubleSep(PushAll(inner, cs))
  {
    if cs != [] {
      PushAllNoDoubleSep(inner, cs[..|cs| - 1]);
      PushStepNoDoubleSep(PushAll(inner, cs[..|cs| - 1]), cs[|cs| - 1]);
    }
  }

  /** Pushing a whole segment keeps a path free of doubled separators. */
  lemma PushSegmentNoDoubleSep(inner: string, segment: string)
    requires NoDoubleSep(inner)
    ensures NoDoubleSep(PushAll(inner, ComponentsOf(segment)))
  {
    ComponentsShape(segment);
    PushAllNoDoubleSep(inner, ComponentsOf(segment));
  }

  /** Joining one more fragment adds a separator and the fragment. */
  lemma {:induction false} JoinSnoc(fs: seq<string>, x: string)
    requires |fs| >= 1
    ensures Join(fs + [x]) == Join(fs) + [Sep] + x
    decreases |fs|
  {
    if |fs| > 1 {
      assert (fs + [x])[1..] == fs[1..] + [x];
      JoinSnoc(fs[1..], x);
    }
  }

  /** An empty fragment at the end adds no component. */
  lemma {:induction false} FragmentsSnocEmpty(fs: seq<string>)
    ensures Fragments(fs + [[]]) == Fragments(fs)
    decreases |fs|
  {
    if fs == [] {
      assert fs + [[]] == [[]];
    } else {
      assert (fs + [[]])[1..] == fs[1..] + [[]];
      FragmentsSnocEmpty(fs[1..]);
    }
  }

  /** A separator at the end of a non-empty segment changes nothing it yields. */
  lemma TrailingSeparatorIgnored(p: string)
    requires p != []
    ensures ComponentsOf(p + [Sep]) == ComponentsOf(p)
  {
    var fs := Split(p);
    JoinSplit(p);
    JoinSnoc(fs, []);
    assert Join(fs + [[]]) == p + [Sep];
    SplitJoin(fs + [[]]);
    FragmentsSnocEmpty(fs);
    assert IsAbsolute(p + [Sep]) == IsAbsolute(p);
  }

  /** Names fragment into their normal components. */
  lemma {:induction false} FragmentsOfNames(segments: seq<string>)
    requires forall j :: 0 <= j < |segments| ==> IsName(segments[j])
    ensures Fragments(segments) == Names(segments)
    decreases |segments|
  {
    if segments != [] {
      FragmentsOfNames(segments[1..]);
      assert Names(segments) == [Normal(segments[0])] + Names(segments[1..]);
    }
  }

  /** `into_components` of the normal components of names gives the names back. */
  lemma {:induction false} ResolveNames(segments: seq<string>)
    requires forall j :: 0 <= j < |segments| ==> IsName(segments[j])
    ensures Resolve(Names(segments)) == segments
    decreases |segments|
  {
    if segments != [] {
      var init, last := segments[..|segments| - 1], segments[|segments| - 1];
      forall j | 0 <= j < |init| ensures IsName(init[j]) {
        assert init[j] == segments[j];
      }
      ResolveNames(init);
      ResolveSnocName(Names(init), last);
      assert Names(segments) == Names(init) + [Normal(last)];
    }
  }

  /** A name at the end of the components adds that name at the end of the list. */
  lemma ResolveSnocName(cs: seq<Component>, n: string)
    requires IsName(n)
    ensures Resolve(cs + [Normal(n)]) == Resolve(cs) + [n]
  {
    assert (cs + [Normal(n)])[..|cs|] == cs;
    NameFromItself(n);
  }

  /** Pushing names one by one onto an empty path joins them with separators. */
  lemma {:induction false} PushNames(segments: seq<string>)
    requires |segments| >= 1 && forall j :: 0 <= j < |segments| ==> IsName(segments[j])
    ensures PushEach([], segments) == Join(segments)
    decreases |segments|
  {
    var n := |segments|;
    var last, init := segments[n - 1], segments[..n - 1];
    assert init + [last] == segments;
    if n > 1 {
      forall j | 0 <= j < |init| ensures IsName(init[j]) {
        assert init[j] == segments[j];
      }
      PushNames(init);
      PushNameAfterNames(init, last);
    } else {
      PushEachName([], [], last);
    }
  }

  /** One more name after names that pushed to their join. */
  lemma PushNameAfterNames(init: seq<string>, last: string)
    requires |init| >= 1 && IsName(init[|init| - 1]) && IsName(last)
    requires PushEach([], init) == Join(init)
    ensures PushEach([], init + [last]) == Join(init + [last])
  {
    JoinEndsInName(init);
    PushEachName(init, Join(init), last);
    JoinSnoc(init, last);
  }

  /** A join whose last part is a name does not end in a separator, so pushing adds one. */
  lemma JoinEndsInName(fs: seq<string>)
    requires |fs| >= 1 && IsName(fs[|fs| - 1])
    ensures WithSep(Join(fs)) == Join(fs) + [Sep]
  {
    var w := fs[|fs| - 1];
    assert Sep !in w;
    assert w[|w| - 1] in w;
    JoinLast(fs);
    EndsWithoutSep(Join(fs));
  }

  /** A non-empty path not ending in a separator gets one before the next component. */
  lemma EndsWithoutSep(p: string)
    requires p != [] && p[|p| - 1] != Sep
    ensures WithSep(p) == p + [Sep]
  {
  }

  /** A join of names ends in the last name's last character, so not in a separator. */
  lemma {:induction false} JoinLast(fs: seq<string>)
    requires |fs| >= 1 && fs[|fs| - 1] != [] && Sep !in fs[|fs| - 1]
    ensures |Join(fs)| >= 1 && Join(fs)[|Join(fs)| - 1] == fs[|fs| - 1][|fs[|fs| - 1]| - 1]
    decreases |fs|
  {
    if |fs| > 1 {
      JoinLast(fs[1..]);
    }
  }

  /** The names joined by separators resolve back into the names. */
  lemma JoinThenResolve(segments: seq<string>)
    requires |segments| >= 1 && forall j :: 0 <= j < |segments| ==> IsName(segments[j])
    ensures Resolve(ComponentsOf(Join(segments))) == segments
  {
    var path := Join(segments);
    SplitJoin(segments);
    FragmentsOfNames(segments);
    JoinFirst(segments);
    assert !IsAbsolute(path);
    var fs := Split(path);
    assert fs == segments;
    assert Fragments(fs) == Names(segments);
    assert ComponentsOf(path) == [] + Fragments(fs);
    var cs := ComponentsOf(path);
    assert cs == Names(segments);
    ResolveNames(segments);
    assert Resolve(cs) == segments;
  }

  /**
   * Names pushed onto an empty path come back from `into_components`, in
   * order: pushing and resolving are inverse for plain names.
   */
  lemma PushThenResolve(segments: seq<string>)
    requires |segments| >= 1 && forall j :: 0 <= j < |segments| ==> IsName(segments[j])
    ensures Resolve(ComponentsOf(PushEach([], segments))) == segments
  {
    PushNames(segments);
    JoinThenResolve(segments);
  }

  /** A join starts with the first fragment. */
  lemma JoinFirst(fs: seq<string>)
    requires |fs| >= 1 && fs[0] != []
    ensures |Join(fs)| >= 1 && Join(fs)[0] == fs[0][0]
  {
  }

  /** Every entry of a resolved list is a name when every normal component carries one. */
  lemma {:induction false} ResolveGivesNames(cs: seq<Component>)
    requires forall j :: 0 <= j < |cs| && cs[j].Normal? ==> IsName(cs[j].name)
    ensures forall j :: 0 <= j < |Resolve(cs)| ==> IsName(Resolve(cs)[j])
    decreases |cs|
  {
    if cs != [] {
      var d := Resolve(cs[..|cs| - 1]);
      ResolveGivesNames(cs[..|cs| - 1]);
      match cs[|cs| - 1]
      case Normal(p) =>
        NameFromItself(p);
      case ParentDir =>
        assert DropDots(d) == d;
      case _ =>
    }
  }

  /**
   * The entries `into_components` builds from a path are all names, so its
   * loop that drops trailing `.` entries never drops anything: `..` drops
   * exactly the last name, if there is one.
   */
  lemma ResolvedPathNames(path: string)
    ensures forall j :: 0 <= j < |Resolve(ComponentsOf(path))| ==> IsName(Resolve(ComponentsOf(path))[j])
    ensures forall d :: d == Resolve(ComponentsOf(path)) ==> ResolveStep(d, ParentDir) == DropLast(d)
  {
    ComponentsShape(path);
    ResolveGivesNames(ComponentsOf(path));
  }

  /** `..` right after a single name keeps the name and a separator: "a" then ".." is "a/". */
  lemma ParentOfSingleName()
    ensures PushStep("a", ParentDir) == "a/"
  {
    assert WithSep("a") == "a/";
    assert TrimEndSep("a/") == "a";
  }

  /** `..` right after the root and one name drops the root as well: "/a" then ".." is "". */
  lemma ParentOfRootedName()
    ensures PushStep("/a", ParentDir) == ""
  {
    assert WithSep("/a") == "/a/";
    assert TrimEndSep("/a/") == "/a";
    assert RFind("/a") == Some(0);
  }

  /** The last separator of a path ending in a name is the one before the name. */
  lemma {:induction false} RFindBeforeName(x: string, n: string)
    requires Sep !in n
    ensures RFind(x + [Sep] + n) == Some(|x|)
    decreases |n|
  {
    var s := x + [Sep] + n;
    if n != [] {
      assert s[..|s| - 1] == x + [Sep] + n[..|n| - 1];
      RFindBeforeName(x, n[..|n| - 1]);
    }
  }

  /** `..` after a name, with or without a separator behind it, cuts the path back to what came before the name. */
  lemma ParentDropsName(x: string, n: string)
    requires x != [] && IsName(n)
    ensures PushStep(x + [Sep] + n, ParentDir) == x
    ensures PushStep(x + [Sep] + n + [Sep], ParentDir) == x
  {
    var t := x + [Sep] + n;
    var s := t + [Sep];
    assert WithSep(t) == s;
    assert WithSep(s) == s;
    assert s[..|s| - 1] == t;
    assert TrimEndSep(s) == t;
    RFindBeforeName(x, n);
    assert s[..|x|] == x;
  }

  /** Pushing one more segment. */
  lemma PushEachSnoc(inner: string, segments: seq<string>, segment: string)
    ensures PushEach(inner, segments + [segment]) == PushAll(PushEach(inner, segments), ComponentsOf(segment))
  {
    assert (segments + [segment])[..|segments|] == segments;
  }

  /** `.` is the current directory and `..` the parent directory, each alone. */
  lemma DotComponents()
    ensures ComponentsOf(".") == [CurrentDir]
    ensures ComponentsOf("..") == [ParentDir]
  {
    assert Split(".") == ["."];
    assert Split("..") == [".."];
  }

  /** A single component pushed as such. */
  lemma OneStep(inner: string, c: Component)
    ensures PushAll(inner, [c]) == PushStep(inner, c)
  {
    assert [c][..0] == [];
  }

  /** A name followed by a separator and another name does not end in a separator. */
  lemma WithSepAfterName(x: string, n: string)
    requires IsName(n)
    ensures WithSep(x + [Sep] + n) == x + [Sep] + n + [Sep]
    ensures WithSep(n) == n + [Sep]
  {
    assert n[|n| - 1] in n;
  }

  /** `test_push_trivial`: a name then another name is the two joined by a separator. */
  lemma PushTrivial(a: string, b: string)
    requires IsName(a) && IsName(b)
    ensures PushEach([], [a, b]) == a + [Sep] + b
  {
    PushNames([a, b]);
    assert [a, b][1..] == [b];
  }

  /** `test_push_separators`: a trailing separator on the second name changes nothing. */
  lemma PushSeparators(a: string, b: string)
    requires IsName(a) && IsName(b)
    ensures PushEach([], [a, b + [Sep]]) == a + [Sep] + b
  {
    PushTrivial(a, b);
    TrailingSeparatorIgnored(b);
    PushEachSnoc([], [a], b + [Sep]);
    PushEachSnoc([], [a], b);
  }

  /** `test_push_absolute`: a rooted name, then a name with a trailing separator, gives the rooted join. */
  lemma PushAbsolute(a: string, b: string)
    requires IsName(a) && IsName(b)
    ensures PushEach([], [[Sep] + a, b + [Sep]]) == [Sep] + a + [Sep] + b
  {
    var x := [Sep] + a;
    RootedNameAlone(a);
    PushEachSnoc([], [x], b + [Sep]);
    assert [x] + [b + [Sep]] == [x, b + [Sep]];
    TrailingSeparatorIgnored(b);
    NameStep(x, b);
    NameThenSep([Sep], a);
  }

  /** A path ending in a name gets a separator before the next component. */
  lemma NameThenSep(p: string, n: string)
    requires IsName(n)
    ensures WithSep(p + n) == p + n + [Sep]
  {
    assert (p + n)[|p + n| - 1] == n[|n| - 1];
    assert n[|n| - 1] in n;
  }

  /** A rooted name pushed onto the empty path is that rooted name. */
  lemma RootedNameAlone(a: string)
    requires IsName(a)
    ensures PushEach([], [[Sep] + a]) == [Sep] + a
  {
    RootedNameComponents(a);
    var cs := ComponentsOf([Sep] + a);
    assert cs[..1] == [RootDir];
    OneStep([], RootDir);
    PushEachSnoc([], [], [Sep] + a);
    assert [] + [[Sep] + a] == [[Sep] + a];
  }

  /** A rooted name is the root, then the name. */
  lemma RootedNameComponents(a: string)
    requires IsName(a)
    ensures ComponentsOf([Sep] + a) == [RootDir, Normal(a)]
  {
    var fs := [[], a];
    assert Join(fs) == [Sep] + a;
    SplitJoin(fs);
    assert fs[1..] == [a] && [a][1..] == [];
    assert Fragments([a]) == [Normal(a)];
    assert Fragments(fs) == [Normal(a)];
  }

  /**
   * `test_into_components_with_specials`: pushing a, b, .., c, d, ., .., e
   * leads to a/c/e, which resolves to the names a, c, e.
   */
  lemma PushSpecials(a: string, b: string, c: string, d: string, e: string)
    requires IsName(a) && IsName(b) && IsName(c) && IsName(d) && IsName(e)
    ensures PushEach([], [a] + [b] + [".."] + [c] + [d] + ["."] + [".."] + [e]) == a + [Sep] + c + [Sep] + e
    ensures Resolve(ComponentsOf(a + [Sep] + c + [Sep] + e)) == [a, c, e]
  {
    SpecialsFirstHalf(a, b, c);
    SpecialsSecondHalf(a + [Sep] + c, [a] + [b] + [".."] + [c], d, e);
    ThreeNamesResolve(a, c, e);
  }

  /** a/c/e resolves to the names a, c, e. */
  lemma ThreeNamesResolve(a: string, c: string, e: string)
    requires IsName(a) && IsName(c) && IsName(e)
    ensures Resolve(ComponentsOf(a + [Sep] + c + [Sep] + e)) == [a, c, e]
  {
    var names := [a, c, e];
    JoinSnoc([a], c);
    assert [a] + [c] == [a, c];
    JoinSnoc([a, c], e);
    assert [a, c] + [e] == names;
    JoinThenResolve(names);
  }

  /** A name pushed after segments that led to `x`. */
  lemma PushEachName(pre: seq<string>, x: string, n: string)
    requires IsName(n) && PushEach([], pre) == x
    ensures PushEach([], pre + [n]) == WithSep(x) + n
  {
    PushEachSnoc([], pre, n);
    NameStep(x, n);
  }

  /** `.` pushed after segments that led to `x`. */
  lemma PushEachDot(pre: seq<string>, x: string)
    requires PushEach([], pre) == x
    ensures PushEach([], pre + ["."]) == WithSep(x)
  {
    PushEachSnoc([], pre, ".");
    DotComponents();
    OneStep(x, CurrentDir);
  }

  /** `..` pushed after segments that led to `x`. */
  lemma PushEachDotDot(pre: seq<string>, x: string)
    requires PushEach([], pre) == x
    ensures PushEach([], pre + [".."]) == PushStep(x, ParentDir)
  {
    PushEachSnoc([], pre, "..");
    DotComponents();
    OneStep(x, ParentDir);
  }

  /** a, b, .., c leads to a/c. */
  lemma SpecialsFirstHalf(a: string, b: string, c: string)
    requires IsName(a) && IsName(b) && IsName(c)
    ensures PushEach([], [a] + [b] + [".."] + [c]) == a + [Sep] + c
  {
    PushEachName([], [], a);
    assert [] + [a] == [a];
    WithSepAfterName([], a);
    PushEachName([a], a, b);
    PushEachDotDot([a] + [b], a + [Sep] + b);
    ParentDropsName(a, b);
    PushEachName([a] + [b] + [".."], a, c);
  }

  /** From a path ending in a name, d, ., .., e leads to the path, a separator and e. */
  lemma SpecialsSecondHalf(x: string, pre: seq<string>, d: string, e: string)
    requires x != [] && x[|x| - 1] != Sep && IsName(d) && IsName(e)
    requires PushEach([], pre) == x
    ensures PushEach([], pre + [d] + ["."] + [".."] + [e]) == x + [Sep] + e
  {
    assert WithSep(x) == x + [Sep];
    var p1 := pre + [d];
    PushEachName(pre, x, d);
    var p2 := p1 + ["."];
    PushEachDot(p1, x + [Sep] + d);
    WithSepAfterName(x, d);
    var p3 := p2 + [".."];
    PushEachDotDot(p2, x + [Sep] + d + [Sep]);
    ParentDropsName(x, d);
    PushEachName(p3, x, e);
  }

  /** One name pushed onto a path: a separator if needed, then the name. */
  lemma NameStep(inner: string, n: string)
    requires IsName(n)
    ensures PushAll(inner, ComponentsOf(n)) == WithSep(inner) + n
  {
    NameComponents(n);
    OneStep(inner, Normal(n));
  }

  /** One more component, pushed. */
  lemma PushAllSnoc(inner: string, cs: seq<Component>, c: Component)
    ensures PushAll(inner, cs + [c]) == PushStep(PushAll(inner, cs), c)
  {
    assert (cs + [c])[..|cs|] == cs;
  }

  /** One more component, resolved. */
  lemma ResolveSnoc(cs: seq<Component>, c: Component)
    ensures Resolve(cs + [c]) == ResolveStep(Resolve(cs), c)
  {
    assert (cs + [c])[..|cs|] == cs;
  }

  /** Moving one element from the front of one part to the back of the other keeps the whole. */
  lemma SnocCons<T>(a: seq<T>, x: T, b: seq<T>)
    ensures (a + [x]) + b == a + ([x] + b)
  {
  }

  /** `OwnedPath`. */
  class OwnedPath {
    var inner: string

    /** `OwnedPath::new()`: the empty path. */
    constructor ()
      ensures inner == []
    {
      inner := [];
    }

    /** `OwnedPath::from(p)`: `p` pushed onto the empty path. */
    constructor From(p: string)
      ensures inner == PushAll([], ComponentsOf(p))
      ensures NoDoubleSep(inner)
    {
      inner := [];
      new;
      Push(p);
    }

    /**
     * `push(segment)`: every component of `segment`, in order, applied to the
     * path; a path free of doubled separators stays so.
     */
    method Push(segment: string)
      modifies this`inner
      ensures inner == PushAll(old(inner), ComponentsOf(segment))
      ensures NoDoubleSep(old(inner)) ==> NoDoubleSep(inner)
    {
      ghost var start := inner;
      ghost var done: seq<Component> := [];
      var it := new PathComponents.Components(segment);
      while true
        invariant it.Valid() && done + it.Remaining() == ComponentsOf(segment)
        invariant inner == PushAll(start, done)
        decreases |it.Remaining()|
      {
        ghost var rest := it.Remaining();
        var c := it.Next();
        if c.None? {
          assert done + rest == done;
          if NoDoubleSep(start) {
            PushSegmentNoDoubleSep(start, segment);
          }
          return;
        }
        ghost var after := it.Remaining();
        assert rest == [c.value] + after;
        PushComponent(c.value);
        PushAllSnoc(start, done, c.value);
        SnocCons(done, c.value, after);
        done := done + [c.value];
      }
    }

    /**
     * The body of the loop in `push`: a separator unless the path is empty or
     * already ends in one, then what the component does.
     */
    method PushComponent(c: Component)
      modifies this`inner
      ensures inner == PushStep(old(inner), c)
    {
      if inner != [] && inner[|inner| - 1] != Sep {
        inner := inner + [Sep];
      }
      match c {
        case CurrentDir =>
        case ParentDir =>
          var found := RFind(TrimEndSep(inner));
          if found.Some? {
            inner := inner[..found.value];
          }
        case Normal(name) =>
          inner := inner + name;
        case RootDir =>
          if inner == [] {
            inner := [Sep];
          }
      }
    }

    /** `components()`: a fresh tokeniser over the path. */
    method Components() returns (it: PathComponents.Components)
      ensures fresh(it) && it.Valid() && it.Remaining() == ComponentsOf(inner)
    {
      it := new PathComponents.Components(inner);
    }

    /**
     * `into_components()`: the path resolved into names. `..` drops trailing
     * `.` entries and then the last entry, if any; a normal component adds
     * `OwnedPath::from` of its name; `.` and the root add nothing.
     */
    method IntoComponents() returns (data: seq<string>)
      ensures data == Resolve(ComponentsOf(inner))
    {
      ghost var done: seq<Component> := [];
      data := [];
      var it := Components();
      while true
        invariant it.Valid() && done + it.Remaining() == ComponentsOf(inner)
        invariant data == Resolve(done)
        decreases |it.Remaining()|
      {
        ghost var rest := it.Remaining();
        var c := it.Next();
        if c.None? {
          assert done + rest == done;
          return;
        }
        ghost var after := it.Remaining();
        assert rest == [c.value] + after;
        data := ResolveComponent(data, c.value);
        ResolveSnoc(done, c.value);
        SnocCons(done, c.value, after);
        done := done + [c.value];
      }
    }

    /** The body of the loop in `into_components`: what one component does to the list. */
    static method ResolveComponent(d: seq<string>, c: Component) returns (data: seq<string>)
      ensures data == ResolveStep(d, c)
    {
      data := d;
      if c == ParentDir {
        while data != [] && data[|data| - 1] == "."
          invariant DropDots(data) == DropDots(d)
          decreases |data|
        {
          data := data[..|data| - 1];
        }
        if data != [] {
          data := data[..|data| - 1];
        }
      } else if c.Normal? {
        var o := new OwnedPath.From(c.name);
        data := data + [o.inner];
      }
    }

    /** `len()`: the length of the path text. */
    function Len(): (n: nat)
      reads this
      ensures n == 0 <==> inner == []
    {
      |inner|
    }

    /** `is_empty()`: the path has no text, exactly when its length is zero. */
    function IsEmpty(): (r: bool)
      reads this
      ensures r <==> Len() == 0
    {
      inner == []
    }
  }
}
