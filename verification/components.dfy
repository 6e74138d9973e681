/**
 * Path tokenising, src/path/components.rs: a path is split at every `/`;
 * an absolute path first yields the root, then every non-empty fragment
 * yields `.` as the current directory, `..` as the parent directory, and
 * anything else as a normal name. Empty fragments (from repeated, leading or
 * trailing separators) yield nothing.
 */
module PathComponents {
  import opened Io

  /** `SEPARATOR`. */
  const Sep: char := '/'

  /** The separator test `str::split` is given. */
  predicate IsSep(c: char)
  {
    c == Sep
  }

  /** A path starts with a separator. */
  predicate IsAbsolute(path: string)
  {
    |path| > 0 && path[0] == Sep
  }

  /** `str::split(SEPARATOR)`: the text between separators, always at least one (possibly empty) fragment. */
  function Split(s: string): (r: seq<string>)
    ensures |r| >= 1
    ensures forall j :: 0 <= j < |r| ==> Sep !in r[j]
    decreases |s|
  {
    match FirstMatch(s, IsSep)
    case None => [s]
    case Some(i) => [s[..i]] + Split(s[i + 1..])
  }

  /** The fragments put back together with a separator between each two. */
  function Join(fs: seq<string>): (r: string)
    requires |fs| >= 1
  {
    if |fs| == 1 then fs[0] else fs[0] + [Sep] + Join(fs[1..])
  }

  /** At the first separator, splitting gives the text before it and then the split of the rest. */
  lemma SplitAtFirst(s: string, i: nat)
    requires FirstMatch(s, IsSep) == Some(i)
    ensures i < |s| && s[i] == Sep
    ensures Split(s) == [s[..i]] + Split(s[i + 1..])
  {
  }

  /** A string is what comes before position `i`, the character there, and what comes after. */
  lemma Around(s: string, i: nat)
    requires i < |s|
    ensures s == s[..i] + [s[i]] + s[i + 1..]
  {
    assert s[i..] == [s[i]] + s[i + 1..];
    assert s == s[..i] + s[i..];
  }

  /** Splitting loses nothing: the fragments join back into the path. */
  lemma {:induction false} JoinSplit(s: string)
    ensures Join(Split(s)) == s
    decreases |s|
  {
    match FirstMatch(s, IsSep)
    case None =>
    case Some(i) =>
      SplitAtFirst(s, i);
      Around(s, i);
      JoinSplit(s[i + 1..]);
      JoinCons(s[..i], Split(s[i + 1..]));
  }

  /** Fragments without separators are exactly what splitting their join gives back. */
  lemma {:induction false} SplitJoin(fs: seq<string>)
    requires |fs| >= 1 && forall j :: 0 <= j < |fs| ==> Sep !in fs[j]
    ensures Split(Join(fs)) == fs
    decreases |fs|
  {
    if |fs| == 1 {
      assert FirstMatch(fs[0], IsSep).None?;
    } else {
      JoinHead(fs);
      SplitAtFirst(Join(fs), |fs[0]|);
      SplitJoin(fs[1..]);
    }
  }

  /** Joining puts the first separator right after the first fragment. */
  lemma JoinHead(fs: seq<string>)
    requires |fs| >= 2 && Sep !in fs[0]
    ensures FirstMatch(Join(fs), IsSep) == Some(|fs[0]|)
    ensures Join(fs)[..|fs[0]|] == fs[0] && Join(fs)[|fs[0]| + 1..] == Join(fs[1..])
  {
    var s := Join(fs);
    var n := |fs[0]|;
    assert s == fs[0] + [Sep] + Join(fs[1..]);
    assert IsSep(s[n]);
    assert forall j :: 0 <= j < n ==> s[j] == fs[0][j];
    assert s[..n] == fs[0];
    assert s[n + 1..] == Join(fs[1..]);
  }

  /** A name a normal component can carry: non-empty, no separator, neither `.` nor `..`. */
  predicate IsName(n: string)
  {
    n != [] && Sep !in n && n != "." && n != ".."
  }

  /** `Component`. */
  datatype Component = RootDir | CurrentDir | ParentDir | Normal(name: string)

  /** How `next` names a non-empty fragment. */
  function Classify(f: string): (c: Component)
    requires f != []
    ensures c != RootDir
  {
    if f == "." then CurrentDir else if f == ".." then ParentDir else Normal(f)
  }

  /** The text a component came from. */
  function Text(c: Component): string
  {
    match c
    case RootDir => [Sep]
    case CurrentDir => "."
    case ParentDir => ".."
    case Normal(name) => name
  }

  /** The components of a run of fragments: one for each non-empty fragment, in order. */
  function Fragments(fs: seq<string>): (r: seq<Component>)
    ensures |r| <= |fs|
  {
    if fs == [] then []
    else (if fs[0] == [] then [] else [Classify(fs[0])]) + Fragments(fs[1..])
  }

  /** The non-empty fragments, in order. */
  function NonEmpty(fs: seq<string>): seq<string>
  {
    if fs == [] then [] else (if fs[0] == [] then [] else [fs[0]]) + NonEmpty(fs[1..])
  }

  /** Everything `Components` yields for `path`, in order. */
  function ComponentsOf(path: string): seq<Component>
  {
    (if IsAbsolute(path) then [RootDir] else []) + Fragments(Split(path))
  }

  /** The components of fragments spell out exactly their non-empty fragments. */
  lemma {:induction false} FragmentsText(fs: seq<string>)
    ensures |Fragments(fs)| == |NonEmpty(fs)|
    ensures forall j :: 0 <= j < |Fragments(fs)| ==> Text(Fragments(fs)[j]) == NonEmpty(fs)[j]
    decreases |fs|
  {
    if fs != [] {
      FragmentsText(fs[1..]);
    }
  }

  /** No component of a run of fragments is the root; a normal one is a name that is not `.` or `..`. */
  lemma {:induction false} FragmentsShape(fs: seq<string>)
    requires forall j :: 0 <= j < |fs| ==> Sep !in fs[j]
    ensures forall j :: 0 <= j < |Fragments(fs)| ==>
              && Fragments(fs)[j] != RootDir
              && (Fragments(fs)[j].Normal? ==>
                    var n := Fragments(fs)[j].name;
                    n != [] && Sep !in n && n != "." && n != "..")
    decreases |fs|
  {
    if fs != [] {
      FragmentsShape(fs[1..]);
      var head := if fs[0] == [] then [] else [Classify(fs[0])];
      assert Fragments(fs) == head + Fragments(fs[1..]);
    }
  }

  /**
   * The root comes first, exactly once, and only for an absolute path; every
   * normal name is non-empty, free of separators and neither `.` nor `..`.
   */
  lemma ComponentsShape(path: string)
    ensures forall j :: 0 <= j < |ComponentsOf(path)| ==>
              (ComponentsOf(path)[j] == RootDir <==> j == 0 && IsAbsolute(path))
    ensures forall j :: 0 <= j < |ComponentsOf(path)| && ComponentsOf(path)[j].Normal? ==>
              var n := ComponentsOf(path)[j].name;
              n != [] && Sep !in n && n != "." && n != ".."
  {
    FragmentsShape(Split(path));
  }

  lemma JoinCons(f: string, fs: seq<string>)
    requires |fs| >= 1
    ensures Join([f] + fs) == f + [Sep] + Join(fs)
  {
    assert ([f] + fs)[1..] == fs;
  }

  lemma FragmentsCons(f: string, fs: seq<string>)
    ensures Fragments([f] + fs) == (if f == [] then [] else [Classify(f)]) + Fragments(fs)
  {
    assert ([f] + fs)[1..] == fs;
  }

  lemma FragmentsOne(f: string)
    ensures Fragments([f]) == if f == [] then [] else [Classify(f)]
  {
    assert [f][1..] == [];
  }

  /** "hello/world", or any two names joined by a separator, is two names. */
  lemma RelativeComponents(a: string, b: string)
    requires IsName(a) && IsName(b)
    ensures ComponentsOf(a + [Sep] + b) == [Normal(a), Normal(b)]
  {
    var f1 := [b];
    var fs := [a] + f1;
    JoinCons(a, f1);
    assert Join(fs) == a + [Sep] + b;
    SplitJoin(fs);
    FragmentsOne(b);
    FragmentsCons(a, f1);
    assert a[0] in a;
  }

  /** Repeated separators are skipped: "hello///world", or any two names so joined, is two names. */
  lemma EmptyFragmentsSkipped(a: string, b: string)
    requires IsName(a) && IsName(b)
    ensures ComponentsOf(a + [Sep, Sep, Sep] + b) == [Normal(a), Normal(b)]
  {
    var f3 := [b];
    var f2 := [""] + f3;
    var f1 := [""] + f2;
    var fs := [a] + f1;
    JoinCons("", f3);
    JoinCons("", f2);
    JoinCons(a, f1);
    assert Join(fs) == a + [Sep, Sep, Sep] + b;
    SplitJoin(fs);
    FragmentsOne(b);
    FragmentsCons("", f3);
    FragmentsCons("", f2);
    FragmentsCons(a, f1);
    assert a[0] in a;
  }

  /** "/hello/world", or the root and any two names, is the root and two names. */
  lemma AbsoluteComponents(a: string, b: string)
    requires IsName(a) && IsName(b)
    ensures ComponentsOf([Sep] + a + [Sep] + b) == [RootDir, Normal(a), Normal(b)]
  {
    var f2 := [b];
    var f1 := [a] + f2;
    var fs := [""] + f1;
    JoinCons(a, f2);
    JoinCons("", f1);
    assert Join(fs) == [Sep] + a + [Sep] + b;
    SplitJoin(fs);
    FragmentsOne(b);
    FragmentsCons(a, f2);
    FragmentsCons("", f1);
  }

  /**
   * `Components`: the fragments of the path, whether the root is still to
   * come, and how many fragments have been consumed.
   */
  class Components {
    const fragments: seq<string>
    const absolute: bool
    var seenRoot: bool
    var index: nat

    ghost predicate Valid()
      reads this
    {
      index <= |fragments|
    }

    /** What `next` has yet to yield. */
    ghost function Remaining(): seq<Component>
      reads this
      requires Valid()
    {
      (if absolute && !seenRoot then [RootDir] else []) + Fragments(fragments[index..])
    }

    /** `Components::new(path)`: everything of `path` is yet to come. */
    constructor (path: string)
      ensures Valid() && Remaining() == ComponentsOf(path)
      ensures fragments == Split(path) && absolute == IsAbsolute(path)
    {
      fragments := Split(path);
      absolute := IsAbsolute(path);
      seenRoot := false;
      index := 0;
      new;
      assert fragments[0..] == fragments;
    }

    /**
     * `next()`: the first component yet to come, which is then consumed;
     * `None` once there is none left, and from then on.
     */
    method Next() returns (r: Option<Component>)
      requires Valid()
      modifies this`seenRoot, this`index
      ensures Valid()
      ensures r.None? <==> old(Remaining()) == []
      ensures r.None? ==> Remaining() == []
      ensures r.Some? ==> old(Remaining()) == [r.value] + Remaining()
    {
      ghost var before := Remaining();
      if absolute && !seenRoot {
        seenRoot := true;
        assert before == [RootDir] + Remaining();
        assert before[1..] == Remaining();
        return Some(RootDir);
      }
      assert before == Fragments(fragments[index..]);
      var item := NextFragment();
      if item == [] {
        return None;
      }
      if item == "." {
        r := Some(CurrentDir);
      } else if item == ".." {
        r := Some(ParentDir);
      } else {
        r := Some(Normal(item));
      }
      assert r.value == Classify(item);
      assert Remaining() == Fragments(fragments[index..]);
    }

    /**
     * The fragment loop of `next()`: skips empty fragments and consumes the
     * first non-empty one, or everything when there is none (then `item` is
     * empty).
     */
    method NextFragment() returns (item: string)
      requires Valid()
      modifies this`index
      ensures Valid()
      ensures item == [] ==> index == |fragments| && old(Fragments(fragments[index..])) == []
      ensures item != [] ==> old(Fragments(fragments[index..])) == [Classify(item)] + Fragments(fragments[index..])
    {
      ghost var before := Fragments(fragments[index..]);
      item := "";
      while |item| == 0
        invariant index <= |fragments|
        invariant |item| == 0 ==> before == Fragments(fragments[index..])
        invariant |item| != 0 ==> before == [Classify(item)] + Fragments(fragments[index..])
        decreases |fragments| - index, if |item| == 0 then 1 else 0
      {
        if index >= |fragments| {
          assert fragments[index..] == [];
          return;
        }
        item := fragments[index];
        index := index + 1;
      }
    }
  }
}
