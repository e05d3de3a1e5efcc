/** Lexical normalization of file paths, and why it changes no meaning in a tree
without symbolic links. */
module PathNormalization {
  import opened Segments

  /** `JoinStrings` with a slash between. */
  function Join(comps: seq<string>): string {
    if comps == [] then "" else comps[0] + Render(comps[1..])
  }

  /** How many leading slashes count: POSIX keeps exactly two apart from one and from more. */
  function InitialSlashes(path: string): (n: nat)
    ensures n <= 2 && (n == 0 <==> !("/" <= path))
  {
    if !("/" <= path) then 0 else if "//" <= path && !("///" <= path) then 2 else 1
  }

  function Slashes(n: nat): string {
    if n == 0 then "" else "/" + Slashes(n - 1)
  }

  /** What one component does to the components kept so far. */
  function Keep(kept: seq<string>, comp: string, absolute: bool): seq<string> {
    if comp == "" || comp == "." then kept
    else if comp != ".." || (!absolute && kept == []) || (kept != [] && kept[|kept| - 1] == "..") then kept + [comp]
    else if kept != [] then kept[..|kept| - 1]
    else kept
  }

  function KeepAll(comps: seq<string>, absolute: bool): seq<string> {
    if comps == [] then [] else Keep(KeepAll(comps[..|comps| - 1], absolute), comps[|comps| - 1], absolute)
  }

  function Normalized(path: string): string {
    var n := InitialSlashes(path);
    var text := Slashes(n) + Join(KeepAll(Split(path), n > 0));
    if text == "" then "." else text
  }

  lemma NormalizedEmpty()
    ensures Normalized("") == "."
  {
    assert KeepAll([""], false) == [] by {
      assert [""][..0] == [];
    }
    assert Slashes(0) + Join([]) == "";
  }

  lemma NoSlashes(s: string)
    ensures Slashes(0) + s == s
  {
  }

  /** The loop of `Path::Normalize`. */
  method NormalComponents(comps: seq<string>, absolute: bool) returns (kept: seq<string>)
    ensures kept == KeepAll(comps, absolute)
  {
    kept := [];
    for i := 0 to |comps|
      invariant kept == KeepAll(comps[..i], absolute)
    {
      assert comps[..i + 1][..i] == comps[..i];
      var comp := comps[i];
      if comp == "" || comp == "." {
        continue;
      }
      if comp != ".." || (!absolute && kept == []) || (kept != [] && kept[|kept| - 1] == "..") {
        kept := kept + [comp];
      } else if kept != [] {
        kept := kept[..|kept| - 1];
      }
    }
    assert comps[..|comps|] == comps;
  }

  /** `Path::Normalize`. */
  method Normalize(path: string) returns (result: string)
    ensures result == Normalized(path)
  {
    if path == "" {
      NormalizedEmpty();
      return ".";
    }
    var initial := InitialSlashes(path);
    var comps := Split(path);
    var kept := NormalComponents(comps, initial > 0);
    result := Join(kept);
    if initial > 0 {
      result := Slashes(initial) + result;
    } else {
      NoSlashes(result);
    }
    if result == "" {
      result := ".";
    }
  }

  // ---------------------------------------------------------------------------
  // Where a path leads
  // ---------------------------------------------------------------------------

  /** A place in the tree: which root, and the directories below it. */
  datatype Place = Place(root: nat, dirs: seq<string>)

  ghost function Go(p: Place, comp: string): Place {
    if comp == "" || comp == "." then p
    else if comp == ".." then p.(dirs := if p.dirs == [] then [] else p.dirs[..|p.dirs| - 1])
    else p.(dirs := p.dirs + [comp])
  }

  ghost function Walk(p: Place, comps: seq<string>): Place {
    if comps == [] then p else Go(Walk(p, comps[..|comps| - 1]), comps[|comps| - 1])
  }

  /** Where `path` leads from the working directory `cwd`. */
  ghost function Leads(cwd: Place, path: string): Place {
    var n := InitialSlashes(path);
    Walk(if n > 0 then Place(n, []) else cwd, Split(path))
  }

  lemma WalkSnoc(p: Place, comps: seq<string>, c: string)
    ensures Walk(p, comps + [c]) == Go(Walk(p, comps), c)
  {
    assert (comps + [c])[..|comps|] == comps;
  }

  lemma {:induction false} WalkAppend(p: Place, a: seq<string>, b: seq<string>)
    ensures Walk(p, a + b) == Walk(Walk(p, a), b)
    decreases |b|
  {
    if b == [] {
      assert a + b == a;
    } else {
      var front, c := b[..|b| - 1], b[|b| - 1];
      assert a + b == a + front + [c];
      WalkSnoc(p, a + front, c);
      WalkAppend(p, a, front);
    }
  }

  /** One component changes the walk and the kept components alike. */
  lemma KeepWalks(p: Place, kept: seq<string>, comp: string, absolute: bool)
    requires absolute ==> p.dirs == []
    requires forall x :: x in kept ==> x != "" && x != "."
    ensures Walk(p, Keep(kept, comp, absolute)) == Go(Walk(p, kept), comp)
  {
    WalkSnoc(p, kept, comp);
    if kept != [] {
      var front, x := kept[..|kept| - 1], kept[|kept| - 1];
      assert x in kept;
      assert Walk(p, kept) == Go(Walk(p, front), x);
      if comp == ".." && x != ".." {
        var q := Walk(p, front);
        assert (q.dirs + [x])[..|q.dirs|] == q.dirs;
      }
    }
  }

  // ---------------------------------------------------------------------------
  // Normal components
  // ---------------------------------------------------------------------------

  ghost predicate IsName(x: string) {
    x != "" && x != "." && NoSlash(x)
  }

  /** Real names, with ".." only as a leading run and never below a root. */
  ghost predicate Normal(kept: seq<string>, absolute: bool) {
    && (forall i :: 0 <= i < |kept| ==> IsName(kept[i]))
    && (forall i :: 0 <= i < |kept| && kept[i] == ".." ==> !absolute && (i > 0 ==> kept[i - 1] == ".."))
  }

  lemma {:induction false} KeepAllNormal(comps: seq<string>, absolute: bool)
    requires AllNoSlash(comps)
    ensures Normal(KeepAll(comps, absolute), absolute)
  {
    if comps != [] {
      assert comps[|comps| - 1] in comps;
      KeepAllNormal(comps[..|comps| - 1], absolute);
    }
  }

  lemma {:induction false} KeepAllWalks(p: Place, comps: seq<string>, absolute: bool)
    requires AllNoSlash(comps) && (absolute ==> p.dirs == [])
    ensures Walk(p, KeepAll(comps, absolute)) == Walk(p, comps)
  {
    if comps != [] {
      var front := comps[..|comps| - 1];
      KeepAllWalks(p, front, absolute);
      KeepAllNormal(front, absolute);
      KeepWalks(p, KeepAll(front, absolute), comps[|comps| - 1], absolute);
    }
  }

  /** Normal components are kept as they are. */
  lemma {:induction false} KeepAllOfNormal(kept: seq<string>, absolute: bool)
    requires Normal(kept, absolute)
    ensures KeepAll(kept, absolute) == kept
  {
    if kept != [] {
      var n := |kept| - 1;
      KeepAllOfNormal(kept[..n], absolute);
      assert IsName(kept[n]);
    }
  }

  /** Empty components in front make no difference. */
  lemma {:induction false} KeepAllSkipsEmpty(comps: seq<string>, absolute: bool)
    ensures KeepAll([""] + comps, absolute) == KeepAll(comps, absolute)
  {
    var all := [""] + comps;
    if comps == [] {
      assert all[..0] == [] && all == [""];
    } else {
      var front := comps[..|comps| - 1];
      KeepAllSkipsEmpty(front, absolute);
      assert all[..|all| - 1] == [""] + front;
    }
  }

  lemma SplitAfterSlash(t: string)
    ensures Split("/" + t) == [""] + Split(t)
  {
    var s := "/" + t;
    assert FirstSlash(s) == 0;
    assert s[..0] == "" && s[1..] == t;
  }

  lemma OneSlashFirst(n: nat, t: string)
    requires n > 0
    ensures Slashes(n) + t == "/" + (Slashes(n - 1) + t)
  {
  }

  /** Text with leading slashes has the same components as without. */
  lemma {:induction false} KeepAllAfterSlashes(n: nat, t: string, absolute: bool)
    ensures KeepAll(Split(Slashes(n) + t), absolute) == KeepAll(Split(t), absolute)
  {
    if n == 0 {
      assert Slashes(0) + t == t;
    } else {
      var fewer := Slashes(n - 1) + t;
      OneSlashFirst(n, t);
      SplitAfterSlash(fewer);
      KeepAllSkipsEmpty(Split(fewer), absolute);
      KeepAllAfterSlashes(n - 1, t, absolute);
    }
  }

  /** The components of joined normal components are these components. */
  lemma SplitJoin(kept: seq<string>)
    requires kept != [] && AllNoSlash(kept)
    ensures Split(Join(kept)) == kept
  {
    assert kept[0] in kept;
    SplitRender(kept[0], kept[1..]);
  }

  lemma JoinNormal(kept: seq<string>, absolute: bool)
    requires Normal(kept, absolute)
    ensures KeepAll(Split(Join(kept)), absolute) == kept
    ensures !("/" <= Join(kept)) && (kept != [] ==> Join(kept) != "")
  {
    if kept == [] {
      assert Split("") == [""];
      assert [""][..0] == [];
    } else {
      assert IsName(kept[0]);
      assert Join(kept)[0] == kept[0][0] && kept[0][0] in kept[0];
      SplitJoin(kept);
      KeepAllOfNormal(kept, absolute);
    }
  }

  /** Leading slashes survive normalization. */
  lemma SlashesSurvive(n: nat, t: string)
    requires n <= 2 && !("/" <= t)
    ensures InitialSlashes(Slashes(n) + t) == n
  {
    assert Slashes(1) == "/" && Slashes(2) == "//";
    assert t == "" || t[0] != '/';
    var s := Slashes(n) + t;
    assert n == 0 ==> s == t;
    assert n >= 1 ==> s[0] == '/';
    assert n == 2 ==> s[1] == '/' && (|s| > 2 ==> s[2] != '/');
    assert n == 1 ==> (|s| > 1 ==> s[1] != '/');
  }

  /** What the result consists of: as many slashes, and exactly the kept components. */
  lemma NormalizedParts(path: string)
    ensures var n := InitialSlashes(path);
            && InitialSlashes(Normalized(path)) == n
            && KeepAll(Split(Normalized(path)), n > 0) == KeepAll(Split(path), n > 0)
            && Normal(KeepAll(Split(path), n > 0), n > 0)
  {
    var n := InitialSlashes(path);
    var kept := KeepAll(Split(path), n > 0);
    SplitNoSlash(path);
    KeepAllNormal(Split(path), n > 0);
    JoinNormal(kept, n > 0);
    if Normalized(path) == Slashes(n) + Join(kept) {
      SlashesSurvive(n, Join(kept));
      KeepAllAfterSlashes(n, Join(kept), n > 0);
    } else {
      assert n == 0 && kept == [];
      assert Split(".") == ["."];
      assert ["."][..0] == [];
    }
  }

  ghost function LeadingSlashes(path: string): nat {
    if path == "" || path[0] != '/' then 0 else 1 + LeadingSlashes(path[1..])
  }

  /** Exactly two slashes count as two; one, three or more count as one. */
  lemma InitialSlashesExactly(path: string)
    ensures var k := LeadingSlashes(path); InitialSlashes(path) == if k == 0 then 0 else if k == 2 then 2 else 1
  {
    if path != "" && path[0] == '/' {
      assert LeadingSlashes(path) == 1 + LeadingSlashes(path[1..]);
      if |path| > 1 && path[1] == '/' {
        assert LeadingSlashes(path[1..]) == 1 + LeadingSlashes(path[1..][1..]);
        assert path[1..][1..] == path[2..];
        assert |path| > 2 ==> path[2..][0] == path[2];
      }
    }
  }

  /** The text is "." alone, a root alone, or a root and names with one slash between: no "" or
      ".", and ".." only in front where there is no root. */
  ghost predicate IsNormalText(text: string, n: nat) {
    || (text == "." && n == 0)
    || (n <= |text| && (forall i :: 0 <= i < n ==> text[i] == '/') && (text[n..] == "" || Normal(Split(text[n..]), n > 0)))
  }

  lemma AfterSlashes(n: nat, t: string)
    requires n <= 2
    ensures |Slashes(n)| == n && (Slashes(n) + t)[n..] == t && forall i :: 0 <= i < n ==> (Slashes(n) + t)[i] == '/'
  {
    assert Slashes(1) == "/" && Slashes(2) == "//";
  }

  lemma NormalForm(path: string)
    ensures IsNormalText(Normalized(path), InitialSlashes(path)) && Normalized(path) != ""
  {
    var n := InitialSlashes(path);
    var kept := KeepAll(Split(path), n > 0);
    SplitNoSlash(path);
    KeepAllNormal(Split(path), n > 0);
    AfterSlashes(n, Join(kept));
    if kept != [] {
      SplitJoin(kept);
    }
  }

  // ---------------------------------------------------------------------------
  // The theorems
  // ---------------------------------------------------------------------------

  /** From every working directory the normalized path leads to the same place. */
  lemma NormalizeKeepsMeaning(cwd: Place, path: string)
    ensures Leads(cwd, Normalized(path)) == Leads(cwd, path)
  {
    NormalizedParts(path);
    var n := InitialSlashes(path);
    var p := if n > 0 then Place(n, []) else cwd;
    SplitNoSlash(path);
    SplitNoSlash(Normalized(path));
    KeepAllWalks(p, Split(path), n > 0);
    KeepAllWalks(p, Split(Normalized(path)), n > 0);
  }

  /** Normalizing again changes nothing. */
  lemma NormalizeIdempotent(path: string)
    ensures Normalized(Normalized(path)) == Normalized(path)
  {
    NormalizedParts(path);
  }

  // ---------------------------------------------------------------------------
  // The normalized path is canonical
  // ---------------------------------------------------------------------------

  ghost function Ups(kept: seq<string>): (n: nat)
    ensures n <= |kept|
  {
    if kept == [] then 0 else Ups(kept[..|kept| - 1]) + if kept[|kept| - 1] == ".." then 1 else 0
  }

  lemma {:induction false} UpsLead(kept: seq<string>, absolute: bool)
    requires Normal(kept, absolute)
    ensures forall i :: 0 <= i < |kept| ==> (kept[i] == ".." <==> i < Ups(kept))
  {
    if kept != [] {
      var n := |kept| - 1;
      UpsLead(kept[..n], absolute);
      assert kept[n] == ".." && n > 0 ==> kept[..n][n - 1] == "..";
    }
  }

  lemma EmptyTail<T>(d: seq<T>, s: seq<T>)
    ensures d + s[|s|..] == d
  {
  }

  lemma SnocTail<T>(d: seq<T>, s: seq<T>, u: nat)
    requires u < |s|
    ensures d + s[u..] == d + s[..|s| - 1][u..] + [s[|s| - 1]]
  {
    assert s[u..] == s[..|s| - 1][u..] + [s[|s| - 1]];
  }

  /** Where normal components lead: up first and then down. */
  ghost function UpAndDown(p: Place, kept: seq<string>, ups: nat): Place
    requires ups <= |p.dirs| && ups <= |kept|
  {
    Place(p.root, p.dirs[..|p.dirs| - ups] + kept[ups..])
  }

  lemma UpsOfAll(kept: seq<string>, absolute: bool)
    requires Normal(kept, absolute) && kept != [] && kept[|kept| - 1] == ".."
    ensures Ups(kept) == |kept| && Ups(kept[..|kept| - 1]) == |kept| - 1
  {
    UpsLead(kept, absolute);
  }

  lemma UpStep(p: Place, kept: seq<string>)
    requires 0 < |kept| <= |p.dirs|
    ensures Go(UpAndDown(p, kept[..|kept| - 1], |kept| - 1), "..") == UpAndDown(p, kept, |kept|)
  {
    var n := |p.dirs| - |kept|;
    EmptyTail(p.dirs[..n], kept);
    EmptyTail(p.dirs[..n + 1], kept[..|kept| - 1]);
    assert p.dirs[..n + 1][..n] == p.dirs[..n];
  }

  lemma UpsBeforeName(kept: seq<string>, absolute: bool)
    requires Normal(kept, absolute) && kept != [] && kept[|kept| - 1] != ".."
    ensures Ups(kept[..|kept| - 1]) == Ups(kept) < |kept| && IsName(kept[|kept| - 1])
  {
    UpsLead(kept, absolute);
  }

  lemma GoDown(p: Place, x: string)
    requires IsName(x) && x != ".."
    ensures Go(p, x) == Place(p.root, p.dirs + [x])
  {
  }

  lemma DownStep(p: Place, kept: seq<string>, ups: nat)
    requires ups < |kept| && ups <= |p.dirs| && IsName(kept[|kept| - 1]) && kept[|kept| - 1] != ".."
    ensures Go(UpAndDown(p, kept[..|kept| - 1], ups), kept[|kept| - 1]) == UpAndDown(p, kept, ups)
  {
    GoDown(UpAndDown(p, kept[..|kept| - 1], ups), kept[|kept| - 1]);
    SnocTail(p.dirs[..|p.dirs| - ups], kept, ups);
  }

  /** Normal components go up first and then down. */
  lemma {:induction false} WalkNormal(p: Place, kept: seq<string>, absolute: bool)
    requires Normal(kept, absolute) && Ups(kept) <= |p.dirs|
    ensures Walk(p, kept) == UpAndDown(p, kept, Ups(kept))
  {
    if kept == [] {
      EmptyTail(p.dirs, kept);
    } else {
      WalkNormal(p, kept[..|kept| - 1], absolute);
      if kept[|kept| - 1] == ".." {
        UpsOfAll(kept, absolute);
        UpStep(p, kept);
      } else {
        UpsBeforeName(kept, absolute);
        DownStep(p, kept, Ups(kept));
      }
    }
  }

  /** The kept components decide where a path leads. */
  lemma LeadsByKept(cwd: Place, path: string)
    ensures var n := InitialSlashes(path);
            var p := if n > 0 then Place(n, []) else cwd;
            Leads(cwd, path) == Walk(p, KeepAll(Split(path), n > 0))
  {
    var n := InitialSlashes(path);
    SplitNoSlash(path);
    KeepAllWalks(if n > 0 then Place(n, []) else cwd, Split(path), n > 0);
  }

  lemma NoUpsBelowRoot(kept: seq<string>)
    requires Normal(kept, true)
    ensures Ups(kept) == 0
  {
    UpsLead(kept, true);
  }

  /** A string longer than all of `xs` is none of them. */
  ghost function Longer(xs: seq<string>): (z: string)
    ensures forall x :: x in xs ==> |x| < |z|
  {
    if xs == [] then "a" else
    var z := Longer(xs[..|xs| - 1]);
    var x := xs[|xs| - 1];
    assert xs == xs[..|xs| - 1] + [x];
    if |x| < |z| then z else x + "a"
  }

  ghost function Copies(z: string, n: nat): (s: seq<string>)
    ensures |s| == n && forall i :: 0 <= i < n ==> s[i] == z
  {
    seq(n, _ => z)
  }

  ghost function Leading(z: string, s: seq<string>): nat {
    if s == [] || s[0] != z then 0 else 1 + Leading(z, s[1..])
  }

  lemma {:induction false} LeadingCopies(z: string, m: nat, a: seq<string>)
    requires z !in a
    ensures Leading(z, Copies(z, m) + a) == m
  {
    var s := Copies(z, m) + a;
    if m == 0 {
      assert s == a && (a != [] ==> a[0] in a);
    } else {
      assert s[1..] == Copies(z, m - 1) + a;
      LeadingCopies(z, m - 1, a);
    }
  }

  /** Going up from a long enough row of one foreign name and then down tells how far up
      and which names down. */
  lemma FewerCopies(z: string, k: nat, n: nat)
    requires n <= k
    ensures Copies(z, k)[..n] == Copies(z, n)
  {
  }

  lemma AfterFirst<T>(s: seq<T>, t: seq<T>)
    ensures (s + t)[|s|..] == t
  {
  }

  lemma UpAndDownDiffer(z: string, k: nat, u: nat, v: nat, a: seq<string>, b: seq<string>)
    requires u <= k && v <= k && z !in a && z !in b
    requires Copies(z, k)[..k - u] + a == Copies(z, k)[..k - v] + b
    ensures u == v && a == b
  {
    FewerCopies(z, k, k - u);
    FewerCopies(z, k, k - v);
    LeadingCopies(z, k - u, a);
    LeadingCopies(z, k - v, b);
    AfterFirst(Copies(z, k - u), a);
    AfterFirst(Copies(z, k - v), b);
  }

  lemma SplitByUps(a: seq<string>, b: seq<string>)
    requires Normal(a, false) && Normal(b, false) && Ups(a) == Ups(b) && a[Ups(a)..] == b[Ups(b)..]
    ensures a == b
  {
    UpsLead(a, false);
    UpsLead(b, false);
    assert a == a[..Ups(a)] + a[Ups(a)..] && b == b[..Ups(b)] + b[Ups(b)..];
    assert a[..Ups(a)] == b[..Ups(b)];
  }

  lemma TailIn(s: seq<string>, n: nat, z: string)
    requires n <= |s| && forall x :: x in s ==> |x| < |z|
    ensures z !in s[n..]
  {
    assert forall x :: x in s[n..] ==> x in s;
  }

  lemma ForeignName(a: seq<string>, b: seq<string>) returns (z: string)
    ensures forall x :: x in a ==> |x| < |z|
    ensures forall x :: x in b ==> |x| < |z|
  {
    z := Longer(a + b);
    assert forall x :: x in a || x in b ==> x in a + b;
  }

  lemma FarDirs(a: seq<string>, z: string, k: nat)
    requires Normal(a, false) && Ups(a) <= k
    ensures Walk(Place(1, Copies(z, k)), a).dirs == Copies(z, k)[..k - Ups(a)] + a[Ups(a)..]
  {
    WalkNormal(Place(1, Copies(z, k)), a, false);
  }

  /** Normal components that lead to the same place from one far directory are the same. */
  lemma SameNormal(a: seq<string>, b: seq<string>, z: string, k: nat)
    requires Normal(a, false) && Normal(b, false) && k == Ups(a) + Ups(b)
    requires Walk(Place(1, Copies(z, k)), a) == Walk(Place(1, Copies(z, k)), b)
    requires (forall x :: x in a ==> |x| < |z|) && (forall x :: x in b ==> |x| < |z|)
    ensures a == b
  {
    FarDirs(a, z, k);
    FarDirs(b, z, k);
    SameTails(a, b, z, k);
    SplitByUps(a, b);
  }

  lemma SameTails(a: seq<string>, b: seq<string>, z: string, k: nat)
    requires Ups(a) <= k && Ups(b) <= k
    requires Copies(z, k)[..k - Ups(a)] + a[Ups(a)..] == Copies(z, k)[..k - Ups(b)] + b[Ups(b)..]
    requires (forall x :: x in a ==> |x| < |z|) && (forall x :: x in b ==> |x| < |z|)
    ensures Ups(a) == Ups(b) && a[Ups(a)..] == b[Ups(b)..]
  {
    TailIn(a, Ups(a), z);
    TailIn(b, Ups(b), z);
    UpAndDownDiffer(z, k, Ups(a), Ups(b), a[Ups(a)..], b[Ups(b)..]);
  }

  /** A place to start from that tells relative paths apart. */
  ghost function FarFrom(z: string, a: seq<string>, b: seq<string>): Place {
    Place(1, Copies(z, Ups(a) + Ups(b)))
  }

  lemma RelativeLeads(cwd: Place, p: string, a: seq<string>)
    requires InitialSlashes(p) == 0 && a == KeepAll(Split(p), false)
    ensures Normal(a, false) && Leads(cwd, p) == Walk(cwd, a)
  {
    NormalizedParts(p);
    LeadsByKept(cwd, p);
  }

  lemma SameKeptFrom(p: string, q: string, a: seq<string>, b: seq<string>, z: string)
    requires InitialSlashes(p) == 0 && InitialSlashes(q) == 0
    requires a == KeepAll(Split(p), false) && b == KeepAll(Split(q), false)
    requires (forall x :: x in a ==> |x| < |z|) && (forall x :: x in b ==> |x| < |z|)
    requires Leads(FarFrom(z, a, b), p) == Leads(FarFrom(z, a, b), q)
    ensures a == b
  {
    RelativeLeads(FarFrom(z, a, b), p, a);
    RelativeLeads(FarFrom(z, a, b), q, b);
    SameNormal(a, b, z, Ups(a) + Ups(b));
  }

  lemma SameKept(p: string, q: string)
    requires InitialSlashes(p) == 0 && InitialSlashes(q) == 0
    requires forall cwd :: Leads(cwd, p) == Leads(cwd, q)
    ensures KeepAll(Split(p), false) == KeepAll(Split(q), false)
  {
    var a, b := KeepAll(Split(p), false), KeepAll(Split(q), false);
    var z := ForeignName(a, b);
    assert Leads(FarFrom(z, a, b), p) == Leads(FarFrom(z, a, b), q);
    SameKeptFrom(p, q, a, b, z);
  }

  /** Two paths normalize alike exactly if they lead to the same place from everywhere. */
  lemma NormalizeCanonical(p: string, q: string)
    ensures (forall cwd :: Leads(cwd, p) == Leads(cwd, q)) <==> Normalized(p) == Normalized(q)
  {
    if Normalized(p) == Normalized(q) {
      forall cwd ensures Leads(cwd, p) == Leads(cwd, q) {
        NormalizeKeepsMeaning(cwd, p);
        NormalizeKeepsMeaning(cwd, q);
      }
    }
    if forall cwd :: Leads(cwd, p) == Leads(cwd, q) {
      var far := Place(3, []);
      assert Leads(far, p) == Leads(far, q);
      RootOf(far, p);
      RootOf(far, q);
      if InitialSlashes(p) == 0 {
        SameKept(p, q);
      } else {
        AbsoluteLeads(far, p);
        AbsoluteLeads(far, q);
      }
    }
  }

  lemma {:induction false} WalkRoot(p: Place, comps: seq<string>)
    ensures Walk(p, comps).root == p.root
  {
    if comps != [] {
      WalkRoot(p, comps[..|comps| - 1]);
    }
  }

  lemma RootOf(cwd: Place, path: string)
    ensures Leads(cwd, path).root == if InitialSlashes(path) > 0 then InitialSlashes(path) else cwd.root
  {
    WalkRoot(if InitialSlashes(path) > 0 then Place(InitialSlashes(path), []) else cwd, Split(path));
  }

  lemma AbsoluteLeads(cwd: Place, path: string)
    requires InitialSlashes(path) > 0
    ensures Leads(cwd, path) == Place(InitialSlashes(path), KeepAll(Split(path), true))
  {
    var kept := KeepAll(Split(path), true);
    var root := Place(InitialSlashes(path), []);
    NormalizedParts(path);
    LeadsByKept(cwd, path);
    NoUpsBelowRoot(kept);
    WalkNormal(root, kept, true);
    assert root.dirs[..0] + kept[0..] == kept;
  }
}
