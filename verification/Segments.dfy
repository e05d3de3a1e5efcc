/** Splitting paths at slashes and putting them together again. */
module Segments {

  function SlashFrom(s: string, i: nat): (k: nat)
    requires i <= |s|
    ensures i <= k <= |s| && (k < |s| ==> s[k] == '/')
    ensures forall j :: i <= j < k ==> s[j] != '/'
    decreases |s| - i
  {
    if i == |s| || s[i] == '/' then i else SlashFrom(s, i + 1)
  }

  /** Position of the first slash, or the length. */
  function FirstSlash(s: string): (k: nat)
    ensures k <= |s| && (k < |s| ==> s[k] == '/')
    ensures forall j :: 0 <= j < k ==> s[j] != '/'
  {
    SlashFrom(s, 0)
  }

  function AfterSlash(s: string, n: nat): (k: nat)
    requires n <= |s|
    ensures k <= n && (k > 0 ==> s[k - 1] == '/')
    ensures forall j :: k <= j < n ==> s[j] != '/'
  {
    if n == 0 || s[n - 1] == '/' then n else AfterSlash(s, n - 1)
  }

  /** Position after the last slash, or 0. */
  function AfterLastSlash(s: string): (k: nat)
    ensures k <= |s| && (k > 0 ==> s[k - 1] == '/')
    ensures forall j :: k <= j < |s| ==> s[j] != '/'
  {
    AfterSlash(s, |s|)
  }

  ghost predicate NoSlash(s: string) {
    '/' !in s
  }

  ghost predicate AllNoSlash(segs: seq<string>) {
    forall x :: x in segs ==> NoSlash(x)
  }

  /** `SplitStringKeepEmpty` at slashes. */
  function Split(s: string): (segs: seq<string>)
    ensures segs != []
    decreases |s|
  {
    var k := FirstSlash(s);
    if k == |s| then [s] else [s[..k]] + Split(s[k + 1..])
  }

  /** Every segment with a slash before it. */
  function Render(segs: seq<string>): string {
    if segs == [] then "" else "/" + segs[0] + Render(segs[1..])
  }

  lemma {:induction false} SplitNoSlash(s: string)
    ensures AllNoSlash(Split(s))
    decreases |s|
  {
    var k := FirstSlash(s);
    if k < |s| {
      SplitNoSlash(s[k + 1..]);
    }
  }

  /** Splitting loses nothing. */
  lemma {:induction false} RenderSplit(s: string)
    ensures Render(Split(s)) == "/" + s
    decreases |s|
  {
    var k := FirstSlash(s);
    if k == |s| {
      assert Render([s]) == "/" + s + "";
    } else {
      RenderSplit(s[k + 1..]);
      var segs := Split(s);
      assert segs[1..] == Split(s[k + 1..]);
      assert s == s[..k] + "/" + s[k + 1..];
    }
  }

  lemma RenderStart(segs: seq<string>)
    ensures segs != [] ==> Render(segs) != "" && Render(segs)[0] == '/'
    ensures segs == [] ==> Render(segs) == ""
  {
  }

  lemma {:induction false} RenderAppend(a: seq<string>, b: seq<string>)
    ensures Render(a + b) == Render(a) + Render(b)
  {
    if a == [] {
      assert a + b == b;
    } else {
      assert (a + b)[1..] == a[1..] + b;
      RenderAppend(a[1..], b);
    }
  }

  /** The first segment ends at the first slash. */
  lemma SlashAfterHead(h: string, t: seq<string>)
    requires NoSlash(h)
    ensures FirstSlash(h + Render(t)) == |h|
  {
    var s := h + Render(t);
    RenderStart(t);
    var k := FirstSlash(s);
    assert forall i :: 0 <= i < |h| ==> s[i] == h[i] && h[i] in h;
    assert t != [] ==> s[|h|] == Render(t)[0];
  }

  /** Rendering loses nothing either, as long as no segment contains a slash. */
  lemma {:induction false} SplitRender(h: string, t: seq<string>)
    requires NoSlash(h) && AllNoSlash(t)
    ensures Split(h + Render(t)) == [h] + t
    decreases |t|
  {
    var s := h + Render(t);
    SlashAfterHead(h, t);
    if t == [] {
      assert s == h;
    } else {
      assert t[0] in t;
      SplitRender(t[0], t[1..]);
      assert s[..|h|] == h;
      assert s[|h| + 1..] == t[0] + Render(t[1..]);
    }
  }
}
