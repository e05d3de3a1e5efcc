/** Removing "." and ".." segments from a path, and what the result means. */
module DotSegments {
  import opened Segments

  /** `remove_last_segment_and_preceding_slash`: without a slash nothing is removed. Section
      5.2.4 of RFC 3986 removes the segment also when no slash precedes it; that is the
      `strict` variant, which the original does not have. */
  function DropLast(out: string, strict: bool): string {
    var k := AfterLastSlash(out);
    if k > 0 then out[..k - 1] else if strict then "" else out
  }

  /** What is left of the input, and what has been put out. */
  datatype Work = Work(input: string, out: string)

  /** One round of the loop. */
  function Step(w: Work, strict: bool): (r: Work)
    requires w.input != ""
    ensures |r.input| < |w.input|
  {
    var input := w.input;
    if "../" <= input then w.(input := input[3..])
    else if "./" <= input then w.(input := input[2..])
    else if "/./" <= input then w.(input := input[2..])
    else if input == "/." then w.(input := "/")
    else if "/../" <= input then Work(input[3..], DropLast(w.out, strict))
    else if input == "/.." then Work("/", DropLast(w.out, strict))
    else if input == "." || input == ".." then w.(input := "")
    else
      var k := 1 + FirstSlash(input[1..]);
      Work(input[k..], w.out + input[..k])
  }

  function Remove(w: Work, strict: bool): string
    decreases |w.input|
  {
    if w.input == "" then w.out else Remove(Step(w, strict), strict)
  }

  /** `memeql` on what is left of the buffer. */
  predicate StartsWith(buffer: array<char>, pos: nat, w: string)
    requires pos <= buffer.Length
    reads buffer
    ensures StartsWith(buffer, pos, w) <==> w <= buffer[pos..]
  {
    buffer.Length - pos >= |w| && buffer[pos..pos + |w|] == w
  }

  /** `remove_dot_segments`, on a buffer that the rules shorten from the front. Where a rule
      leaves a slash in front, it is written into the buffer. */
  method RemoveDotSegments(path: string) returns (result: string)
    ensures result == Remove(Work(path, ""), false)
  {
    result := "";
    var buffer := new char[|path|](i requires 0 <= i < |path| => path[i]);
    var pos := 0;
    assert buffer[..] == path;
    while pos < buffer.Length
      invariant 0 <= pos <= buffer.Length
      invariant Remove(Work(buffer[pos..], result), false) == Remove(Work(path, ""), false)
      decreases buffer.Length - pos
    {
      pos, result := Round(buffer, pos, result);
    }
    assert buffer[pos..] == "";
  }

  /** One round of the loop on the buffer: rules A and D, and the choice among the others. */
  method Round(buffer: array<char>, pos0: nat, out: string) returns (pos: nat, result: string)
    requires pos0 < buffer.Length
    modifies buffer
    ensures pos0 < pos <= buffer.Length
    ensures Work(buffer[pos..], result) == Step(Work(old(buffer[pos0..]), out), false)
  {
    pos, result := pos0, out;
    ghost var input := buffer[pos..];
    var left := buffer.Length - pos;
    if StartsWith(buffer, pos, "../") {
      pos := pos + 3;
    } else if StartsWith(buffer, pos, "./") {
      pos := pos + 2;
    } else if StartsWith(buffer, pos, "/./") || StartsWith(buffer, pos, "/../") {
      pos, result := DotRound(buffer, pos, out);
    } else if (left == 2 && StartsWith(buffer, pos, "/.")) || (left == 3 && StartsWith(buffer, pos, "/..")) {
      pos, result := LastDotRound(buffer, pos, out);
    } else if left == 1 && buffer[pos] == '.' {
      assert input == ".";
      pos := pos + 1;
    } else if left == 2 && StartsWith(buffer, pos, "..") {
      assert input == "..";
      pos := pos + 2;
    } else {
      pos, result := SegmentRound(buffer, pos, out);
    }
  }

  /** Rules B and C in the middle of the input. */
  method DotRound(buffer: array<char>, pos0: nat, out: string) returns (pos: nat, result: string)
    requires pos0 < buffer.Length && (StartsWith(buffer, pos0, "/./") || StartsWith(buffer, pos0, "/../"))
    modifies buffer
    ensures pos0 < pos <= buffer.Length
    ensures Work(buffer[pos..], result) == Step(Work(old(buffer[pos0..]), out), false)
  {
    ghost var input := buffer[pos0..];
    assert input[0] == '/';
    if StartsWith(buffer, pos0, "/./") {
      pos, result := pos0 + 2, out;
      buffer[pos] := '/';
      assert buffer[pos..] == input[2..];
    } else {
      pos, result := pos0 + 3, DropLast(out, false);
      buffer[pos] := '/';
      assert input[2] == '.' && buffer[pos..] == input[3..];
    }
  }

  /** Rules B and C at the end of the input. */
  method LastDotRound(buffer: array<char>, pos0: nat, out: string) returns (pos: nat, result: string)
    requires pos0 < buffer.Length && (buffer[pos0..] == "/." || buffer[pos0..] == "/..")
    modifies buffer
    ensures pos0 < pos <= buffer.Length
    ensures Work(buffer[pos..], result) == Step(Work(old(buffer[pos0..]), out), false)
  {
    assert buffer[pos0..][0] == '/';
    if buffer.Length - pos0 == 2 {
      pos, result := pos0 + 1, out;
    } else {
      pos, result := pos0 + 2, DropLast(out, false);
    }
    buffer[pos] := '/';
    assert buffer[pos..] == "/";
  }

  /** Rule E: the first segment, with the slash before it if there is one, goes to the output. */
  method SegmentRound(buffer: array<char>, pos0: nat, out: string) returns (pos: nat, result: string)
    requires pos0 < buffer.Length
    requires Plain(buffer[pos0..])
    ensures pos0 < pos <= buffer.Length
    ensures Work(buffer[pos..], result) == Step(Work(buffer[pos0..], out), false)
  {
    ghost var input := buffer[pos0..];
    assert buffer[pos0 + 1..] == input[1..];
    var k := 1 + FirstSlash(buffer[pos0 + 1..]);
    PlainStep(input, k, out, false);
    pos, result := pos0 + k, out + buffer[pos0..pos0 + k];
    assert buffer[pos0..pos0 + k] == input[..k] && buffer[pos..] == input[k..];
  }

  // ---------------------------------------------------------------------------
  // What the rules compute
  // ---------------------------------------------------------------------------

  ghost function Popped(stack: seq<string>): seq<string> {
    if stack == [] then [] else stack[..|stack| - 1]
  }

  /** The reading of section 5.2.4 of RFC 3986 on segments: "." stays where one is, ".." goes
      back one segment, and either of them at the end leaves a trailing slash. */
  ghost function Resolve(segs: seq<string>, stack: seq<string>): seq<string>
    decreases |segs|
  {
    if segs == [] then stack
    else if segs[0] == "." then
      if |segs| == 1 then stack + [""] else Resolve(segs[1..], stack)
    else if segs[0] == ".." then
      if |segs| == 1 then Popped(stack) + [""] else Resolve(segs[1..], Popped(stack))
    else Resolve(segs[1..], stack + [segs[0]])
  }

  /** Some ".." finds the stack empty. */
  ghost predicate Underflows(segs: seq<string>, stack: seq<string>)
    decreases |segs|
  {
    segs != [] &&
    if segs[0] == "." then Underflows(segs[1..], stack)
    else if segs[0] == ".." then stack == [] || Underflows(segs[1..], Popped(stack))
    else Underflows(segs[1..], stack + [segs[0]])
  }

  ghost predicate IsDots(x: string) {
    x == "." || x == ".."
  }

  ghost predicate NoDots(segs: seq<string>) {
    forall x :: x in segs ==> !IsDots(x)
  }

  lemma RenderSnoc(stack: seq<string>, x: string)
    ensures Render(stack + [x]) == Render(stack) + "/" + x
  {
    RenderAppend(stack, [x]);
    assert Render([x]) == "/" + x + "";
  }

  lemma LastSlash(base: string, x: string)
    requires NoSlash(x)
    ensures AfterLastSlash(base + "/" + x) == |base| + 1
  {
    var s := base + "/" + x;
    assert s[|base|] == '/';
    forall i | |base| < i < |s| ensures s[i] != '/' {
      assert s[i] == x[i - |base| - 1] && x[i - |base| - 1] in x;
    }
  }

  lemma DropLastOf(base: string, x: string, strict: bool)
    requires NoSlash(x)
    ensures DropLast(base + ("/" + x), strict) == base
  {
    assert base + ("/" + x) == base + "/" + x;
    LastSlash(base, x);
    assert (base + "/" + x)[..|base|] == base;
  }

  lemma DropLastOfNone(f: string, strict: bool)
    requires NoSlash(f)
    ensures DropLast(f, strict) == if strict then "" else f
  {
    assert AfterLastSlash(f) == 0;
  }

  lemma OutputSnoc(f: string, stack: seq<string>, x: string)
    ensures f + Render(stack) + ("/" + x) == f + Render(stack + [x])
  {
    RenderSnoc(stack, x);
  }

  /** With nothing on the stack only a first segment without a slash before it is there; it
      stays, unless in the strict variant. */
  lemma DropLastOfEmpty(f: string, strict: bool)
    requires NoSlash(f)
    ensures DropLast(f + Render([]), strict) == (if strict then "" else f) + Render(Popped([]))
  {
    NothingRendered(f);
    NothingRendered("");
    DropLastOfNone(f, strict);
  }

  lemma NothingRendered(f: string)
    ensures f + Render([]) == f
  {
  }

  lemma DropLastOfTop(f: string, front: seq<string>, x: string, strict: bool)
    requires NoSlash(x)
    ensures DropLast(f + Render(front + [x]), strict) == f + Render(front)
  {
    OutputSnoc(f, front, x);
    DropLastOf(f + Render(front), x, strict);
  }

  lemma PoppedTop(stack: seq<string>)
    requires stack != []
    ensures Popped(stack) + [stack[|stack| - 1]] == stack
  {
  }

  /** Dropping the last segment of the output pops the stack. */
  lemma DropLastPops(f: string, stack: seq<string>, strict: bool)
    requires NoSlash(f) && (stack != [] ==> NoSlash(stack[|stack| - 1]))
    ensures DropLast(f + Render(stack), strict) == (if strict && stack == [] then "" else f) + Render(Popped(stack))
  {
    if stack == [] {
      DropLastOfEmpty(f, strict);
    } else {
      PoppedTop(stack);
      DropLastOfTop(f, Popped(stack), stack[|stack| - 1], strict);
    }
  }

  /** The rules look at the first segment only. */
  lemma HeadTests(h: string, t: seq<string>, x: string)
    requires NoSlash(h) && NoSlash(x)
    ensures "/" + x + "/" <= "/" + h + Render(t) <==> h == x && t != []
    ensures "/" + h + Render(t) == "/" + x <==> h == x && t == []
  {
    var s := "/" + h + Render(t);
    RenderStart(t);
    SlashAfterHead(h, t);
    assert s[1..] == h + Render(t);
    if "/" + x + "/" <= s {
      assert s[1..][..|x|] == x && s[1..][|x|] == '/';
      assert forall i :: 0 <= i < |x| ==> s[1..][i] == x[i] && x[i] in x;
      assert FirstSlash(s[1..]) == |x|;
      assert s[1..][..|h|] == h;
    }
    assert t != [] ==> s[1..][|h|] == '/';
    if s == "/" + x {
      assert s[1..] == x;
    }
  }

  lemma DotTests(h: string, t: seq<string>)
    requires NoSlash(h)
    ensures var s := "/" + h + Render(t);
            && ("/./" <= s <==> h == "." && t != []) && (s == "/." <==> h == "." && t == [])
            && ("/../" <= s <==> h == ".." && t != []) && (s == "/.." <==> h == ".." && t == [])
            && s[0] == '/'
  {
    HeadTests(h, t, ".");
    HeadTests(h, t, "..");
    assert "/" + "." + "/" == "/./" && "/" + ".." + "/" == "/../";
    assert "/" + "." == "/." && "/" + ".." == "/..";
  }

  /** Rules B and C: a dot segment goes, with what it takes away. */
  lemma DotStep(h: string, t: seq<string>, out: string, strict: bool)
    requires IsDots(h) && AllNoSlash(t)
    ensures Step(Work("/" + h + Render(t), out), strict) ==
            Work(if t == [] then "/" else Render(t), if h == "." then out else DropLast(out, strict))
  {
    DotTests(h, t);
    assert ("/" + h + Render(t))[1 + |h|..] == Render(t);
  }

  /** No rule but the last one applies. */
  ghost predicate Plain(input: string) {
    && input != "" && !("../" <= input) && !("./" <= input) && !("/./" <= input) && input != "/."
    && !("/../" <= input) && input != "/.." && input != "." && input != ".."
  }

  lemma PlainStep(input: string, k: nat, out: string, strict: bool)
    requires Plain(input) && k == 1 + FirstSlash(input[1..])
    ensures Step(Work(input, out), strict) == Work(input[k..], out + input[..k])
  {
  }

  lemma HeadCuts(h: string, t: seq<string>)
    ensures var input := "/" + h + Render(t);
            && input[1..] == h + Render(t) && input[..1 + |h|] == "/" + h && input[1 + |h|..] == Render(t)
  {
  }

  lemma OtherIsPlain(h: string, t: seq<string>)
    requires NoSlash(h) && !IsDots(h)
    ensures Plain("/" + h + Render(t))
  {
    DotTests(h, t);
  }

  /** Rule E: any other segment goes to the output. */
  lemma OtherStep(h: string, t: seq<string>, out: string, strict: bool)
    requires NoSlash(h) && !IsDots(h) && AllNoSlash(t)
    ensures Step(Work("/" + h + Render(t), out), strict) == Work(Render(t), out + ("/" + h))
  {
    OtherIsPlain(h, t);
    SlashAfterHead(h, t);
    HeadCuts(h, t);
    PlainStep("/" + h + Render(t), 1 + |h|, out, strict);
  }

  lemma LoneSlash(out: string, strict: bool)
    ensures Remove(Work("/", out), strict) == out + "/"
  {
    OtherStep("", [], out, strict);
    assert "/" + "" + Render([]) == "/";
    assert "/" + "" == "/";
  }

  /** What is left of the first segment. */
  ghost function First(f: string, segs: seq<string>, stack: seq<string>, strict: bool): string {
    if strict && Underflows(segs, stack) then "" else f
  }

  /** On slash-separated input the rules work the stack. Whatever `f` stands in front of the
      output is never touched, except that the strict variant removes it when the stack is
      empty. */
  lemma {:induction false} RemoveResolves(segs: seq<string>, f: string, stack: seq<string>, strict: bool)
    requires NoSlash(f) && AllNoSlash(segs) && AllNoSlash(stack)
    ensures Remove(Work(Render(segs), f + Render(stack)), strict)
            == First(f, segs, stack, strict) + Render(Resolve(segs, stack))
    decreases |segs|
  {
    if segs != [] {
      var h, t := segs[0], segs[1..];
      if h == "." || h == ".." {
        DotStep(h, t, f + Render(stack), strict);
        assert stack != [] ==> stack[|stack| - 1] in stack;
        DropLastPops(f, stack, strict);
        var s := if h == "." then stack else Popped(stack);
        var g := if h == ".." && strict && stack == [] then "" else f;
        DotsResolve(segs, f, stack, strict);
        if t == [] {
          LoneSlash(g + Render(s), strict);
          OutputSnoc(g, s, "");
          assert "/" + "" == "/";
        } else {
          RemoveResolves(t, g, s, strict);
        }
      } else {
        OtherStep(h, t, f + Render(stack), strict);
        OutputSnoc(f, stack, h);
        RemoveResolves(t, f, stack + [h], strict);
      }
    }
  }

  /** A dot segment in front: how it changes the stack and the first segment. */
  lemma DotsResolve(segs: seq<string>, f: string, stack: seq<string>, strict: bool)
    requires segs != [] && IsDots(segs[0])
    ensures var s := if segs[0] == "." then stack else Popped(stack);
            var g := if segs[0] == ".." && strict && stack == [] then "" else f;
            && Resolve(segs, stack) == (if |segs| == 1 then s + [""] else Resolve(segs[1..], s))
            && First(f, segs, stack, strict) == First(g, segs[1..], s, strict)
  {
  }

  /** On every path that begins with a slash the result is the stack reading of its
      segments, in both variants. */
  lemma AbsoluteIsStackReading(path: string, strict: bool)
    requires path != "" && path[0] == '/'
    ensures Remove(Work(path, ""), strict) == Render(Resolve(Split(path[1..]), []))
  {
    RenderSplit(path[1..]);
    SplitNoSlash(path[1..]);
    assert path == "/" + path[1..];
    RemoveResolves(Split(path[1..]), "", [], strict);
    assert "" + Render([]) == "";
    assert "" + Render(Resolve(Split(path[1..]), [])) == Render(Resolve(Split(path[1..]), []));
  }

  /** A relative path loses leading "../" and "./". */
  ghost function WithoutLeadingDots(path: string): (r: string)
    ensures |r| <= |path| && !("../" <= r) && !("./" <= r)
    decreases |path|
  {
    if "../" <= path then WithoutLeadingDots(path[3..])
    else if "./" <= path then WithoutLeadingDots(path[2..])
    else path
  }

  /** What becomes of any path: leading dots go, a first segment without a slash before it
      stays for good, and the rest is read as a stack. */
  ghost function Meaning(path: string, strict: bool): string {
    var p := WithoutLeadingDots(path);
    if p == "" || IsDots(p) then "" else
    var segs := Split(p);
    First(segs[0], segs[1..], [], strict) + Render(Resolve(segs[1..], []))
  }

  lemma {:induction false} LeadingDotsGo(path: string, strict: bool)
    ensures Remove(Work(path, ""), strict) == Remove(Work(WithoutLeadingDots(path), ""), strict)
    decreases |path|
  {
    if "../" <= path {
      LeadingDotsGo(path[3..], strict);
    } else if "./" <= path {
      LeadingDotsGo(path[2..], strict);
    }
  }

  lemma SplitTail(p: string)
    ensures var k := FirstSlash(p);
            Split(p)[0] == p[..k] && Split(p)[1..] == if k == |p| then [] else Split(p[k + 1..])
  {
  }

  lemma FromSlash(p: string, k: nat)
    requires k < |p| && p[k] == '/'
    ensures "/" + p[k + 1..] == p[k..]
  {
  }

  /** What follows the first segment, as the slashes and segments of the rest. */
  lemma RestAfterFirst(p: string)
    ensures var k := FirstSlash(p);
            Split(p)[0] == p[..k] && Render(Split(p)[1..]) == p[k..]
  {
    var k := FirstSlash(p);
    SplitTail(p);
    if k < |p| {
      RenderSplit(p[k + 1..]);
      FromSlash(p, k);
    }
  }

  lemma PlainMoves(p: string, k: nat, strict: bool)
    requires Plain(p) && p[0] != '/' && k == FirstSlash(p)
    ensures Step(Work(p, ""), strict) == Work(p[k..], p[..k])
  {
    PlainStep(p, k, "", strict);
    assert "" + p[..k] == p[..k];
  }

  /** A first segment without slash is moved to the output as it is. */
  lemma FirstSegmentMoves(p: string, strict: bool)
    requires Plain(p) && p[0] != '/'
    ensures Remove(Work(p, ""), strict) == Remove(Work(Render(Split(p)[1..]), Split(p)[0]), strict)
  {
    PlainMoves(p, FirstSlash(p), strict);
    RestAfterFirst(p);
  }

  lemma HeadNoSlash(segs: seq<string>)
    requires segs != [] && AllNoSlash(segs)
    ensures NoSlash(segs[0]) && AllNoSlash(segs[1..])
  {
    assert segs[0] in segs;
  }

  /** The meaning of the rules on every path. */
  lemma RemoveMeans(path: string, strict: bool)
    ensures Remove(Work(path, ""), strict) == Meaning(path, strict)
  {
    LeadingDotsGo(path, strict);
    var p := WithoutLeadingDots(path);
    if p != "" && !IsDots(p) {
      var segs := Split(p);
      SplitNoSlash(p);
      HeadNoSlash(segs);
      if p[0] == '/' {
        AbsoluteIsStackReading(p, strict);
        assert FirstSlash(p) == 0;
        SplitTail(p);
      } else {
        FirstSegmentMoves(p, strict);
        RemoveResolves(segs[1..], segs[0], [], strict);
        NothingRendered(segs[0]);
      }
    }
  }

  /** Where the original departs from the RFC: exactly on paths that begin with a segment
      and not with a slash, and in which some ".." would have to remove that segment. */
  lemma DiffersFromRfcExactlyWhen(path: string)
    ensures var p := WithoutLeadingDots(path);
            Remove(Work(path, ""), false) != Remove(Work(path, ""), true) <==>
            p != "" && !IsDots(p) && p[0] != '/' && Underflows(Split(p)[1..], [])
  {
    RemoveMeans(path, false);
    RemoveMeans(path, true);
    var p := WithoutLeadingDots(path);
    if p != "" && !IsDots(p) {
      var k := FirstSlash(p);
      assert Split(p)[0] == p[..k];
      var r := Render(Resolve(Split(p)[1..], []));
      assert |p[..k] + r| == |"" + r| + k;
    }
  }

  lemma RenderOne(x: string)
    ensures Render([x]) == "/" + x
  {
    assert [x][1..] == [];
  }

  lemma WitnessSplit()
    ensures Split("a/../b") == ["a"] + ["..", "b"]
  {
    RenderOne("b");
    assert ["..", "b"][1..] == ["b"];
    assert Render(["..", "b"]) == "/../b";
    SplitRender("a", ["..", "b"]);
    assert "a" + "/../b" == "a/../b";
  }

  lemma WitnessResolve()
    ensures Underflows(["..", "b"], []) && Resolve(["..", "b"], []) == ["b"]
  {
    assert ["..", "b"][1..] == ["b"] && ["b"][1..] == [];
  }

  lemma WitnessMeaning(strict: bool)
    ensures Meaning("a/../b", strict) == (if strict then "" else "a") + "/b"
  {
    WitnessSplit();
    assert (["a"] + ["..", "b"])[1..] == ["..", "b"];
    WitnessResolve();
    RenderOne("b");
  }

  /** Such a path: the RFC removes "a", the original keeps it. */
  lemma DiffersWitness()
    ensures Remove(Work("a/../b", ""), false) == "a/b"
    ensures Remove(Work("a/../b", ""), true) == "/b"
  {
    RemoveMeans("a/../b", false);
    RemoveMeans("a/../b", true);
    WitnessMeaning(false);
    WitnessMeaning(true);
  }

  // ---------------------------------------------------------------------------
  // No dots remain, and nothing is left to do
  // ---------------------------------------------------------------------------

  lemma {:induction false} ResolveNoDots(segs: seq<string>, stack: seq<string>)
    requires NoDots(stack) && AllNoSlash(segs) && AllNoSlash(stack)
    ensures NoDots(Resolve(segs, stack)) && AllNoSlash(Resolve(segs, stack))
    decreases |segs|
  {
    if segs != [] {
      assert segs[0] in segs;
      if segs[0] == "." {
        ResolveNoDots(segs[1..], stack);
      } else if segs[0] == ".." {
        ResolveNoDots(segs[1..], Popped(stack));
      } else {
        ResolveNoDots(segs[1..], stack + [segs[0]]);
      }
    }
  }

  lemma {:induction false} NothingToResolve(segs: seq<string>, stack: seq<string>)
    requires NoDots(segs)
    ensures Resolve(segs, stack) == stack + segs
    decreases |segs|
  {
    if segs != [] {
      assert segs[0] in segs;
      NothingToResolve(segs[1..], stack + [segs[0]]);
      assert stack + [segs[0]] + segs[1..] == stack + segs;
    } else {
      assert stack + [] == stack;
    }
  }

  /** The first segment that stays is no dot segment. */
  lemma FirstIsNoDot(p: string)
    requires p != "" && !IsDots(p) && !("../" <= p) && !("./" <= p)
    ensures !IsDots(Split(p)[0])
  {
    var k := FirstSlash(p);
    assert "." + "/" == "./" && ".." + "/" == "../";
    assert k < |p| ==> p[..k] + "/" <= p;
    assert k == |p| ==> p[..k] == p;
  }

  /** The segments of the result: none of them is "." or "..". */
  lemma ResultHasNoDots(path: string)
    ensures NoDots(Split(Remove(Work(path, ""), false)))
  {
    RemoveMeans(path, false);
    var p := WithoutLeadingDots(path);
    if p == "" || IsDots(p) {
      assert Split("") == [""];
    } else {
      var segs := Split(p);
      SplitNoSlash(p);
      assert segs[0] in segs && AllNoSlash(segs[1..]);
      FirstIsNoDot(p);
      ResolveNoDots(segs[1..], []);
      SplitRender(segs[0], Resolve(segs[1..], []));
    }
  }

  lemma LeadingDotsAreFirst(p: string)
    ensures "../" <= p || "./" <= p || IsDots(p) ==> IsDots(Split(p)[0])
  {
    var k := FirstSlash(p);
    assert Split(p)[0] == p[..k];
    if "../" <= p {
      assert p[0] == '.' && p[1] == '.' && p[2] == '/';
      assert p[..2] == ".." && k == 2;
    } else if "./" <= p {
      assert p[0] == '.' && p[1] == '/';
      assert p[..1] == "." && k == 1;
    } else if IsDots(p) {
      assert k == |p| && p[..k] == p;
    }
  }

  /** The first segment and the rendered rest make up the path. */
  lemma HeadAndRest(p: string)
    ensures Split(p)[0] + Render(Split(p)[1..]) == p
  {
    RestAfterFirst(p);
    assert p[..FirstSlash(p)] + p[FirstSlash(p)..] == p;
  }

  lemma NoDotsMeansItself(p: string)
    requires NoDots(Split(p))
    ensures Meaning(p, false) == p
  {
    var segs := Split(p);
    assert segs[0] in segs;
    LeadingDotsAreFirst(p);
    if p != "" {
      NothingToResolve(segs[1..], []);
      assert [] + segs[1..] == segs[1..];
      HeadAndRest(p);
    }
  }

  /** Removing dot segments again changes nothing. */
  lemma RemoveIdempotent(path: string)
    ensures Remove(Work(Remove(Work(path, ""), false), ""), false) == Remove(Work(path, ""), false)
  {
    ResultHasNoDots(path);
    RemoveMeans(Remove(Work(path, ""), false), false);
    NoDotsMeansItself(Remove(Work(path, ""), false));
  }
}
