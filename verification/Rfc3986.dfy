/** The path normaliser against remove_dot_segments, section 5.2.4 of RFC 3986. */
module Rfc3986 {
  import opened Paths

  // ----- The RFC's own loop over two buffers -----

  /** Removes the last segment and its preceding slash, if any: an output without a slash becomes empty. */
  function Drop(output: string): string {
    var p := LastIndexOf(output, '/');
    if p >= 0 then output[..p] else ""
  }

  /** Step 2 of section 5.2.4, rules A to E. */
  function Pass(input: string, output: string): (r: (string, string))
    requires input != ""
    ensures |r.0| < |input|
  {
    if "../" <= input then (input[3..], output)
    else if "./" <= input then (input[2..], output)
    else if "/./" <= input then ("/" + input[3..], output)
    else if input == "/." then ("/", output)
    else if "/../" <= input then ("/" + input[4..], Drop(output))
    else if input == "/.." then ("/", Drop(output))
    else if input == "." || input == ".." then ("", output)
    else
      var position := IndexOf(input, '/', if input[0] == '/' then 1 else 0);
      (input[position..], output + input[..position])
  }

  function RemoveDotSegments(input: string, output: string): string
    decreases |input|
  {
    if input == "" then output
    else var r := Pass(input, output); RemoveDotSegments(r.0, r.1)
  }

  // ----- The same on segments -----

  /** The RFC drops the first segment of a relative path too, when ".." climbs above it. */
  function RfcResolve(head: string, stack: seq<string>, segs: seq<string>): string
    requires segs != []
    decreases |segs|
  {
    var head' := if segs[0] == ".." && stack == [] then "" else head;
    if |segs| == 1 then head' + Render(Resolve(stack, segs))
    else RfcResolve(head', Act(stack, segs[0]), segs[1..])
  }

  function RfcNormalized(s: string): string {
    var t := StripDots(s);
    if t == "" || IsDot(t) then ""
    else
      var p := IndexOf(t, '/', 0);
      if p == |t| then t else RfcResolve(t[..p], [], Split(t[p + 1..]))
  }

  /** Some ".." finds the stack empty. */
  predicate Climbs(stack: seq<string>, segs: seq<string>)
    decreases |segs|
  {
    segs != [] && ((segs[0] == ".." && stack == []) || Climbs(Act(stack, segs[0]), segs[1..]))
  }

  lemma {:induction false} RfcWithoutHead(stack: seq<string>, segs: seq<string>)
    requires segs != []
    ensures RfcResolve("", stack, segs) == Render(Resolve(stack, segs))
    ensures RfcResolve("", stack, segs) != "" && RfcResolve("", stack, segs)[0] == '/'
    decreases |segs|
  {
    if |segs| > 1 {
      RfcWithoutHead(Act(stack, segs[0]), segs[1..]);
    } else {
      assert Resolve(stack, segs) != [];
      assert "" + Render(Resolve(stack, segs)) == Render(Resolve(stack, segs));
    }
  }

  lemma {:induction false} RfcWithHead(head: string, stack: seq<string>, segs: seq<string>)
    requires segs != [] && head != "" && head[0] != '/'
    ensures RfcResolve(head, stack, segs) == head + Render(Resolve(stack, segs)) <==> !Climbs(stack, segs)
    decreases |segs|
  {
    if segs[0] == ".." && stack == [] {
      RfcWithoutHead(stack, segs);
    } else if |segs| > 1 {
      RfcWithHead(head, Act(stack, segs[0]), segs[1..]);
    }
  }

  // ----- The loop computes what the segments say -----

  function DropHead(head: string, stack: seq<string>, seg: string): string {
    if seg == ".." && stack == [] then "" else head
  }

  function EmitRfc(output: string, seg: string): string {
    if seg == "." then output else if seg == ".." then Drop(output) else output + "/" + seg
  }

  /** On an absolute input, one pass looks only at the first segment. */
  lemma PassAbsolute(input: string, output: string)
    requires input != "" && input[0] == '/'
    ensures Pass(input, output) == (After(input), EmitRfc(output, First(input)))
    ensures After(input) != "" ==> After(input)[0] == '/'
  {
    hide Drop, DropLast;
    RewriteAbsolute(input, output);
    DotGuard(input, ".");
    DotGuard(input, "..");
  }

  lemma EmitIsActRfc(head: string, stack: seq<string>, seg: string)
    requires '/' !in head && NoSlash(stack) && '/' !in seg
    ensures EmitRfc(head + Render(stack), seg) == DropHead(head, stack, seg) + Render(Act(stack, seg))
    ensures NoSlash(Act(stack, seg)) && '/' !in DropHead(head, stack, seg)
  {
    hide Render, Drop, DropLast;
    EmitIsAct(head, stack, seg);
    var o := head + Render(stack);
    DropIs(o);
    RenderNone(head);
    RenderNone("");
    if stack != [] { RenderHasSlash(stack); }
  }

  lemma DropIs(output: string)
    ensures Drop(output) == if '/' in output then DropLast(output) else ""
  {
  }

  lemma RenderHasSlash(stack: seq<string>)
    requires stack != []
    ensures '/' in Render(stack)
  {
    var front, last := Pop(stack), stack[|stack| - 1];
    assert stack == front + [last];
    RenderPush(front, last);
    assert (Render(front) + "/" + last)[|Render(front)|] == '/';
  }

  lemma {:induction false} RemovesAbsolute(head: string, stack: seq<string>, input: string)
    requires '/' !in head && NoSlash(stack) && (input != "" ==> input[0] == '/')
    ensures RemoveDotSegments(input, head + Render(stack))
         == if input == "" then head + Render(stack) else RfcResolve(head, stack, Split(input[1..]))
    decreases |input|
  {
    hide Render, Split;
    if input != "" {
      var seg := First(input);
      PassAbsolute(input, head + Render(stack));
      SplitAbsolute(input);
      EmitIsActRfc(head, stack, seg);
      RemovesAbsolute(DropHead(head, stack, seg), Act(stack, seg), After(input));
      ResolveStep(head, stack, input);
    }
  }

  lemma ResolveStep(head: string, stack: seq<string>, input: string)
    requires input != "" && input[0] == '/'
    ensures var seg, head' := First(input), DropHead(head, stack, First(input));
            RfcResolve(head, stack, Split(input[1..]))
            == if After(input) == "" then head' + Render(Act(stack, seg))
               else RfcResolve(head', Act(stack, seg), Split(After(input)[1..]))
  {
    hide Render;
    SplitAbsolute(input);
    var seg, p := First(input), End(input);
    if p < |input| {
      var segs := Split(input[p + 1..]);
      assert input[p..][1..] == input[p + 1..];
      assert ([seg] + segs)[1..] == segs;
    } else if IsDot(seg) {
      assert "/"[1..] == "" && Split("") == [""];
      assert Resolve(Act(stack, seg), [""]) == Act(stack, seg) + [""];
    } else {
      assert Act(stack, seg) + [] == Act(stack, seg);
    }
  }

  lemma StripLoop(input: string, n: nat)
    requires ("../" <= input && n == 3) || ("./" <= input && n == 2)
    ensures RemoveDotSegments(input, "") == RemoveDotSegments(input[n..], "")
  {
    hide IndexOf, Drop;
    PrefixesDiffer(input);
    assert Pass(input, "") == (input[n..], "");
    hide Pass;
  }

  lemma StripSegments(input: string, n: nat)
    requires ("../" <= input && n == 3) || ("./" <= input && n == 2)
    ensures RfcNormalized(input) == RfcNormalized(input[n..])
  {
    hide IndexOf, Split, RfcResolve;
    PrefixesDiffer(input);
    assert StripDots(input) == StripDots(input[n..]);
    hide StripDots;
  }

  lemma SettledSegments(input: string)
    requires Settled(input)
    ensures var p := IndexOf(input, '/', 0);
            RfcNormalized(input) == if p == |input| then input else RfcResolve(input[..p], [], Split(input[p..][1..]))
  {
    hide RfcResolve, Split;
    var p := IndexOf(input, '/', 0);
    assert StripDots(input) == input;
    assert p < |input| ==> input[p..][1..] == input[p + 1..];
  }

  lemma NothingLeft(input: string)
    requires input == "" || IsDot(input)
    ensures RemoveDotSegments(input, "") == "" == RfcNormalized(input)
  {
  }

  lemma PrefixesDiffer(input: string)
    ensures !("../" <= input && "./" <= input)
  {
    assert "../"[1] != "./"[1];
  }

  lemma SettledLoop(input: string)
    requires Settled(input)
    ensures var p := IndexOf(input, '/', 0); RemoveDotSegments(input, "") == RemoveDotSegments(input[p..], input[..p])
  {
    var p := IndexOf(input, '/', 0);
    if p == 0 {
      assert input[p..] == input && input[..p] == "";
    } else {
      assert "" + input[..p] == input[..p];
    }
  }

  /** For every input the RFC's loop is the segment definition. */
  lemma {:induction false} RemovesDotSegments(input: string)
    ensures RemoveDotSegments(input, "") == RfcNormalized(input)
    decreases |input|
  {
    hide RfcResolve, Render, Split, RemoveDotSegments, RfcNormalized;
    if "../" <= input {
      StripLoop(input, 3);
      StripSegments(input, 3);
      RemovesDotSegments(input[3..]);
    } else if "./" <= input {
      StripLoop(input, 2);
      StripSegments(input, 2);
      RemovesDotSegments(input[2..]);
    } else if Settled(input) {
      var p := IndexOf(input, '/', 0);
      SettledLoop(input);
      SettledSegments(input);
      RemovesAbsolute(input[..p], [], input[p..]);
      RenderNone(input[..p]);
    } else {
      NothingLeft(input);
    }
  }

  // ----- Where the code departs -----

  /** A relative path in which ".." climbs above the first segment. */
  predicate ClimbsAboveFirst(s: string) {
    var t := StripDots(s);
    var p := IndexOf(t, '/', 0);
    0 < p < |t| && Climbs([], Split(t[p + 1..]))
  }

  /** The code computes remove_dot_segments exactly on the inputs that do not climb above a relative first segment. */
  lemma AgreesWithRfc(s: string)
    ensures Normalized(s) == RemoveDotSegments(s, "") <==> !ClimbsAboveFirst(s)
  {
    hide Split, Resolve, Render, StripDots, Climbs, RfcResolve, RemoveDotSegments;
    RemovesDotSegments(s);
    var t := StripDots(s);
    if t != "" && !IsDot(t) {
      var p := IndexOf(t, '/', 0);
      if p == |t| {
        assert t[..p] + "" == t;
      } else if p == 0 {
        RfcWithoutHead([], Split(t[1..]));
        assert t[..0] + Render(Resolve([], Split(t[1..]))) == Render(Resolve([], Split(t[1..])));
      } else {
        RfcWithHead(t[..p], [], Split(t[p + 1..]));
      }
    }
  }

  /** The smallest departure: "a/.." keeps its first segment, where the RFC yields "/". */
  lemma DepartsFromRfc()
    ensures ClimbsAboveFirst("a/..") && Normalized("a/..") == "a/" && RemoveDotSegments("a/..", "") == "/"
  {
    RemovesDotSegments("a/..");
    var t := "a/..";
    assert t[0] == 'a' && t[1] == '/';
    assert !("../" <= t) && !("./" <= t) by { assert "../"[0] == "./"[0] == '.'; }
    assert StripDots(t) == t && IndexOf(t, '/', 0) == 1;
    assert t[2..] == ".." && Split("..") == [".."];
    assert Resolve([], [".."]) == [""];
    assert Render([""]) == "/";
  }
}
