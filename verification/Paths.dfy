/**
  The path normaliser behind the file API and the cache in front of it: section 5.2.4 of RFC 3986
  as a loop over two string buffers, after the backslash rewrite of section 7.3.
 */
module Paths {

  // ----- Strings -----

  /** First index of c at or after `from`, or the length when there is none. */
  function IndexOf(s: string, c: char, from: nat): (p: nat)
    requires from <= |s|
    ensures from <= p <= |s|
    ensures forall i :: from <= i < p ==> s[i] != c
    ensures p < |s| ==> s[p] == c
    decreases |s| - from
  {
    if from == |s| || s[from] == c then from else IndexOf(s, c, from + 1)
  }

  /** The backslash rewrite. */
  function Slashes(s: string): (t: string) {
    seq(|s|, i requires 0 <= i < |s| => if s[i] == '\\' then '/' else s[i])
  }

  /** The segments of a path: the pieces between slashes. */
  function Split(s: string): (segs: seq<string>)
    ensures segs != []
    decreases |s|
  {
    var p := IndexOf(s, '/', 0);
    if p == |s| then [s] else [s[..p]] + Split(s[p + 1..])
  }

  function Render(segs: seq<string>): string {
    if segs == [] then "" else "/" + segs[0] + Render(segs[1..])
  }

  predicate IsDot(seg: string) { seg == "." || seg == ".." }

  // ----- The reference: a stack of segments -----

  function Pop(stack: seq<string>): seq<string> {
    if stack == [] then [] else stack[..|stack| - 1]
  }

  function Act(stack: seq<string>, seg: string): seq<string> {
    if seg == "." then stack else if seg == ".." then Pop(stack) else stack + [seg]
  }

  /** Walks the segments; a path that ends in a dot segment keeps its trailing slash. */
  function Resolve(stack: seq<string>, segs: seq<string>): seq<string>
    requires segs != []
    decreases |segs|
  {
    if |segs| == 1 then Act(stack, segs[0]) + if IsDot(segs[0]) then [""] else []
    else Resolve(Act(stack, segs[0]), segs[1..])
  }

  function StripDots(s: string): (t: string)
    ensures !("../" <= t) && !("./" <= t)
    decreases |s|
  {
    if "../" <= s then StripDots(s[3..]) else if "./" <= s then StripDots(s[2..]) else s
  }

  /** What the loop computes: a first relative segment is never removed. */
  function Normalized(s: string): string {
    var t := StripDots(s);
    if t == "" || IsDot(t) then ""
    else
      var p := IndexOf(t, '/', 0);
      t[..p] + if p == |t| then "" else Render(Resolve([], Split(t[p + 1..])))
  }

  // ----- The loop of the source -----

  /** Last index of c, or -1. */
  function LastIndexOf(s: string, c: char): (p: int)
    ensures -1 <= p < |s|
    ensures p >= 0 ==> s[p] == c
    ensures forall i :: p < i < |s| ==> s[i] != c
  {
    if s == "" then -1 else if s[|s| - 1] == c then |s| - 1 else LastIndexOf(s[..|s| - 1], c)
  }

  function DropLast(output: string): string {
    var p := LastIndexOf(output, '/');
    if p >= 0 then output[..p] else output
  }

  /** One pass of the loop over the input and output buffers, rules A to E. */
  function Rewrite(input: string, output: string): (r: (string, string))
    requires input != ""
    ensures |r.0| < |input|
  {
    if "../" <= input then (input[3..], output)
    else if "./" <= input then (input[2..], output)
    else if "/./" <= input then ("/" + input[3..], output)
    else if input == "/." then ("/", output)
    else if "/../" <= input then ("/" + input[4..], DropLast(output))
    else if input == "/.." then ("/", DropLast(output))
    else if input == "." || input == ".." then ("", output)
    else
      var position := IndexOf(input, '/', if input[0] == '/' then 1 else 0);
      (input[position..], output + input[..position])
  }

  function Finish(input: string, output: string): string
    decreases |input|
  {
    if input == "" then output
    else var r := Rewrite(input, output); Finish(r.0, r.1)
  }

  method RewriteBackslashes(rawInput: string) returns (input: string)
    ensures input == Slashes(rawInput)
    ensures |input| == |rawInput|
    ensures forall i :: 0 <= i < |input| ==> input[i] == if rawInput[i] == '\\' then '/' else rawInput[i]
  {
    input := rawInput;
    var pos := IndexOf(input, '\\', 0);
    while pos < |input|
      invariant |input| == |rawInput| && pos == IndexOf(input, '\\', 0)
      invariant Slashes(input) == Slashes(rawInput)
      decreases |input| - pos
    {
      input := input[..pos] + "/" + input[pos + 1..];
      pos := IndexOf(input, '\\', 0);
    }
    assert input == Slashes(input);
  }

  /** The whole computation: both loops over the buffers equal the reference on every input. */
  method Normalize(rawInput: string) returns (output: string)
    ensures output == Normalized(Slashes(rawInput))
    ensures forall t :: IsRewritten(rawInput, t) ==> output == Normalized(Slashes(t))
    ensures forall t :: IsRewritten(rawInput, t) && '\\' !in t ==> output == Normalized(t)
  {
    forall t | IsRewritten(rawInput, t) ensures Slashes(t) == Slashes(rawInput) { SlashesSame(rawInput, t); }
    forall t | '\\' !in t ensures Slashes(t) == t { SlashesFixed(t); }
    var input := RewriteBackslashes(rawInput);
    output := "";
    FinishIsNormalized(input);
    while input != ""
      invariant Finish(input, output) == Normalized(Slashes(rawInput))
      decreases |input|
    {
      if "../" <= input {
        input := input[3..];
      } else if "./" <= input {
        input := input[2..];
      } else if "/./" <= input {
        input := "/" + input[3..];
      } else if input == "/." {
        input := "/";
      } else if "/../" <= input {
        input := "/" + input[4..];
        var position := LastIndexOf(output, '/');
        if position >= 0 { output := output[..position]; }
      } else if input == "/.." {
        input := "/";
        var position := LastIndexOf(output, '/');
        if position >= 0 { output := output[..position]; }
      } else if input == "." || input == ".." {
        input := "";
      } else {
        var position := IndexOf(input, '/', 0);
        if position == 0 { position := IndexOf(input, '/', 1); }
        output := output + input[..position];
        input := input[position..];
      }
    }
  }

  /** t is s with some of its backslashes written as slashes. */
  ghost predicate IsRewritten(s: string, t: string) {
    |s| == |t| && forall i :: 0 <= i < |s| ==> t[i] == s[i] || (s[i] == '\\' && t[i] == '/')
  }

  /** Writing backslashes as slashes beforehand changes nothing. */
  lemma SlashesSame(s: string, t: string)
    requires IsRewritten(s, t)
    ensures Slashes(t) == Slashes(s)
  {
  }

  // ----- The loop computes the reference -----

  predicate NoSlash(segs: seq<string>) {
    forall i :: 0 <= i < |segs| ==> '/' !in segs[i]
  }

  /** What an absolute remainder contributes to the output. */
  function Rest(stack: seq<string>, input: string): string {
    if input == "" then Render(stack) else Render(Resolve(stack, Split(input[1..])))
  }

  /** Position and text of the first segment of an absolute input. */
  function End(input: string): nat
    requires input != ""
  {
    IndexOf(input, '/', 1)
  }
  function First(input: string): string
    requires input != ""
  {
    input[1..End(input)]
  }
  function After(input: string): string
    requires input != ""
  {
    if End(input) < |input| then input[End(input)..] else if IsDot(First(input)) then "/" else ""
  }

  /** On an absolute input, one pass looks only at the first segment. */
  lemma RewriteAbsolute(input: string, output: string)
    requires input != "" && input[0] == '/'
    ensures Rewrite(input, output) == (After(input), Emit(output, First(input)))
    ensures After(input) != "" ==> After(input)[0] == '/'
  {
    hide DropLast;
    var p, seg := End(input), First(input);
    assert input[..p] == "/" + seg;
    assert output + input[..p] == output + "/" + seg;
    if p < |input| {
      assert input[..p + 1] == "/" + seg + "/";
      assert input[p..] == "/" + input[p + 1..];
    } else {
      assert input == "/" + seg;
    }
    DotGuard(input, ".");
    DotGuard(input, "..");
  }

  /** The tests of rules B and C recognise exactly a complete dot segment. */
  lemma DotGuard(input: string, dots: string)
    requires input != "" && input[0] == '/' && IsDot(dots)
    ensures "/" + dots + "/" <= input <==> First(input) == dots && End(input) < |input|
    ensures input == "/" + dots <==> First(input) == dots && End(input) == |input|
  {
    var p, n := End(input), |dots|;
    if First(input) == dots {
      assert input[..p] == "/" + dots;
      if p < |input| { assert input[..p + 1] == "/" + dots + "/"; }
    }
    if "/" + dots + "/" <= input {
      assert input[n + 1] == ("/" + dots + "/")[n + 1];
      assert forall i :: 1 <= i <= n ==> input[i] == ("/" + dots + "/")[i] == dots[i - 1];
      assert p == n + 1;
      assert First(input) == dots;
    }
    if input == "/" + dots {
      assert forall i :: 1 <= i <= n ==> input[i] == dots[i - 1];
      assert First(input) == dots;
    }
  }

  lemma SplitAbsolute(input: string)
    requires input != "" && input[0] == '/'
    ensures Split(input[1..]) ==
            if End(input) == |input| then [First(input)] else [First(input)] + Split(input[End(input) + 1..])
    ensures '/' !in First(input)
  {
    var s, p := input[1..], End(input);
    assert forall i :: 0 <= i < |s| ==> s[i] == input[i + 1];
    assert IndexOf(s, '/', 0) == p - 1;
    assert p < |input| ==> s[..p - 1] == First(input) && s[p..] == input[p + 1..];
    assert p == |input| ==> s == First(input);
  }

  /** The same step on the reference. */
  lemma RestStep(stack: seq<string>, input: string)
    requires input != "" && input[0] == '/'
    ensures Rest(stack, input) == Rest(Act(stack, First(input)), After(input))
  {
    SplitAbsolute(input);
    var seg, p := First(input), End(input);
    if p < |input| {
      var segs := Split(input[p + 1..]);
      assert input[p..][1..] == input[p + 1..];
      assert ([seg] + segs)[1..] == segs;
    } else {
      assert Resolve(stack, [seg]) == Act(stack, seg) + if IsDot(seg) then [""] else [];
      if IsDot(seg) {
        assert "/"[1..] == "" && Split("") == [""];
        assert Resolve(Act(stack, seg), [""]) == Act(stack, seg) + [""];
      } else {
        assert Act(stack, seg) + [] == Act(stack, seg);
      }
    }
  }

  lemma {:induction false} RenderPush(stack: seq<string>, seg: string)
    ensures Render(stack + [seg]) == Render(stack) + "/" + seg
  {
    if stack == [] {
      assert Render([seg]) == "/" + seg + Render([]);
    } else {
      assert (stack + [seg])[1..] == stack[1..] + [seg];
      RenderPush(stack[1..], seg);
    }
  }

  lemma DropAfter(front: string, seg: string)
    requires '/' !in seg
    ensures DropLast(front + "/" + seg) == front
  {
    var o, q := front + "/" + seg, |front|;
    assert forall i :: q < i < |o| ==> o[i] == seg[i - q - 1];
    assert o[q] == '/';
  }

  lemma DropNothing(head: string)
    requires '/' !in head
    ensures DropLast(head) == head
  {
  }

  lemma DropLastIsPop(head: string, stack: seq<string>)
    requires '/' !in head && NoSlash(stack)
    ensures DropLast(head + Render(stack)) == head + Render(Pop(stack))
  {
    hide Render, DropLast;
    var o := head + Render(stack);
    if stack == [] {
      RenderNone(head);
      DropNothing(head);
    } else {
      var front, seg := Pop(stack), stack[|stack| - 1];
      assert stack == front + [seg];
      RenderPush(front, seg);
      assert o == head + Render(front) + "/" + seg;
      DropAfter(head + Render(front), seg);
    }
  }

  /** What one segment does to the output buffer. */
  function Emit(output: string, seg: string): string {
    if seg == "." then output else if seg == ".." then DropLast(output) else output + "/" + seg
  }

  lemma EmitIsAct(head: string, stack: seq<string>, seg: string)
    requires '/' !in head && NoSlash(stack) && '/' !in seg
    ensures Emit(head + Render(stack), seg) == head + Render(Act(stack, seg))
    ensures NoSlash(Act(stack, seg))
  {
    hide Render, DropLast;
    DropLastIsPop(head, stack);
    RenderPush(stack, seg);
    assert head + Render(stack) + "/" + seg == head + (Render(stack) + "/" + seg);
  }

  lemma {:induction false} FinishAbsolute(head: string, stack: seq<string>, input: string)
    requires '/' !in head && NoSlash(stack)
    requires input != "" ==> input[0] == '/'
    ensures Finish(input, head + Render(stack)) == head + Rest(stack, input)
    decreases |input|
  {
    if input != "" {
      var seg := First(input);
      RewriteAbsolute(input, head + Render(stack));
      SplitAbsolute(input);
      EmitIsAct(head, stack, seg);
      RestStep(stack, input);
      FinishAbsolute(head, Act(stack, seg), After(input));
    }
  }

  /** An input that no dot prefix hides: its relative part, then the absolute remainder. */
  predicate Settled(input: string) {
    input != "" && !("../" <= input) && !("./" <= input) && !IsDot(input)
  }

  lemma NormalizedSettled(input: string)
    requires Settled(input)
    ensures var p := IndexOf(input, '/', 0); Normalized(input) == input[..p] + Rest([], input[p..])
  {
    var p := IndexOf(input, '/', 0);
    assert StripDots(input) == input;
    assert p < |input| ==> input[p..][1..] == input[p + 1..];
  }

  /** Rule E moves the relative part in one pass. */
  lemma FinishSettled(input: string)
    requires Settled(input)
    ensures var p := IndexOf(input, '/', 0); Finish(input, "") == Finish(input[p..], input[..p])
  {
    var p := IndexOf(input, '/', 0);
    if p == 0 {
      assert input[p..] == input && input[..p] == "";
    } else {
      assert "" + input[..p] == input[..p];
    }
  }

  lemma StripOne(input: string, n: nat)
    requires ("../" <= input && n == 3) || ("./" <= input && n == 2)
    ensures Finish(input, "") == Finish(input[n..], "") && Normalized(input) == Normalized(input[n..])
  {
    hide IndexOf, Split, Resolve, Render;
    assert n == 2 ==> input[1] == "./"[1];
    assert n == 3 ==> input[1] == "../"[1];
  }

  lemma FinishNothing(input: string)
    requires input == "" || IsDot(input)
    ensures Finish(input, "") == "" == Normalized(input)
  {
  }

  /** The loop is the reference, for every input. */
  lemma {:induction false} FinishIsNormalized(input: string)
    ensures Finish(input, "") == Normalized(input)
    decreases |input|
  {
    hide Finish, Normalized, Rest, Render;
    if "../" <= input {
      StripOne(input, 3);
      FinishIsNormalized(input[3..]);
    } else if "./" <= input {
      StripOne(input, 2);
      FinishIsNormalized(input[2..]);
    } else if Settled(input) {
      var p := IndexOf(input, '/', 0);
      FinishSettled(input);
      NormalizedSettled(input);
      FinishAbsolute(input[..p], [], input[p..]);
      RenderNone(input[..p]);
    } else {
      FinishNothing(input);
    }
  }

  lemma RenderNone(head: string)
    ensures head + Render([]) == head
  {
  }

  // ----- Properties of every normalised path -----

  predicate NoDots(segs: seq<string>) {
    forall i :: 0 <= i < |segs| ==> !IsDot(segs[i])
  }

  lemma {:induction false} SplitHasNoSlash(s: string)
    ensures NoSlash(Split(s))
    decreases |s|
  {
    var p := IndexOf(s, '/', 0);
    if p < |s| { SplitHasNoSlash(s[p + 1..]); }
  }

  lemma SplitFirst(head: string, tail: string)
    requires '/' !in head
    ensures Split(head + "/" + tail) == [head] + Split(tail)
  {
    var s := head + "/" + tail;
    assert s[|head|] == '/';
    assert forall i :: 0 <= i < |head| ==> s[i] == head[i];
    assert IndexOf(s, '/', 0) == |head|;
    assert s[..|head|] == head && s[|head| + 1..] == tail;
  }

  lemma SplitAlone(head: string)
    requires '/' !in head
    ensures Split(head) == [head]
  {
    assert IndexOf(head, '/', 0) == |head|;
  }

  lemma {:induction false} SplitAt(s: string)
    ensures var p := IndexOf(s, '/', 0); p < |s| ==> Split(s) == [s[..p]] + Split(s[p + 1..])
  {
    hide IndexOf;
  }

  /** Splitting is the inverse of rendering. */
  lemma {:induction false} SplitOfRender(head: string, segs: seq<string>)
    requires '/' !in head && NoSlash(segs)
    ensures Split(head + Render(segs)) == [head] + segs
    decreases |segs|
  {
    hide Split;
    if segs == [] {
      assert head + Render(segs) == head;
      SplitAlone(head);
    } else {
      var tail := segs[0] + Render(segs[1..]);
      assert head + Render(segs) == head + "/" + tail;
      SplitFirst(head, tail);
      SplitOfRender(segs[0], segs[1..]);
      assert [segs[0]] + segs[1..] == segs;
    }
  }

  lemma {:induction false} RenderOfSplit(s: string)
    ensures Render(Split(s)) == "/" + s
    decreases |s|
  {
    var p := IndexOf(s, '/', 0);
    if p < |s| {
      RenderOfSplit(s[p + 1..]);
      assert Split(s)[1..] == Split(s[p + 1..]);
      assert s == s[..p] + ("/" + s[p + 1..]);
    } else {
      assert Render([s]) == "/" + s + Render([]);
    }
  }

  lemma {:induction false} ResolveIsClean(stack: seq<string>, segs: seq<string>)
    requires segs != [] && NoSlash(stack) && NoDots(stack) && NoSlash(segs)
    ensures NoSlash(Resolve(stack, segs)) && NoDots(Resolve(stack, segs))
    decreases |segs|
  {
    if |segs| > 1 {
      ResolveIsClean(Act(stack, segs[0]), segs[1..]);
    }
  }

  lemma ActLength(stack: seq<string>, seg: string)
    ensures |Render(Act(stack, seg))| + (if IsDot(seg) then 1 else 0) <= |Render(stack)| + 1 + |seg|
  {
    hide Render;
    RenderPush(stack, seg);
    if stack != [] {
      RenderPush(Pop(stack), stack[|stack| - 1]);
      assert stack == Pop(stack) + [stack[|stack| - 1]];
    }
  }

  lemma {:induction false} ResolveLength(stack: seq<string>, segs: seq<string>)
    requires segs != []
    ensures |Render(Resolve(stack, segs))| <= |Render(stack)| + |Render(segs)|
    decreases |segs|
  {
    hide Act;
    var seg := segs[0];
    assert Render(segs) == "/" + seg + Render(segs[1..]);
    ActLength(stack, seg);
    if |segs| == 1 {
      RenderPush(Act(stack, seg), "");
      assert Act(stack, seg) + [] == Act(stack, seg);
    } else {
      ResolveLength(Act(stack, seg), segs[1..]);
    }
  }

  lemma {:induction false} ResolveKeepsClean(stack: seq<string>, segs: seq<string>)
    requires segs != [] && NoDots(segs)
    ensures Resolve(stack, segs) == stack + segs
    decreases |segs|
  {
    if |segs| > 1 {
      ResolveKeepsClean(stack + [segs[0]], segs[1..]);
    }
    assert stack + [segs[0]] + segs[1..] == stack + segs;
  }

  lemma {:induction false} StripDotsShortens(s: string)
    ensures |StripDots(s)| <= |s|
    ensures forall c :: c in StripDots(s) ==> c in s
    decreases |s|
  {
    if "../" <= s { StripDotsShortens(s[3..]); } else if "./" <= s { StripDotsShortens(s[2..]); }
  }

  /** The shape of every result: a first part without slash, then clean segments. */
  lemma Shape(s: string) returns (head: string, segs: seq<string>)
    ensures Normalized(s) == head + Render(segs) && '/' !in head && !IsDot(head) && NoSlash(segs) && NoDots(segs)
    ensures |Normalized(s)| <= |s|
  {
    hide Split, Resolve, Render, StripDots;
    var t := StripDots(s);
    StripDotsShortens(s);
    head, segs := "", [];
    RenderNone("");
    if t != "" && !IsDot(t) {
      var p := IndexOf(t, '/', 0);
      head := t[..p];
      RenderNone(head);
      if p < |t| {
        var rest := t[p + 1..];
        segs := ShapeOfRest(rest);
        assert t[..p + 1] == head + "/";
      } else {
        assert head + "" == head == t;
      }
    }
  }

  lemma ShapeOfRest(rest: string) returns (segs: seq<string>)
    ensures segs == Resolve([], Split(rest)) && NoSlash(segs) && NoDots(segs) && |Render(segs)| <= 1 + |rest|
  {
    hide Split, Resolve, Render;
    segs := Resolve([], Split(rest));
    SplitHasNoSlash(rest);
    ResolveIsClean([], Split(rest));
    ResolveLength([], Split(rest));
    RenderOfSplit(rest);
    RenderNone("");
  }

  /** No "." or ".." segment survives, and the path does not grow. */
  lemma NoDotSegments(s: string)
    ensures NoDots(Split(Normalized(s)))
    ensures |Normalized(s)| <= |s|
  {
    var head, segs := Shape(s);
    SplitOfRender(head, segs);
  }

  lemma FirstOfDotPrefix(s: string)
    ensures s == "" || Settled(s) || IsDot(Split(s)[0])
  {
    var p := IndexOf(s, '/', 0);
    if "../" <= s {
      assert s[0] == "../"[0] && s[1] == "../"[1] && s[2] == "../"[2];
      assert p == 2 && s[..p] == "..";
    } else if "./" <= s {
      assert s[0] == "./"[0] && s[1] == "./"[1];
      assert p == 1 && s[..p] == ".";
    } else if IsDot(s) {
      assert p == |s|;
    }
  }

  lemma RestOfClean(s: string)
    requires NoDots(Split(s))
    ensures var p := IndexOf(s, '/', 0); Rest([], s[p..]) == s[p..]
  {
    hide Split, Resolve, IndexOf;
    var p := IndexOf(s, '/', 0);
    SplitAt(s);
    if p < |s| {
      var rest := s[p + 1..];
      assert s[p..] == "/" + rest && s[p..][1..] == rest;
      assert forall i :: 0 <= i < |Split(rest)| ==> Split(rest)[i] == Split(s)[i + 1];
      ResolveKeepsClean([], Split(rest));
      assert [] + Split(rest) == Split(rest);
      RenderOfSplit(rest);
    }
  }

  lemma CleanIsFixed(s: string)
    requires NoDots(Split(s))
    ensures Normalized(s) == s
  {
    hide Split, Normalized, Rest, IndexOf;
    FirstOfDotPrefix(s);
    FinishNothing("");
    if Settled(s) {
      NormalizedSettled(s);
      RestOfClean(s);
    }
  }

  /** Normalising again changes nothing. */
  lemma Idempotent(s: string)
    ensures Normalized(Normalized(s)) == Normalized(s)
  {
    NoDotSegments(s);
    CleanIsFixed(Normalized(s));
  }

  // ----- Characters -----

  lemma {:induction false} SplitChars(s: string, c: char)
    ensures (forall i :: 0 <= i < |Split(s)| ==> c !in Split(s)[i]) <== c !in s
    decreases |s|
  {
    var p := IndexOf(s, '/', 0);
    if p < |s| { SplitChars(s[p + 1..], c); }
  }

  lemma {:induction false} ResolveChars(stack: seq<string>, segs: seq<string>, c: char)
    requires segs != []
    requires forall i :: 0 <= i < |stack| ==> c !in stack[i]
    requires forall i :: 0 <= i < |segs| ==> c !in segs[i]
    ensures forall i :: 0 <= i < |Resolve(stack, segs)| ==> c !in Resolve(stack, segs)[i]
    decreases |segs|
  {
    if |segs| > 1 { ResolveChars(Act(stack, segs[0]), segs[1..], c); }
  }

  lemma {:induction false} RenderChars(segs: seq<string>, c: char)
    requires c != '/' && forall i :: 0 <= i < |segs| ==> c !in segs[i]
    ensures c !in Render(segs)
  {
    if segs != [] { RenderChars(segs[1..], c); }
  }

  /** No backslash survives the two loops. */
  lemma NoBackslash(rawInput: string)
    ensures '\\' !in Normalized(Slashes(rawInput))
  {
    var s := Slashes(rawInput);
    var t := StripDots(s);
    StripDotsShortens(s);
    assert '\\' !in s && '\\' !in t;
    var p := IndexOf(t, '/', 0);
    if p < |t| {
      SplitChars(t[p + 1..], '\\');
      ResolveChars([], Split(t[p + 1..]), '\\');
      RenderChars(Resolve([], Split(t[p + 1..])), '\\');
    }
  }

  lemma SlashesFixed(s: string)
    requires '\\' !in s
    ensures Slashes(s) == s
  {
    assert forall i :: 0 <= i < |s| ==> s[i] in s;
  }

  /** For raw input too: what a call computes is left unchanged by a second call. */
  lemma IdempotentRaw(rawInput: string)
    ensures var path := Normalized(Slashes(rawInput)); Normalized(Slashes(path)) == path
  {
    NoBackslash(rawInput);
    SlashesFixed(Normalized(Slashes(rawInput)));
    Idempotent(Slashes(rawInput));
  }

  // ----- The cache -----

  /** The memo table in front of the normaliser; `join` is the fixed base directory's path join. */
  class PathCache<P(==)> {
    const join: string -> P
    var cachedPaths: map<string, P>

    ghost function Expected(rawInput: string): P { join(Normalized(Slashes(rawInput))) }

    ghost predicate Valid()
      reads this
    {
      forall k :: k in cachedPaths ==> cachedPaths[k] == Expected(k)
    }

    constructor (join: string -> P)
      ensures Valid() && this.join == join && cachedPaths == map[]
    {
      this.join := join;
      cachedPaths := map[];
    }

    /** Every call returns what the uncached computation would; stored entries never change. */
    method GetRelativeFilePath(rawInput: string) returns (path: P)
      requires Valid()
      modifies this
      ensures Valid() && path == Expected(rawInput)
      ensures cachedPaths == old(cachedPaths)[rawInput := path]
      ensures forall k :: k in old(cachedPaths) ==> k in cachedPaths && cachedPaths[k] == old(cachedPaths)[k]
    {
      if rawInput in cachedPaths {
        return cachedPaths[rawInput];
      }
      var output := Normalize(rawInput);
      cachedPaths := cachedPaths[rawInput := join(output)];
      path := cachedPaths[rawInput];
    }
  }
}
