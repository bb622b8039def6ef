/** `AggressiveInliner`: before inlining, it walks the call graph from the
    kernels and marks every defined function it does not reach, so that
    calls into or out of those functions are never inlined; while
    inlining, it gives up for good at the first call-graph component that
    is recursive. The call graph is LLVM's: besides one node per function
    it has two nodes without a function. The external calling node calls
    every function callable from outside the module, and is what the
    graph returns for the null function. The calls-external node is where
    declarations and indirect calls lead; its function is null, so the
    walk continues from the external calling node. */
module Inliner {
  import opened Results
  import opened IR
  import MD = Metadata

  /** A call-graph node as the walk sees it: `Some(f)` for function `f`,
      `None` for the null function, whose node is the external calling
      node. */
  type Node = Option<string>

  /** `Function::isIntrinsic`: the function is an LLVM intrinsic. */
  predicate Intrinsic(name: string) {
    |name| >= 5 && name[..5] == "llvm."
  }

  /** The functions of `fs` the outside world may call, in module order:
      those without local linkage. */
  function Exported(fs: seq<Function>): (r: seq<Node>)
    ensures forall c :: c in r <==> c.Some? && exists k :: 0 <= k < |fs| && fs[k].external && fs[k].name == c.value
    decreases |fs|
  {
    if |fs| == 0 then []
    else
      var rest := Exported(fs[1..]);
      assert forall k :: 1 <= k < |fs| ==> fs[k] == fs[1..][k - 1];
      if fs[0].external then [Some(fs[0].name)] + rest else rest
  }

  /** The call-graph edges out of a node, in order. The external calling
      node calls every exported function. A declaration that is not an
      intrinsic may call anything, so its only edge leads to the
      calls-external node. A body contributes one edge per call that is not
      to an intrinsic: to the callee, or to the calls-external node when
      the call is indirect. */
  function CalleesOf(m: IRModule, n: Node): (r: seq<Node>)
    ensures forall c :: c in r && c.Some? ==> c.value in Names(m)
    ensures n.None? ==> forall c :: c in r <==> c.Some? && exists k :: 0 <= k < |m.functions| && m.functions[k].external && m.functions[k].name == c.value
    ensures n.Some? && GetFunction(m, n.value).Some? && GetFunction(m, n.value).value.declaration ==>
      r == if Intrinsic(n.value) then [] else [None]
  {
    match n
    case None => Exported(m.functions)
    case Some(f) =>
      match GetFunction(m, f)
      case None => []
      case Some(fn) =>
        if fn.declaration then (if Intrinsic(f) then [] else [None])
        else CallEdges(m, fn.body)
  }

  function CallEdges(m: IRModule, body: seq<Inst>): (r: seq<Node>)
    ensures forall c :: c in r && c.Some? ==> c.value in Names(m) && !Intrinsic(c.value)
    ensures None in r <==> exists k :: 0 <= k < |body| && body[k].Call? && body[k].callee.None?
    decreases |body|
  {
    if |body| == 0 then []
    else
      var rest := CallEdges(m, body[1..]);
      assert forall k :: 1 <= k < |body| ==> body[k] == body[1..][k - 1];
      if body[0].Call? && body[0].callee.None? then [None] + rest
      else if body[0].Call? && body[0].callee.value in Names(m) && !Intrinsic(body[0].callee.value) then [body[0].callee] + rest
      else rest
  }

  /** A path of call edges starting at one of the roots. */
  ghost predicate IsPath(m: IRModule, roots: seq<Node>, p: seq<Node>) {
    && |p| > 0 && p[0] in roots
    && forall k :: 0 <= k < |p| - 1 ==> p[k + 1] in CalleesOf(m, p[k])
  }

  /** The functions reachable from the roots along call edges. */
  ghost predicate Reachable(m: IRModule, roots: seq<Node>, f: Node) {
    exists p :: IsPath(m, roots, p) && p[|p| - 1] == f
  }

  lemma RootReachable(m: IRModule, roots: seq<Node>, r: Node)
    requires r in roots
    ensures Reachable(m, roots, r)
  {
    assert IsPath(m, roots, [r]);
  }

  lemma CalleeReachable(m: IRModule, roots: seq<Node>, f: Node, c: Node)
    requires Reachable(m, roots, f) && c in CalleesOf(m, f)
    ensures Reachable(m, roots, c)
  {
    var p :| IsPath(m, roots, p) && p[|p| - 1] == f;
    assert IsPath(m, roots, p + [c]);
  }

  /** A set holding the roots and closed under call edges holds everything
      reachable. */
  lemma {:induction false} ClosedHoldsReachable(m: IRModule, roots: seq<Node>, s: set<Node>, p: seq<Node>)
    requires forall r :: r in roots ==> r in s
    requires forall v :: v in s ==> forall c :: c in CalleesOf(m, v) ==> c in s
    requires IsPath(m, roots, p)
    ensures p[|p| - 1] in s
    decreases |p|
  {
    if |p| > 1 {
      var q := p[..|p| - 1];
      assert IsPath(m, roots, q);
      ClosedHoldsReachable(m, roots, s, q);
    }
  }

  /** The entries of `stack` already in `visited`. */
  function CountIn(stack: seq<Node>, visited: set<Node>): nat {
    if |stack| == 0 then 0
    else CountIn(stack[..|stack| - 1], visited) + (if stack[|stack| - 1] in visited then 1 else 0)
  }

  lemma {:induction false} CountInFresh(stack: seq<Node>, pushed: seq<Node>, visited: set<Node>)
    requires forall x :: x in pushed ==> x !in visited
    ensures CountIn(stack + pushed, visited) == CountIn(stack, visited)
    decreases |pushed|
  {
    if |pushed| > 0 {
      var init := pushed[..|pushed| - 1];
      assert (stack + pushed)[..|stack + pushed| - 1] == stack + init;
      assert pushed[|pushed| - 1] in pushed;
      CountInFresh(stack, init, visited);
    } else {
      assert stack + pushed == stack;
    }
  }

  /** The inner loop of `doInitialization`: push, in order, every callee
      not yet visited. */
  method PushUnvisited(below: seq<Node>, callees: seq<Node>, visited: set<Node>) returns (stack: seq<Node>)
    ensures |stack| >= |below| && stack[..|below|] == below
    ensures forall x :: x in stack[|below|..] ==> x !in visited && x in callees
    ensures forall c :: c in callees ==> c in visited || c in stack
    ensures forall x :: x in stack ==> x in below || x in callees
  {
    stack := below;
    var j := 0;
    while j < |callees|
      invariant 0 <= j <= |callees|
      invariant |stack| >= |below| && stack[..|below|] == below
      invariant forall x :: x in stack[|below|..] ==> x !in visited && x in callees
      invariant forall k :: 0 <= k < j ==> callees[k] in visited || callees[k] in stack
      invariant forall x :: x in stack ==> x in below || x in callees
      decreases |callees| - j
    {
      if callees[j] !in visited {
        stack := stack + [callees[j]];
      }
      j := j + 1;
    }
  }

  /** What `doInitialization` leaves: the functions visited from the
      roots, and the defined functions the pass must not touch. */
  datatype Init = Init(visited: set<Node>, notVisit: set<string>)

  /** The defined (non-declaration) functions of the module whose nodes
      are outside `visited`. */
  function Unvisited(m: IRModule, visited: set<Node>): (r: set<string>)
    ensures forall n :: n in r <==> exists k :: 0 <= k < |m.functions| && !m.functions[k].declaration && m.functions[k].name == n && Some(n) !in visited
  {
    set k | 0 <= k < |m.functions| && !m.functions[k].declaration && Some(m.functions[k].name) !in visited :: m.functions[k].name
  }

  /** The invariant of the worklist: everything on the stack or visited is
      in the universe and reachable, every root is visited or waiting, and
      every callee of a visited function is visited or waiting. */
  ghost predicate WalkInv(m: IRModule, roots: seq<Node>, universe: set<Node>, visited: set<Node>, stack: seq<Node>) {
    && visited <= universe
    && (forall x :: x in stack ==> x in universe)
    && (forall x :: x in roots ==> x in visited || x in stack)
    && (forall v :: v in visited ==> forall c :: c in CalleesOf(m, v) ==> c in visited || c in stack)
    && (forall x :: x in visited ==> Reachable(m, roots, x))
    && (forall x :: x in stack ==> Reachable(m, roots, x))
  }

  /** What the inner loop leaves: the stack below the popped function,
      then callees of it not yet visited, so that every callee is visited
      or waiting. */
  ghost predicate Pushed(m: IRModule, visited: set<Node>, stack: seq<Node>, next: seq<Node>)
    requires |stack| > 0
  {
    var below := stack[..|stack| - 1];
    && |next| >= |below| && next[..|below|] == below
    && (forall x :: x in next[|below|..] ==> x !in visited && x in CalleesOf(m, stack[|stack| - 1]))
    && (forall c :: c in CalleesOf(m, stack[|stack| - 1]) ==> c in visited || c in next)
  }

  /** One iteration keeps the invariant. */
  lemma WalkStep(m: IRModule, roots: seq<Node>, universe: set<Node>, visited: set<Node>, stack: seq<Node>, next: seq<Node>)
    requires forall f, c :: c in CalleesOf(m, f) ==> c in universe
    requires WalkInv(m, roots, universe, visited, stack) && |stack| > 0
    requires Pushed(m, visited, stack, next)
    ensures WalkInv(m, roots, universe, visited + {stack[|stack| - 1]}, next)
  {
    NextMembers(m, visited, stack, next);
    NextReachable(m, roots, universe, visited, stack, next);
    StepClosed(m, roots, universe, visited, stack, next);
  }

  /** The stack after an iteration holds what was below the popped
      function and callees of it. */
  lemma NextMembers(m: IRModule, visited: set<Node>, stack: seq<Node>, next: seq<Node>)
    requires |stack| > 0 && Pushed(m, visited, stack, next)
    ensures forall x :: x in stack[..|stack| - 1] ==> x in next
    ensures forall x :: x in next ==> x in stack[..|stack| - 1] || x in CalleesOf(m, stack[|stack| - 1])
    ensures forall x :: x in stack ==> x in next || x == stack[|stack| - 1]
  {
    var below := stack[..|stack| - 1];
    assert stack == below + [stack[|stack| - 1]];
    assert next == below + next[|below|..];
  }

  lemma NextReachable(m: IRModule, roots: seq<Node>, universe: set<Node>, visited: set<Node>, stack: seq<Node>, next: seq<Node>)
    requires WalkInv(m, roots, universe, visited, stack) && |stack| > 0
    requires forall x :: x in next ==> x in stack[..|stack| - 1] || x in CalleesOf(m, stack[|stack| - 1])
    ensures forall x :: x in next ==> Reachable(m, roots, x)
  {
    var cur := stack[|stack| - 1];
    forall x | x in next ensures Reachable(m, roots, x) {
      if x !in stack[..|stack| - 1] {
        CalleeReachable(m, roots, cur, x);
      }
    }
  }

  lemma StepClosed(m: IRModule, roots: seq<Node>, universe: set<Node>, visited: set<Node>, stack: seq<Node>, next: seq<Node>)
    requires WalkInv(m, roots, universe, visited, stack) && |stack| > 0
    requires Pushed(m, visited, stack, next)
    requires forall x :: x in stack ==> x in next || x == stack[|stack| - 1]
    ensures forall v :: v in visited + {stack[|stack| - 1]} ==> forall c :: c in CalleesOf(m, v) ==> c in visited + {stack[|stack| - 1]} || c in next
  {
    var cur := stack[|stack| - 1];
    forall v | v in visited + {cur} ensures forall c :: c in CalleesOf(m, v) ==> c in visited + {cur} || c in next {
      if v != cur {
        assert forall c :: c in CalleesOf(m, v) ==> c in visited || c in stack;
      }
    }
  }

  /** One iteration either visits a new function or takes a visited one
      off the stack. */
  lemma WalkProgress(m: IRModule, universe: set<Node>, visited: set<Node>, stack: seq<Node>, next: seq<Node>)
    requires visited <= universe && |stack| > 0 && stack[|stack| - 1] in universe
    requires Pushed(m, visited, stack, next)
    ensures var visited' := visited + {stack[|stack| - 1]};
      || |universe - visited'| < |universe - visited|
      || (visited' == visited && CountIn(next, visited) < CountIn(stack, visited))
  {
    var cur := stack[|stack| - 1];
    var below := stack[..|stack| - 1];
    if cur !in visited {
      assert universe - (visited + {cur}) < universe - visited by {
        assert cur in universe - visited;
      }
    } else {
      assert visited + {cur} == visited;
      assert next == below + next[|below|..];
      CountInFresh(below, next[|below|..], visited);
    }
  }

  /** The worklist of `doInitialization`: a depth-first walk from the
      roots; each popped function pushes its callees not yet visited and
      is then marked visited. It ends with exactly the functions reachable
      from the roots visited. */
  method Explore(m: IRModule, roots: seq<Node>, universe: set<Node>) returns (visited: set<Node>)
    requires forall x :: x in roots ==> x in universe
    requires forall f, c :: c in CalleesOf(m, f) ==> c in universe
    ensures forall f :: f in visited <==> Reachable(m, roots, f)
  {
    var stack := roots;
    visited := {};
    forall x | x in roots ensures Reachable(m, roots, x) {
      RootReachable(m, roots, x);
    }
    while |stack| > 0
      invariant WalkInv(m, roots, universe, visited, stack)
      decreases |universe - visited|, CountIn(stack, visited)
    {
      var cur := stack[|stack| - 1];
      var next := PushUnvisited(stack[..|stack| - 1], CalleesOf(m, cur), visited);
      WalkStep(m, roots, universe, visited, stack, next);
      WalkProgress(m, universe, visited, stack, next);
      stack, visited := next, visited + {cur};
    }
    forall f | Reachable(m, roots, f) ensures f in visited {
      var p :| IsPath(m, roots, p) && p[|p| - 1] == f;
      ClosedHoldsReachable(m, roots, visited, p);
    }
  }

  /** The call-graph nodes of a module: one per function, and the null
      function's. */
  function Nodes(m: IRModule): (r: set<Node>)
    ensures None in r
    ensures forall n :: n in Names(m) ==> Some(n) in r
    ensures forall f, c :: c in CalleesOf(m, f) ==> c in r
  {
    {None} + set n | n in Names(m) :: Some(n)
  }

  /** The roots of the walk: the nodes of the selected kernels. */
  function Roots(m: IRModule, kernel: string): (r: seq<Node>)
    ensures |r| == |MD.SelectKernels(m, kernel)|
    ensures forall k :: 0 <= k < |r| ==> r[k] == Some(MD.SelectKernels(m, kernel)[k])
    ensures forall x :: x in r ==> x in Nodes(m)
  {
    var ks := MD.SelectKernels(m, kernel);
    seq(|ks|, k requires 0 <= k < |ks| => Some(ks[k]))
  }

  /** `doInitialization`: the roots are the named kernel when given and
      found, otherwise every kernel; `NotVisit` is then every defined
      function the walk did not reach. */
  method DoInitialization(m: IRModule, kernel: string) returns (r: Init)
    ensures forall f :: f in r.visited <==> Reachable(m, Roots(m, kernel), f)
    ensures r.notVisit == Unvisited(m, r.visited)
  {
    var roots := Roots(m, kernel);
    var visited := Explore(m, roots, Nodes(m));
    return Init(visited, Unvisited(m, visited));
  }

  /** Once the walk reaches the external calling node, every exported
      function is visited, whatever calls it: in particular every kernel
      with external linkage, and so none of them is left out. */
  lemma ExternalReachesExported(m: IRModule, roots: seq<Node>, k: nat)
    requires Reachable(m, roots, None)
    requires k < |m.functions| && m.functions[k].external
    ensures Reachable(m, roots, Some(m.functions[k].name))
  {
    CalleeReachable(m, roots, None, Some(m.functions[k].name));
  }

  /** Reaching a declaration that is not an intrinsic, or an indirect
      call, leads to the external calling node. */
  lemma DeclarationReachesExternal(m: IRModule, roots: seq<Node>, f: string)
    requires Reachable(m, roots, Some(f))
    requires GetFunction(m, f).Some? && GetFunction(m, f).value.declaration && !Intrinsic(f)
    ensures Reachable(m, roots, None)
  {
    CalleeReachable(m, roots, Some(f), None);
  }

  lemma IndirectCallReachesExternal(m: IRModule, roots: seq<Node>, f: string, k: nat)
    requires Reachable(m, roots, Some(f))
    requires GetFunction(m, f).Some? && !GetFunction(m, f).value.declaration
    requires k < |GetFunction(m, f).value.body| && GetFunction(m, f).value.body[k].Call?
    requires GetFunction(m, f).value.body[k].callee.None?
    ensures Reachable(m, roots, None)
  {
    CalleeReachable(m, roots, Some(f), None);
  }

  datatype Cost = Never | Always

  /** `getInlineCost`: never inline a call whose caller or callee was left
      out; inline everything else, indirect calls included. */
  function InlineCost(init: Init, caller: string, callee: Node): (c: Cost)
    ensures c == Never <==> caller in init.notVisit || (callee.Some? && callee.value in init.notVisit)
  {
    if caller in init.notVisit || (callee.Some? && callee.value in init.notVisit) then Never else Always
  }

  /** Calls between functions reachable from the kernels are always
      inlined. */
  lemma ReachableCallsInlined(m: IRModule, kernel: string, init: Init, caller: string, callee: string)
    requires forall f :: f in init.visited <==> Reachable(m, Roots(m, kernel), f)
    requires init.notVisit == Unvisited(m, init.visited)
    requires Reachable(m, Roots(m, kernel), Some(caller)) && Reachable(m, Roots(m, kernel), Some(callee))
    ensures InlineCost(init, caller, Some(callee)) == Always
  {
  }

  /** The scan of a node's call edges in `runOnSCC`: the flag stays set
      while no edge leads back to the node. */
  function NoSelfCall(node: Node, callees: seq<Node>, flag: bool): (r: bool)
    ensures r <==> flag && node !in callees
    decreases |callees|
  {
    if |callees| == 0 || !flag then flag
    else NoSelfCall(node, callees[1..], callees[0] != node)
  }

  /** `runOnSCC`: the flag, and whether the inliner proper runs on the
      component. A component of several functions, or a function calling
      itself, clears the flag; once cleared it stays so, and no component
      is inlined. */
  function RunOnSCC(m: IRModule, allInlined: bool, scc: seq<Node>): (r: (bool, bool))
    requires |scc| > 0
    ensures r.0 <==> allInlined && |scc| == 1 && scc[0] !in CalleesOf(m, scc[0])
    ensures r.1 == r.0
  {
    var flag := if |scc| != 1 then false else NoSelfCall(scc[0], CalleesOf(m, scc[0]), allInlined);
    (flag, flag)
  }

  /** The components visited in order, from a set flag: which ones the
      inliner proper runs on. */
  function RunOnSCCs(m: IRModule, allInlined: bool, sccs: seq<seq<Node>>): (r: seq<bool>)
    requires forall k :: 0 <= k < |sccs| ==> |sccs[k]| > 0
    ensures |r| == |sccs|
    decreases |sccs|
  {
    if |sccs| == 0 then []
    else
      var (flag, inlined) := RunOnSCC(m, allInlined, sccs[0]);
      [inlined] + RunOnSCCs(m, flag, sccs[1..])
  }

  /** A component is inlined exactly when it and every component before it
      is a single function that does not call itself. */
  lemma {:induction false} InlinedIffNoRecursionSoFar(m: IRModule, sccs: seq<seq<Node>>, k: nat)
    requires forall j :: 0 <= j < |sccs| ==> |sccs[j]| > 0
    requires k < |sccs|
    ensures RunOnSCCs(m, true, sccs)[k] <==>
      forall j :: 0 <= j <= k ==> |sccs[j]| == 1 && sccs[j][0] !in CalleesOf(m, sccs[j][0])
    decreases k
  {
    var first := RunOnSCC(m, true, sccs[0]);
    if k > 0 {
      if first.0 {
        InlinedIffNoRecursionSoFar(m, sccs[1..], k - 1);
      } else {
        NothingAfterClear(m, sccs[1..], k - 1);
      }
    }
  }

  lemma {:induction false} NothingAfterClear(m: IRModule, sccs: seq<seq<Node>>, k: nat)
    requires forall j :: 0 <= j < |sccs| ==> |sccs[j]| > 0
    requires k < |sccs|
    ensures !RunOnSCCs(m, false, sccs)[k]
    decreases k
  {
    if k > 0 {
      NothingAfterClear(m, sccs[1..], k - 1);
    }
  }
}
