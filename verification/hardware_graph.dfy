/** The parts of the hardware description built from the parsed files:
    the node's memory size read from `/proc/meminfo`, the walk from a
    component to the top of its hierarchy, and the last-level caches a
    node links to. Components are identified by number; the parent of
    each component that has one is given as a map, and a depth that
    strictly shrinks towards the parents stands for the hierarchy being a
    tree of finite height. */
module HardwareGraph {
  import opened Results
  import opened Text
  import SP = SimpleParser

  /** `NUMANotAwareVisitor`: the `MemTotal` entry of `/proc/meminfo`,
      read as a size. A missing key reads as the empty string, which is
      not a size. */
  function NodeMemory(meminfo: string): (r: Option<nat>)
    ensures r.Some? ==> SP.ParseKeyValue(meminfo).Some? && "MemTotal" in SP.ParseKeyValue(meminfo).value
  {
    match SP.ParseKeyValue(meminfo)
    case None => None
    case Some(values) =>
      assert SP.ParseSize("") == None by {
        assert SP.TrimSpaces("") == "";
      }
      SP.ParseSize(if "MemTotal" in values then values["MemTotal"] else "")
  }

  /** A meminfo file whose entries give `MemTotal` as `N kB` yields `N`
      kibibytes. */
  lemma NodeMemoryFromEntries(es: seq<(string, string)>, n: nat)
    requires forall m :: 0 <= m < |es| ==> SP.PlainField(es[m].0) && SP.PlainField(es[m].1)
    requires "MemTotal" in SP.Gather(map[], es) && SP.Gather(map[], es)["MemTotal"] == ShowNat(n) + " kB"
    requires 0 < n && n * 1024 < SP.Pow64
    ensures NodeMemory(SP.RenderEntries(es) + "\n") == Some(n * 1024)
  {
    SP.ParseKeyValueRoundTrip(es);
    SP.ParseSizeKiB(n);
  }

  /** The parent map is well founded: every component with a parent is
      deeper than its parent. */
  predicate Ranked(parent: map<nat, nat>, depth: map<nat, nat>) {
    forall c :: c in parent ==> c in depth && parent[c] in depth && depth[parent[c]] < depth[c]
  }

  /** The top of the hierarchy above `c`, following parents. */
  function AncestorOf(parent: map<nat, nat>, depth: map<nat, nat>, c: nat): (r: nat)
    requires Ranked(parent, depth)
    ensures r !in parent
    decreases if c in depth then depth[c] else 0
  {
    if c !in parent then c else AncestorOf(parent, depth, parent[c])
  }

  /** The top of the hierarchy is no deeper than any component below
      it. */
  lemma {:induction false} AncestorShallower(parent: map<nat, nat>, depth: map<nat, nat>, c: nat)
    requires Ranked(parent, depth) && c in depth
    ensures AncestorOf(parent, depth, c) in depth && depth[AncestorOf(parent, depth, c)] <= depth[c]
    decreases depth[c]
  {
    if c in parent {
      AncestorShallower(parent, depth, parent[c]);
    }
  }

  /** A component is its own top exactly when it has no parent; a
      component and its parent share the top, and the top is its own
      top. */
  lemma AncestorShared(parent: map<nat, nat>, depth: map<nat, nat>, c: nat)
    requires Ranked(parent, depth)
    ensures AncestorOf(parent, depth, c) == c <==> c !in parent
    ensures c in parent ==> AncestorOf(parent, depth, parent[c]) == AncestorOf(parent, depth, c)
    ensures AncestorOf(parent, depth, AncestorOf(parent, depth, c)) == AncestorOf(parent, depth, c)
  {
    if c in parent {
      AncestorShallower(parent, depth, parent[c]);
    }
  }

  /** `HardwareComponent::GetAncestor`: the loop walks up while a parent
      exists and returns the last component it visited. */
  method GetAncestor(parent: map<nat, nat>, depth: map<nat, nat>, c: nat) returns (anc: nat)
    requires Ranked(parent, depth)
    ensures anc == AncestorOf(parent, depth, c)
  {
    var comp: Option<nat> := Some(c);
    var last: Option<nat> := None;
    while comp.Some?
      invariant comp.Some? ==> AncestorOf(parent, depth, comp.value) == AncestorOf(parent, depth, c)
      invariant comp.None? ==> last.Some? && last.value == AncestorOf(parent, depth, c)
      decreases if comp.Some? && comp.value in depth then depth[comp.value] + 2
                else if comp.Some? then 1 else 0
    {
      var cur := comp.value;
      last := Some(cur);
      if cur in parent {
        comp := Some(parent[cur]);
      } else {
        comp := None;
      }
    }
    anc := last.value;
  }

  // ---------------------------------------------------------------------
  // Last-level caches

  /** `HardwareNode::llc_front`: the first last-level cache the node
      lists. */
  function LlcFront(llcs: seq<nat>): nat
    requires |llcs| > 0
  {
    llcs[0]
  }

  /** `HardwareNode::llc_back` as written: the loop walks `I` to the end
      but `J` keeps the first position, so the front is returned. */
  function LlcBackAsWritten(llcs: seq<nat>): (r: nat)
    requires |llcs| > 0
    ensures r == LlcFront(llcs)
  {
    ScanKeepingFirst(llcs, 0, 0)
  }

  function ScanKeepingFirst(llcs: seq<nat>, i: nat, j: nat): (r: nat)
    requires i <= |llcs| && j < |llcs|
    ensures r == llcs[j]
    decreases |llcs| - i
  {
    if i == |llcs| then llcs[j] else ScanKeepingFirst(llcs, i + 1, j)
  }

  /** `llc_back` as evidently intended: `J` follows `I`, so the last
      cache visited is returned. */
  function LlcBack(llcs: seq<nat>): (r: nat)
    requires |llcs| > 0
    ensures r == llcs[|llcs| - 1]
  {
    ScanKeepingLast(llcs, 1, 0)
  }

  function ScanKeepingLast(llcs: seq<nat>, i: nat, j: nat): (r: nat)
    requires i <= |llcs| && j < |llcs| && (i > 0 ==> j == i - 1)
    ensures i < |llcs| ==> r == llcs[|llcs| - 1]
    ensures i == |llcs| ==> r == llcs[j]
    decreases |llcs| - i
  {
    if i == |llcs| then llcs[j] else ScanKeepingLast(llcs, i + 1, i)
  }

  /** With two different caches the two versions part: the loop as
      written hands back the front where the back was asked for. */
  lemma LlcBackDiverges()
    ensures LlcBackAsWritten([1, 2]) == 1 && LlcBack([1, 2]) == 2
  {
  }

  /** The intended back agrees with the front exactly when the node has
      one last-level cache or its first and last entries coincide. */
  lemma LlcBackFrontAgree(llcs: seq<nat>)
    requires |llcs| > 0
    ensures LlcBack(llcs) == LlcFront(llcs) <==> llcs[|llcs| - 1] == llcs[0]
    ensures LlcBackAsWritten(llcs) == LlcBack(llcs) <==> llcs[0] == llcs[|llcs| - 1]
  {
  }
}
