/** The geometry of an OpenCL iteration space and the iterator that walks
    its work-items. A position is a mixed-radix number: its low digits are
    the local ids (radix: the local size of each dimension) and its high
    digits are the work-group ids (radix: the work-group count of each
    dimension). The iterator's per-dimension sizes are given as sequences,
    since the accessors it calls are not part of the header modelled here. */
module DimensionInfo {

  /** `unsigned` arithmetic wraps modulo 2^32. */
  const UintModulus: nat := 0x1_0000_0000

  /** One dimension: origin offset, global size and local size. */
  datatype Dim = Dim(offset: nat, global: nat, local: nat)

  /** The constructor: as many dimensions as the shortest of the three lists. */
  function NewDimensionInfo(offsets: seq<nat>, globals: seq<nat>, locals: seq<nat>): (r: seq<Dim>)
    ensures |r| <= |offsets| && |r| <= |globals| && |r| <= |locals|
    ensures |r| == |offsets| || |r| == |globals| || |r| == |locals|
    ensures forall i :: 0 <= i < |r| ==> r[i] == Dim(offsets[i], globals[i], locals[i])
  {
    var e := if |offsets| < |globals| then |offsets| else |globals|;
    var e2 := if e < |locals| then e else |locals|;
    seq(e2, i requires 0 <= i < e2 => Dim(offsets[i], globals[i], locals[i]))
  }

  /** The exact product of a list of sizes. */
  function Product(xs: seq<nat>): nat {
    if |xs| == 0 then 1 else xs[0] * Product(xs[1..])
  }

  /** The loop `Size *= x` over an `unsigned` accumulator, from position `i` on. */
  function WrappingProductFrom(xs: seq<nat>, i: nat, acc: nat): nat
    requires i <= |xs|
    decreases |xs| - i
  {
    if i == |xs| then acc else WrappingProductFrom(xs, i + 1, (acc * xs[i]) % UintModulus)
  }

  function Globals(dims: seq<Dim>): (r: seq<nat>)
    ensures |r| == |dims|
  {
    seq(|dims|, i requires 0 <= i < |dims| => dims[i].global)
  }

  function Locals(dims: seq<Dim>): (r: seq<nat>)
    ensures |r| == |dims|
  {
    seq(|dims|, i requires 0 <= i < |dims| => dims[i].local)
  }

  /** `GetGlobalWorkItems`: 0 without dimensions, else the wrapped product. */
  function GlobalWorkItems(dims: seq<Dim>): nat {
    if |dims| == 0 then 0 else WrappingProductFrom(Globals(dims), 0, 1)
  }

  /** `GetLocalWorkItems`: 0 without dimensions, else the wrapped product. */
  function LocalWorkItems(dims: seq<Dim>): nat {
    if |dims| == 0 then 0 else WrappingProductFrom(Locals(dims), 0, 1)
  }

  lemma {:induction false} WrappingProductIsProduct(xs: seq<nat>, i: nat, acc: nat)
    requires i <= |xs| && acc < UintModulus
    ensures WrappingProductFrom(xs, i, acc) == (acc * Product(xs[i..])) % UintModulus
    decreases |xs| - i
  {
    if i < |xs| {
      var a2 := (acc * xs[i]) % UintModulus;
      WrappingProductIsProduct(xs, i + 1, a2);
      assert xs[i..][1..] == xs[i + 1..];
      var p := Product(xs[i + 1..]);
      MulModAssoc(acc * xs[i], p);
      assert acc * Product(xs[i..]) == (acc * xs[i]) * p;
    } else {
      assert Product(xs[i..]) == 1;
    }
  }

  lemma MulModAssoc(a: nat, b: nat)
    ensures ((a % UintModulus) * b) % UintModulus == (a * b) % UintModulus
  {
    var q := a / UintModulus;
    var r := a % UintModulus;
    assert a == q * UintModulus + r;
    assert a * b == (q * b) * UintModulus + r * b;
  }

  /** The totals are the exact products reduced to 32 bits, 0 with no dimensions. */
  lemma TotalsAreProducts(dims: seq<Dim>)
    ensures GlobalWorkItems(dims) == if |dims| == 0 then 0 else Product(Globals(dims)) % UintModulus
    ensures LocalWorkItems(dims) == if |dims| == 0 then 0 else Product(Locals(dims)) % UintModulus
  {
    if |dims| > 0 {
      WrappingProductIsProduct(Globals(dims), 0, 1);
      WrappingProductIsProduct(Locals(dims), 0, 1);
      assert Globals(dims)[0..] == Globals(dims);
      assert Locals(dims)[0..] == Locals(dims);
    }
  }

  /** `GetWorkGroupsCount`: global work-items per local work-items. */
  function WorkGroupsCount(dims: seq<Dim>): (r: nat)
    requires LocalWorkItems(dims) != 0
    ensures r * LocalWorkItems(dims) <= GlobalWorkItems(dims) < (r + 1) * LocalWorkItems(dims)
  {
    GlobalWorkItems(dims) / LocalWorkItems(dims)
  }

  /** `IsLocalWorkGroupSizeSpecified`. */
  predicate IsLocalWorkGroupSizeSpecified(dims: seq<Dim>) {
    LocalWorkItems(dims) != 0
  }

  /** Without dimensions no local size is specified. */
  lemma NoDimensionsNoLocalSize(dims: seq<Dim>)
    requires |dims| == 0
    ensures !IsLocalWorkGroupSizeSpecified(dims) && GlobalWorkItems(dims) == 0
  {
  }

  // The iterator.

  /** The weight of digit `i`: the product of the radices below it. */
  function Weight(radix: seq<nat>, i: nat): nat
    requires i <= |radix|
  {
    if i == 0 then 1 else Weight(radix, i - 1) * radix[i - 1]
  }

  /** The value of the digits below position `i`. */
  function Value(digits: seq<nat>, radix: seq<nat>, i: nat): nat
    requires i <= |digits| && i <= |radix|
  {
    if i == 0 then 0 else Value(digits, radix, i - 1) + digits[i - 1] * Weight(radix, i - 1)
  }

  predicate InRange(digits: seq<nat>, radix: seq<nat>) {
    |digits| == |radix| && forall i :: 0 <= i < |digits| ==> digits[i] < radix[i]
  }

  predicate Positive(radix: seq<nat>) {
    forall i :: 0 <= i < |radix| ==> radix[i] > 0
  }

  /** The position of the iterator: all local digits, then all group digits. */
  function Position(locals: seq<nat>, groups: seq<nat>, localSizes: seq<nat>, groupCounts: seq<nat>): nat
    requires |locals| == |localSizes| && |groups| == |groupCounts|
  {
    Value(locals, localSizes, |locals|) + Weight(localSizes, |localSizes|) * Value(groups, groupCounts, |groups|)
  }

  lemma {:induction false} ValueFrame(a: seq<nat>, b: seq<nat>, radix: seq<nat>, i: nat)
    requires i <= |a| && i <= |b| && i <= |radix|
    requires a[..i] == b[..i]
    ensures Value(a, radix, i) == Value(b, radix, i)
  {
    if i > 0 {
      assert a[..i - 1] == b[..i - 1];
      assert a[i - 1] == a[..i][i - 1] == b[..i][i - 1] == b[i - 1];
      ValueFrame(a, b, radix, i - 1);
    }
  }

  /** The value grows by the same amount over positions where the digits agree. */
  lemma {:induction false} ValueTail(a: seq<nat>, b: seq<nat>, radix: seq<nat>, i: nat, j: nat)
    requires i <= j <= |a| == |b| && j <= |radix|
    requires a[i..] == b[i..]
    ensures Value(a, radix, j) - Value(a, radix, i) == Value(b, radix, j) - Value(b, radix, i)
    decreases j - i
  {
    if j > i {
      ValueTail(a, b, radix, i, j - 1);
      assert a[j - 1] == a[i..][j - 1 - i] == b[i..][j - 1 - i] == b[j - 1];
      ValueMonotone(a, radix, i, j - 1);
      ValueMonotone(b, radix, i, j - 1);
    }
  }

  lemma {:induction false} ValueMonotone(a: seq<nat>, radix: seq<nat>, i: nat, j: nat)
    requires i <= j <= |a| && j <= |radix|
    ensures Value(a, radix, i) <= Value(a, radix, j)
    decreases j - i
  {
    if j > i {
      ValueMonotone(a, radix, i, j - 1);
    }
  }

  /** Digits below their radices are worth less than the next weight. */
  lemma {:induction false} ValueBelowWeight(a: seq<nat>, radix: seq<nat>, i: nat)
    requires i <= |a| && i <= |radix|
    requires forall k :: 0 <= k < i ==> a[k] < radix[k]
    ensures Value(a, radix, i) < Weight(radix, i)
  {
    if i > 0 {
      ValueBelowWeight(a, radix, i - 1);
      DigitBelow(Value(a, radix, i - 1), a[i - 1], radix[i - 1], Weight(radix, i - 1));
    }
  }

  /** A value below weight `w`, plus a digit below `r` times `w`, stays below `w * r`. */
  lemma DigitBelow(v: nat, d: nat, r: nat, w: nat)
    requires v < w && d < r
    ensures v + d * w < w * r
  {
    MulLe(d + 1, r, w);
  }

  lemma MulLe(a: nat, b: nat, w: nat)
    requires a <= b
    ensures a * w <= b * w
  {
    assert b * w == a * w + (b - a) * w;
  }

  /** One digit step: `d := (d + c) % s` with carry `(d + c) / s` keeps the value. */
  lemma DigitStep(d: nat, c: nat, s: nat, w: nat)
    requires s > 0
    ensures ((d + c) % s) * w + ((d + c) / s) * (s * w) == d * w + c * w
  {
    var q := (d + c) / s;
    var r := (d + c) % s;
    assert d + c == q * s + r;
    assert (q * s + r) * w == q * (s * w) + r * w;
  }

  /** One pass of `Advance` over one kind of digit: add `carry` starting at
      the lowest digit, stopping when the carry is 0 or the digits run out. */
  method AddWithCarry(digits: seq<nat>, radix: seq<nat>, carry: nat) returns (out: seq<nat>, left: nat)
    requires |digits| == |radix| && Positive(radix)
    ensures |out| == |digits|
    ensures Value(out, radix, |out|) + left * Weight(radix, |radix|) == Value(digits, radix, |digits|) + carry
    ensures carry == 0 ==> out == digits && left == 0
    ensures left > 0 ==> forall i :: 0 <= i < |out| ==> out[i] < radix[i]
    ensures InRange(digits, radix) ==> InRange(out, radix)
  {
    out := digits;
    left := carry;
    var i := 0;
    while i != |out| && left != 0
      invariant 0 <= i <= |out| == |digits|
      invariant out[i..] == digits[i..]
      invariant forall k :: 0 <= k < i ==> out[k] < radix[k]
      invariant Value(out, radix, i) + left * Weight(radix, i) == Value(digits, radix, i) + carry
      invariant carry == 0 ==> out == digits && left == 0
      decreases |out| - i
    {
      var newId := out[i] + left;
      var size := radix[i];
      AddStep(digits, radix, carry, out, left, i);
      out := out[i := newId % size];
      left := newId / size;
      i := i + 1;
    }
    if i < |out| {
      ValueTail(out, digits, radix, i, |out|);
    }
  }

  /** One digit of the pass: the digit takes the sum modulo its radix and
      the quotient carries on, which keeps the value the digits and the
      carry encode. */
  lemma AddStep(digits: seq<nat>, radix: seq<nat>, carry: nat, out: seq<nat>, left: nat, i: nat)
    requires |digits| == |radix| == |out| && Positive(radix) && i < |out|
    requires out[i..] == digits[i..]
    requires Value(out, radix, i) + left * Weight(radix, i) == Value(digits, radix, i) + carry
    ensures var out' := out[i := (out[i] + left) % radix[i]];
      && out'[i + 1..] == digits[i + 1..]
      && Value(out', radix, i + 1) + ((out[i] + left) / radix[i]) * Weight(radix, i + 1) == Value(digits, radix, i + 1) + carry
  {
    var size := radix[i];
    var out' := out[i := (out[i] + left) % size];
    assert out'[..i] == out[..i];
    ValueFrame(out', out, radix, i);
    assert out[i] == digits[i];
    DigitStep(digits[i], left, size, Weight(radix, i));
    assert out'[i + 1..] == digits[i + 1..];
  }

  /** `DimensionInfoIterator::Advance(N)`: move `N` work-items forward. If
      the position runs past the last work-item, every local id and group id
      becomes 0 except group 0, which takes the last dimension's group
      count: the end marker. */
  method Advance(locals: seq<nat>, groups: seq<nat>, localSizes: seq<nat>, groupCounts: seq<nat>, n: nat)
    returns (locals': seq<nat>, groups': seq<nat>)
    requires |locals| == |localSizes| && |groups| == |groupCounts| && |groups| > 0
    requires Positive(localSizes) && Positive(groupCounts)
    ensures |locals'| == |locals| && |groups'| == |groups|
    ensures n == 0 ==> locals' == locals && groups' == groups
    ensures var total := Weight(localSizes, |localSizes|) * Weight(groupCounts, |groupCounts|);
      var p := Position(locals, groups, localSizes, groupCounts);
      InRange(locals, localSizes) && InRange(groups, groupCounts) ==>
        if p + n < total then
          && Position(locals', groups', localSizes, groupCounts) == p + n
          && InRange(locals', localSizes) && InRange(groups', groupCounts)
        else
          && (forall i :: 0 <= i < |locals'| ==> locals'[i] == 0)
          && groups'[0] == groupCounts[|groupCounts| - 1]
          && (forall i :: 1 <= i < |groups'| ==> groups'[i] == 0)
  {
    var carry;
    locals', carry := AddWithCarry(locals, localSizes, n);
    var overflow;
    groups', overflow := AddWithCarry(groups, groupCounts, carry);
    var wl := Weight(localSizes, |localSizes|);
    var wg := Weight(groupCounts, |groupCounts|);
    if InRange(locals, localSizes) && InRange(groups, groupCounts) {
      var vl, vg := Value(locals, localSizes, |locals|), Value(groups, groupCounts, |groups|);
      var vl', vg' := Value(locals', localSizes, |locals'|), Value(groups', groupCounts, |groups'|);
      if overflow != 0 {
        WeightPositive(localSizes, |localSizes|);
        OverflowBeyond(vl, vg, vl', vg', carry, overflow, wl, wg, n);
      } else {
        ValueBelowWeight(locals', localSizes, |locals'|);
        ValueBelowWeight(groups', groupCounts, |groups'|);
        InsideMoves(vl, vg, vl', vg', carry, wl, wg, n);
      }
    }
    if overflow != 0 {
      locals' := seq(|locals|, _ => 0);
      groups' := [groupCounts[|groupCounts| - 1]] + seq(|groups| - 1, _ => 0);
    }
  }

  /** A carry out of the last group digit means the position passed the total. */
  lemma OverflowBeyond(vl: nat, vg: nat, vl': nat, vg': nat, c: nat, o: nat, wl: nat, wg: nat, n: nat)
    requires vl' + c * wl == vl + n && vg' + o * wg == vg + c
    requires o > 0 && wl > 0
    ensures vl + wl * vg + n >= wl * wg
  {
    assert vl + wl * vg + n == vl' + wl * (vg + c);
    MulLe(1, o, wg);
    MulLe(wg, vg + c, wl);
  }

  /** Without a carry out, the new digits encode the old position plus `n`,
      which stays below the total. */
  lemma InsideMoves(vl: nat, vg: nat, vl': nat, vg': nat, c: nat, wl: nat, wg: nat, n: nat)
    requires vl' + c * wl == vl + n && vg' == vg + c
    requires vl' < wl && vg' < wg
    ensures vl' + wl * vg' == vl + wl * vg + n
    ensures vl + wl * vg + n < wl * wg
  {
    BelowTotal(vl', vg', wl, wg);
  }

  lemma {:induction false} WeightPositive(radix: seq<nat>, i: nat)
    requires i <= |radix| && Positive(radix)
    ensures Weight(radix, i) > 0
  {
    if i > 0 {
      WeightPositive(radix, i - 1);
    }
  }

  lemma BelowTotal(vl: nat, vg: nat, wl: nat, wg: nat)
    requires vl < wl && vg < wg
    ensures vl + wl * vg < wl * wg
  {
    assert wl * vg <= wl * (wg - 1);
  }

  /** `GetGlobalId(I)`: the group's first work-item plus the local id. */
  function GlobalId(group: nat, localSize: nat, localId: nat): nat {
    group * localSize + localId
  }

  /** Inside a group, global ids identify the (group, local id) pair. */
  lemma GlobalIdInjective(g1: nat, l1: nat, g2: nat, l2: nat, localSize: nat)
    requires l1 < localSize && l2 < localSize
    requires GlobalId(g1, localSize, l1) == GlobalId(g2, localSize, l2)
    ensures g1 == g2 && l1 == l2
  {
    var id := GlobalId(g1, localSize, l1);
    DivModUnique(g1, l1, localSize);
    DivModUnique(g2, l2, localSize);
  }

  lemma DivModUnique(g: nat, l: nat, s: nat)
    requires l < s
    ensures (g * s + l) / s == g && (g * s + l) % s == l
  {
    var n := g * s + l;
    var q, r := n / s, n % s;
    assert q * s + r == g * s + l;
    if q > g {
      MulLe(1, q - g, s);
    } else if q < g {
      MulLe(1, g - q, s);
    }
  }

  /** `GetGlobalOffset(I)` is not implemented and always 0. */
  function GlobalOffset(i: nat): (r: nat)
    ensures r == 0
  {
    0
  }

  /** `GetWorkGroup()`: the last group index plus, for every other
      dimension, its local size times its group index. */
  function WorkGroupNumber(groups: seq<nat>, localSizes: seq<nat>): nat
    requires |groups| > 0 && |localSizes| >= |groups| - 1
  {
    groups[|groups| - 1] + WeightedSum(groups, localSizes, |groups| - 1)
  }

  function WeightedSum(groups: seq<nat>, localSizes: seq<nat>, k: nat): nat
    requires k <= |groups| && k <= |localSizes|
  {
    if k == 0 then 0 else WeightedSum(groups, localSizes, k - 1) + localSizes[k - 1] * groups[k - 1]
  }

  /** The intended work-group number: the group indices read as a
      mixed-radix number whose radices are the group counts, dimension 0
      lowest. It is below the total number of groups. */
  function GroupIndex(groups: seq<nat>, groupCounts: seq<nat>): (r: nat)
    requires InRange(groups, groupCounts)
    ensures r < Weight(groupCounts, |groupCounts|)
  {
    ValueBelowWeight(groups, groupCounts, |groups|);
    Value(groups, groupCounts, |groups|)
  }

  /** Distinct groups get distinct numbers. */
  lemma GroupIndexInjective(a: seq<nat>, b: seq<nat>, groupCounts: seq<nat>)
    requires InRange(a, groupCounts) && InRange(b, groupCounts)
    requires GroupIndex(a, groupCounts) == GroupIndex(b, groupCounts)
    ensures a == b
  {
    ValueInjective(a, b, groupCounts, |a|);
    assert a == a[..|a|] && b == b[..|b|];
  }

  /** Digits below their radices are determined by their value. */
  lemma {:induction false} ValueInjective(a: seq<nat>, b: seq<nat>, radix: seq<nat>, i: nat)
    requires InRange(a, radix) && InRange(b, radix) && i <= |radix|
    requires Value(a, radix, i) == Value(b, radix, i)
    ensures a[..i] == b[..i]
  {
    if i > 0 {
      var w := Weight(radix, i - 1);
      ValueBelowWeight(a, radix, i - 1);
      ValueBelowWeight(b, radix, i - 1);
      var va, vb := Value(a, radix, i - 1), Value(b, radix, i - 1);
      assert a[i - 1] * w + va == b[i - 1] * w + vb;
      DivModUnique(a[i - 1], va, w);
      DivModUnique(b[i - 1], vb, w);
      ValueInjective(a, b, radix, i - 1);
      assert a[..i] == a[..i - 1] + [a[i - 1]];
      assert b[..i] == b[..i - 1] + [b[i - 1]];
    }
  }

  /** As written, two different groups of a two-dimensional launch can get
      the same number: with global sizes 2 x 2 and local sizes 1 x 1 there
      are 2 x 2 groups, and groups (1, 0) and (0, 1) are both numbered 1,
      because the number weighs the group indices by the local sizes and
      counts the last dimension in units. */
  lemma WorkGroupNumberCollides()
    ensures InRange([1, 0], [2, 2]) && InRange([0, 1], [2, 2])
    ensures WorkGroupNumber([1, 0], [1, 1]) == WorkGroupNumber([0, 1], [1, 1]) == 1
    ensures GroupIndex([1, 0], [2, 2]) == 1 && GroupIndex([0, 1], [2, 2]) == 2
  {
  }

  /** In one dimension the number as written is the intended one: the group
      index itself. */
  lemma WorkGroupNumberOneDimension(groups: seq<nat>, localSizes: seq<nat>, groupCounts: seq<nat>)
    requires |groups| == 1 && InRange(groups, groupCounts)
    ensures WorkGroupNumber(groups, localSizes) == GroupIndex(groups, groupCounts) == groups[0]
  {
    assert Value(groups, groupCounts, 1) == Value(groups, groupCounts, 0) + groups[0] * Weight(groupCounts, 0);
  }
}
