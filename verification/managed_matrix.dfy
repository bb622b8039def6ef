/** The benchmarks' host-side matrices (`ManagedMatrix` and
    `BiManagedMatrix`): the sizes of each dimension and the elements in
    one block. The bitwise comparison of the generic `operator==` is
    comparison of the elements; an element is `elemBytes` bytes
    (`sizeof(Ty)`). Copies are values, so a copy never shares storage
    with its source. */
module ManagedMatrix {
  import opened Results
  import opened Text

  datatype Matrix<T> = Matrix(sizes: seq<nat>, mem: seq<T>)

  /** The product of the sizes. */
  function Product(sizes: seq<nat>): nat
    decreases |sizes|
  {
    if |sizes| == 0 then 1 else Product(sizes[..|sizes| - 1]) * sizes[|sizes| - 1]
  }

  /** The block holds one element per position of the index space. */
  predicate Valid<T>(m: Matrix<T>) {
    |m.mem| == Product(m.sizes)
  }

  /** The one- and two-dimensional constructors; the fresh block's
      contents are whatever the allocation holds, given here as `init`. */
  function New1<T>(sz: nat, init: seq<T>): (m: Matrix<T>)
    requires |init| == sz
    ensures Valid(m) && m.sizes == [sz]
  {
    assert [sz][..0] == [];
    Matrix([sz], init)
  }

  function New2<T>(sz0: nat, sz1: nat, init: seq<T>): (m: Matrix<T>)
    requires |init| == sz0 * sz1
    ensures Valid(m) && m.sizes == [sz0, sz1]
  {
    assert [sz0, sz1][..1] == [sz0] && [sz0][..0] == [];
    assert Product([sz0]) == sz0;
    assert Product([sz0, sz1]) == sz0 * sz1;
    Matrix([sz0, sz1], init)
  }

  /** `GetNVolume`: the loop multiplies the sizes in order. */
  method GetNVolume<T>(m: Matrix<T>) returns (v: nat)
    ensures v == Product(m.sizes)
  {
    v := 1;
    var i := 0;
    while i != |m.sizes|
      invariant i <= |m.sizes| && v == Product(m.sizes[..i])
    {
      assert m.sizes[..i + 1][..i] == m.sizes[..i];
      v := v * m.sizes[i];
      i := i + 1;
    }
    assert m.sizes[..i] == m.sizes;
  }

  /** `GetMemSize`: the bytes of the block. */
  function GetMemSize<T>(m: Matrix<T>, elemBytes: nat): (r: nat)
    requires Valid(m)
    ensures r == |m.mem| * elemBytes
  {
    Product(m.sizes) * elemBytes
  }

  /** `GetSize`: the size of dimension `i`, or the `out_of_range`
      exception with its message. */
  function GetSize<T>(m: Matrix<T>, i: nat): (r: Result<nat, string>)
    ensures r.Success? <==> i < |m.sizes|
    ensures r.Success? ==> r.value == m.sizes[i]
    ensures r.Failure? ==> r.error == "ManagedMatrix " + ShowNat(i)
  {
    if i >= |m.sizes| then Failure("ManagedMatrix " + ShowNat(i)) else Success(m.sizes[i])
  }

  /** The first dimension from `i` where the sizes differ, or the count
      of dimensions. */
  function FirstSizeMismatch(a: seq<nat>, b: seq<nat>, i: nat): (k: nat)
    requires |a| == |b| && i <= |a|
    ensures i <= k <= |a| && (k < |a| ==> a[k] != b[k])
    ensures forall j :: i <= j < k ==> a[j] == b[j]
    decreases |a| - i
  {
    if i == |a| || a[i] != b[i] then i else FirstSizeMismatch(a, b, i + 1)
  }

  /** `operator==`: the same number of dimensions, the same size in
      each, and the same block. */
  function Equal<T(==)>(a: Matrix<T>, b: Matrix<T>): bool
    requires Valid(a) && Valid(b)
  {
    if |a.sizes| != |b.sizes| then false
    else if FirstSizeMismatch(a.sizes, b.sizes, 0) < |a.sizes| then false
    else a.mem == b.mem
  }

  /** Equality of matrices is equality of their values. */
  lemma EqualIff<T>(a: Matrix<T>, b: Matrix<T>)
    requires Valid(a) && Valid(b)
    ensures Equal(a, b) <==> a == b
  {
    if |a.sizes| == |b.sizes| && FirstSizeMismatch(a.sizes, b.sizes, 0) == |a.sizes| {
      assert a.sizes == b.sizes;
    }
  }

  /** The copy constructor: the sizes, then as many elements as the
      volume counts. */
  function Copy<T>(that: Matrix<T>): (r: Matrix<T>)
    requires Valid(that)
    ensures Valid(r)
  {
    Matrix(that.sizes, that.mem[..Product(that.sizes)])
  }

  /** `operator=`: nothing happens when the source is the target itself,
      otherwise the target becomes a copy. */
  function Assign<T>(self: Matrix<T>, that: Matrix<T>, sameObject: bool): (r: Matrix<T>)
    requires Valid(that)
    requires sameObject ==> self == that
    ensures Valid(r) && r.sizes == that.sizes
    ensures forall i :: 0 <= i < |that.mem| ==> r.mem[i] == that.mem[i]
  {
    if sameObject then self else Copy(that)
  }

  /** A copy equals its source, and an assignment leaves the target equal
      to the source whether or not the two are the same object. */
  lemma CopyIsDeep<T>(that: Matrix<T>, self: Matrix<T>, sameObject: bool)
    requires Valid(that) && (sameObject ==> self == that)
    ensures Copy(that) == that && Equal(Copy(that), that)
    ensures Assign(self, that, sameObject) == that
  {
    assert that.mem[..Product(that.sizes)] == that.mem;
    EqualIff(Copy(that), that);
  }

  // ---------------------------------------------------------------------
  // BiManagedMatrix

  /** The mutable `operator()(I, J)`: the element at `I * Size(0) + J`. */
  function MutableOffset<T>(m: Matrix<T>, i: nat, j: nat): nat
    requires |m.sizes| == 2
  {
    i * m.sizes[0] + j
  }

  /** The const `operator()(I, J)` as written: the stride is the size of
      dimension `I`, which throws `out_of_range` for `I` past the second
      dimension. */
  function ConstOffsetAsWritten<T>(m: Matrix<T>, i: nat, j: nat): (r: Result<nat, string>)
    requires |m.sizes| == 2
    ensures r.Success? <==> i < 2
    ensures r.Success? ==> r.value == i * m.sizes[i] + j
  {
    match GetSize(m, i)
    case Failure(e) => Failure(e)
    case Success(stride) => Success(i * stride + j)
  }

  /** The const accessor as evidently intended: the mutable one's
      offset. */
  function ConstOffset<T>(m: Matrix<T>, i: nat, j: nat): (r: nat)
    requires |m.sizes| == 2
    ensures r == MutableOffset(m, i, j)
  {
    i * m.sizes[0] + j
  }

  /** On a square matrix the mutable offsets of the index space are the
      row-major positions: each lies inside the block and no two indices
      share one. */
  lemma MutableOffsetsRowMajor<T>(m: Matrix<T>, i: nat, j: nat, i': nat, j': nat)
    requires Valid(m) && |m.sizes| == 2 && m.sizes[0] == m.sizes[1]
    requires i < m.sizes[0] && j < m.sizes[1] && i' < m.sizes[0] && j' < m.sizes[1]
    ensures MutableOffset(m, i, j) < |m.mem|
    ensures MutableOffset(m, i, j) == MutableOffset(m, i', j') ==> i == i' && j == j'
  {
    var n := m.sizes[0];
    assert Product(m.sizes) == n * n by {
      assert m.sizes[..1] == [n] && [n][..0] == [];
      assert Product([n]) == n;
    }
    RowBelow(n, i, j, n);
    if i < i' {
      RowBelow(n, i, j, i');
    } else if i' < i {
      RowBelow(n, i', j', i);
    }
  }

  /** Position `j` of row `i` comes before row `k` when `i < k`. */
  lemma RowBelow(n: nat, i: nat, j: nat, k: nat)
    requires j < n && i < k
    ensures i * n + j < k * n
  {
    MulMono(i + 1, k, n);
    assert (i + 1) * n == i * n + n;
  }

  lemma MulMono(a: nat, b: nat, c: nat)
    requires a <= b
    ensures a * c <= b * c
  {
  }

  /** On a 3 x 3 matrix, square like the ones the benchmarks use, the
      const accessor as written throws for the third row, where the mutable one reads
      position 6. */
  lemma ConstAccessorThrows<T>(init: seq<T>)
    requires |init| == 9
    ensures var m := New2(3, 3, init);
      && ConstOffsetAsWritten(m, 2, 0) == Failure("ManagedMatrix 2")
      && MutableOffset(m, 2, 0) == 6 && ConstOffset(m, 2, 0) == 6
  {
    var m := New2(3, 3, init);
    assert m.sizes == [3, 3];
    assert ShowNat(2) == [DigitChar(2)] == "2";
    assert "ManagedMatrix " + ShowNat(2) == "ManagedMatrix 2";
    assert GetSize(m, 2) == Failure("ManagedMatrix 2");
  }

  /** On the first two rows of a square matrix the two accessors agree:
      the row index happens to name a dimension of the same size. */
  lemma ConstAgreesOnFirstRows<T>(m: Matrix<T>, i: nat, j: nat)
    requires |m.sizes| == 2 && m.sizes[0] == m.sizes[1] && i < 2
    ensures ConstOffsetAsWritten(m, i, j) == Success(ConstOffset(m, i, j))
  {
  }
}
