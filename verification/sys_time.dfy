/** `sys::Time`: a point in time as signed 64-bit seconds and nanoseconds.
    Construction folds the nanoseconds into the seconds with C++ `/` and
    `%`, which truncate toward zero; the default time has both fields at
    `INT64_MIN` and is the invalid time. Signed 64-bit overflow is written
    out as the two's-complement wrap the compiled code performs. */
module SysTime {

  const NanoInSeconds: int := 1_000_000_000
  const Int64Min: int := -0x8000_0000_0000_0000
  const Int64Max: int := 0x7FFF_FFFF_FFFF_FFFF
  const Int64Span: int := 0x1_0000_0000_0000_0000

  predicate IsInt64(x: int) {
    Int64Min <= x <= Int64Max
  }

  /** A mathematical result reduced to signed 64 bits. */
  function Wrap64(x: int): (r: int)
    ensures IsInt64(r)
    ensures IsInt64(x) ==> r == x
    ensures (r - x) % Int64Span == 0
  {
    (x - Int64Min) % Int64Span + Int64Min
  }

  /** C++ `n / NanoInSeconds`: the quotient truncated toward zero. */
  function Quot(n: int): int {
    if n >= 0 then n / NanoInSeconds else -((-n) / NanoInSeconds)
  }

  /** C++ `n % NanoInSeconds`: the remainder takes the sign of `n`. */
  function Rem(n: int): (r: int)
    ensures Quot(n) * NanoInSeconds + r == n
    ensures -NanoInSeconds < r < NanoInSeconds
    ensures n >= 0 ==> r >= 0
    ensures n <= 0 ==> r <= 0
  {
    n - Quot(n) * NanoInSeconds
  }

  datatype Time = Time(seconds: int, nanos: int)

  /** The default-constructed time. */
  const Invalid: Time := Time(Int64Min, Int64Min)

  predicate IsValid(t: Time) {
    t.seconds >= 0 && t.nanos >= 0
  }

  predicate Fits(t: Time) {
    IsInt64(t.seconds) && IsInt64(t.nanos)
  }

  /** The time in nanoseconds. */
  function Total(t: Time): int {
    t.seconds * NanoInSeconds + t.nanos
  }

  /** `Time(Seconds, NanoSeconds)`. */
  function MakeTime(s: int, n: int): (r: Time)
    requires IsInt64(s) && IsInt64(n)
    ensures Fits(r)
    ensures -NanoInSeconds < r.nanos < NanoInSeconds
    ensures n >= 0 ==> r.nanos >= 0
    ensures n <= 0 ==> r.nanos <= 0
    ensures IsInt64(s + Quot(n)) ==> Total(r) == s * NanoInSeconds + n
  {
    Time(Wrap64(s + Quot(n)), Rem(n))
  }

  /** `operator-` as written: field-wise difference, then the constructor's
      truncating renormalisation. */
  function SubAsWritten(a: Time, b: Time): (r: Time)
    requires Fits(a) && Fits(b)
    ensures Fits(r)
  {
    MakeTime(Wrap64(a.seconds - b.seconds), Wrap64(a.nanos - b.nanos))
  }

  /** Renormalisation with a borrow: the nanoseconds land in [0, 10^9). */
  function Normalise(s: int, n: int): (r: Time)
    requires IsInt64(s)
    ensures Fits(r)
    ensures 0 <= r.nanos < NanoInSeconds
    ensures IsInt64(s + n / NanoInSeconds) ==> Total(r) == s * NanoInSeconds + n
  {
    Time(Wrap64(s + n / NanoInSeconds), n % NanoInSeconds)
  }

  /** `operator-` with the borrow the profiler's deltas need. */
  function Sub(a: Time, b: Time): (r: Time)
    requires Fits(a) && Fits(b)
    ensures Fits(r)
    ensures 0 <= r.nanos < NanoInSeconds
  {
    Normalise(Wrap64(a.seconds - b.seconds), Wrap64(a.nanos - b.nanos))
  }

  /** A time whose nanoseconds are below one second and not negative. */
  predicate Normal(t: Time) {
    Fits(t) && 0 <= t.nanos < NanoInSeconds
  }

  /** The default time is invalid, and prints as "N\A" whatever number
      it would otherwise show. */
  lemma DefaultIsInvalid(shown: string)
    ensures Fits(Invalid) && !IsValid(Invalid)
    ensures Render(Invalid, shown) == "N\\A"
  {
  }

  /** Construction keeps the instant: the seconds absorb whole seconds of the
      nanoseconds, the rest keeps the sign of the given nanoseconds. */
  lemma MakeTimeKeepsInstant(s: int, n: int)
    requires IsInt64(s) && IsInt64(n) && IsInt64(s + Quot(n))
    ensures Total(MakeTime(s, n)) == s * NanoInSeconds + n
    ensures -NanoInSeconds < MakeTime(s, n).nanos < NanoInSeconds
    ensures s >= 0 && n >= 0 ==> IsValid(MakeTime(s, n))
    ensures n < 0 && Rem(n) != 0 ==> !IsValid(MakeTime(s, n))
  {
  }

  /** As written, a later valid time minus an earlier one whose nanoseconds
      are larger is invalid: the difference keeps positive seconds and
      negative nanoseconds, and so prints as "N\A". */
  lemma BorrowIsInvalidAsWritten(a: Time, b: Time)
    requires Normal(a) && Normal(b) && IsValid(a) && IsValid(b)
    requires a.seconds > b.seconds && a.nanos < b.nanos
    ensures Total(a) > Total(b)
    ensures !IsValid(SubAsWritten(a, b))
  {
  }

  /** As written, without a borrow to make, the difference of two valid
      times is valid and exactly the elapsed time, as with the borrow. */
  lemma SubAsWrittenWithoutBorrow(a: Time, b: Time)
    requires Normal(a) && Normal(b) && IsValid(a) && IsValid(b)
    requires a.seconds >= b.seconds && a.nanos >= b.nanos
    ensures SubAsWritten(a, b) == Sub(a, b)
    ensures IsValid(SubAsWritten(a, b))
    ensures Total(SubAsWritten(a, b)) == Total(a) - Total(b)
  {
  }

  /** A valid time minus the default time wraps both fields negative, and
      the renormalised nanoseconds stay negative, so the result is invalid,
      unless the nanoseconds are 2^63 modulo 10^9: then the wrapped
      nanoseconds are a whole number of seconds. */
  lemma MinusDefaultInvalid(a: Time)
    requires Normal(a) && IsValid(a)
    ensures SubAsWritten(a, Invalid).nanos == a.nanos - 854_775_808
              - (if a.nanos > 854_775_808 then NanoInSeconds else 0)
    ensures a.nanos != 854_775_808 ==> !IsValid(SubAsWritten(a, Invalid))
  {
    var n := Wrap64(a.nanos - Int64Min);
    assert n == a.nanos - 0x8000_0000_0000_0000;
    assert -n == 9_223_372_036 * NanoInSeconds + (854_775_808 - a.nanos);
    if a.nanos <= 854_775_808 {
      assert (-n) / NanoInSeconds == 9_223_372_036;
      assert Rem(n) == a.nanos - 854_775_808;
    } else {
      assert (-n) / NanoInSeconds == 9_223_372_035;
      assert Rem(n) == a.nanos - 854_775_808 - NanoInSeconds;
    }
  }

  /** For instance 2.1 s minus 1.9 s. */
  lemma BorrowExample()
    ensures SubAsWritten(Time(2, 100_000_000), Time(1, 900_000_000)) == Time(1, -800_000_000)
    ensures !IsValid(SubAsWritten(Time(2, 100_000_000), Time(1, 900_000_000)))
    ensures Sub(Time(2, 100_000_000), Time(1, 900_000_000)) == Time(0, 200_000_000)
  {
  }

  /** With the borrow, a later valid time minus an earlier one is valid and
      is exactly the elapsed time. */
  lemma SubElapsed(a: Time, b: Time)
    requires Normal(a) && Normal(b) && IsValid(a) && IsValid(b)
    requires Total(a) >= Total(b)
    ensures IsValid(Sub(a, b)) && Normal(Sub(a, b))
    ensures Total(Sub(a, b)) == Total(a) - Total(b)
  {
    var s, n := a.seconds - b.seconds, a.nanos - b.nanos;
    assert -NanoInSeconds < n < NanoInSeconds;
    assert n / NanoInSeconds == (if n < 0 then -1 else 0);
  }

  /** The text a time prints as, to a stream or to a table: the number
      (`shown`, the printing of the floating-point seconds) when valid,
      otherwise "N\A". */
  function Render(t: Time, shown: string): string {
    if IsValid(t) then shown else "N\\A"
  }
}
