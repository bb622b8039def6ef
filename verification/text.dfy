/** Text utilities shared by the emitters: the reference rendering of a
    separated list, the separator-before-all-but-the-first loop that the
    emitters write, concatenation of emitted lines, and decimal printing. */
module Text {

  /** Items separated by `sep`: the reference rendering of a list. */
  function Join(sep: string, xs: seq<string>): string {
    if |xs| == 0 then ""
    else if |xs| == 1 then xs[0]
    else xs[0] + sep + Join(sep, xs[1..])
  }

  /** The emitters' loop from position `i` on: `sep` before every item but the first. */
  function JoinFrom(sep: string, xs: seq<string>, i: nat): string
    requires i <= |xs|
    decreases |xs| - i
  {
    if i == |xs| then ""
    else (if i != 0 then sep else "") + xs[i] + JoinFrom(sep, xs, i + 1)
  }

  lemma {:induction false} JoinFromIsJoin(sep: string, xs: seq<string>, i: nat)
    requires i < |xs|
    ensures JoinFrom(sep, xs, i) == (if i != 0 then sep else "") + Join(sep, xs[i..])
    decreases |xs| - i
  {
    if i + 1 < |xs| {
      JoinFromIsJoin(sep, xs, i + 1);
      assert xs[i..][1..] == xs[i + 1..];
    }
  }

  /** The loop that writes a list agrees with the list's reference rendering. */
  lemma JoinLoop(sep: string, xs: seq<string>)
    ensures JoinFrom(sep, xs, 0) == Join(sep, xs)
  {
    if |xs| > 0 {
      JoinFromIsJoin(sep, xs, 0);
      assert xs[0..] == xs;
    }
  }

  function Concat(lines: seq<string>): string {
    if |lines| == 0 then "" else lines[0] + Concat(lines[1..])
  }

  lemma {:induction false} ConcatAppend(a: seq<string>, b: seq<string>)
    ensures Concat(a + b) == Concat(a) + Concat(b)
    decreases |a|
  {
    if |a| > 0 {
      ConcatAppend(a[1..], b);
      assert (a + b)[1..] == a[1..] + b;
    } else {
      assert a + b == b;
    }
  }

  /** `[x] + s` starts with `x`, and its position `i` past the head is
      position `i - 1` of `s`. */
  lemma ConsIndex<T>(x: T, s: seq<T>)
    ensures ([x] + s)[0] == x
    ensures forall i :: 1 <= i <= |s| ==> ([x] + s)[i] == s[i - 1]
  {
  }

  predicate IsDigit(c: char) {
    '0' <= c <= '9'
  }

  function DigitChar(d: nat): char
    requires d < 10
  {
    ('0' as int + d) as char
  }

  /** The decimal rendering of a non-negative integer, as `str()`, `utostr`
      and stream insertion print it. */
  function ShowNat(n: nat): (r: string)
    ensures |r| > 0
    ensures forall i :: 0 <= i < |r| ==> IsDigit(r[i])
    ensures n < 10 <==> |r| == 1
  {
    if n < 10 then [DigitChar(n)] else ShowNat(n / 10) + [DigitChar(n % 10)]
  }

  /** Distinct numbers print differently, so a printed number names its value. */
  lemma {:induction false} ShowNatInjective(n: nat, m: nat)
    requires ShowNat(n) == ShowNat(m)
    ensures n == m
    decreases n
  {
    if n >= 10 {
      var a := ShowNat(n);
      assert m >= 10;
      assert a[..|a| - 1] == ShowNat(n / 10) && a[..|a| - 1] == ShowNat(m / 10);
      ShowNatInjective(n / 10, m / 10);
      assert a[|a| - 1] == DigitChar(n % 10) == DigitChar(m % 10);
    }
  }

  /** The sequences of `xss` one after another. */
  function Flatten<T>(xss: seq<seq<T>>): seq<T>
    decreases |xss|
  {
    if |xss| == 0 then [] else xss[0] + Flatten(xss[1..])
  }

  lemma {:induction false} FlattenAppend<T>(a: seq<seq<T>>, b: seq<seq<T>>)
    ensures Flatten(a + b) == Flatten(a) + Flatten(b)
    decreases |a|
  {
    if |a| > 0 {
      FlattenAppend(a[1..], b);
      assert (a + b)[1..] == a[1..] + b;
    } else {
      assert a + b == b;
    }
  }

  /** Where `xss[i]` starts in `Flatten(xss)`: the total length of the
      sequences before it. */
  function Start<T>(xss: seq<seq<T>>, i: nat): nat
    requires i <= |xss|
  {
    |Flatten(xss[..i])|
  }

  /** Position `k` of `xss[i]` is position `Start(xss, i) + k` of the
      flattened sequence. */
  lemma FlattenPlaces<T>(xss: seq<seq<T>>, i: nat, k: nat)
    requires i < |xss| && k < |xss[i]|
    ensures Start(xss, i) + k < |Flatten(xss)|
    ensures Flatten(xss)[Start(xss, i) + k] == xss[i][k]
  {
    assert xss == xss[..i] + xss[i..];
    FlattenAppend(xss[..i], xss[i..]);
    assert xss[i..][1..] == xss[i + 1..];
  }
}
