/** The text parsers the hardware discovery applies to sysfs and procfs
    files (`SimpleParser` and `CacheVisitor::ParseKind`), modelled over
    the file's contents. Numbers are read with LLVM 3.0's
    `StringRef::getAsInteger` with radix 0: the radix is sensed from the
    prefix (`0x` hexadecimal, `0b` binary, a leading `0` octal, otherwise
    decimal), digits are accumulated left to right in 64 bits, and an
    accumulation that comes out smaller than the previous one is taken as
    overflow. Each parser returns `None` where the source returns
    `false`. */
module SimpleParser {
  import opened Results
  import opened Text

  const Pow64: nat := 0x1_0000_0000_0000_0000
  const Pow32: nat := 0x1_0000_0000

  /** `std::isspace` in the C locale. */
  predicate IsSpace(c: char) {
    c == ' ' || c == '\t' || c == '\n' || c == 11 as char || c == 12 as char || c == '\r'
  }

  /** The value of a character as a digit in any radix up to 36. */
  function CharVal(c: char): Option<nat> {
    if '0' <= c <= '9' then Some(c as nat - '0' as nat)
    else if 'a' <= c <= 'z' then Some(c as nat - 'a' as nat + 10)
    else if 'A' <= c <= 'Z' then Some(c as nat - 'A' as nat + 10)
    else None
  }

  /** The radix sensed from the prefix and the digits that follow it. */
  function SenseRadix(s: string): (nat, string) {
    if |s| >= 2 && s[..2] == "0x" then (16, s[2..])
    else if |s| >= 2 && s[..2] == "0b" then (2, s[2..])
    else if |s| >= 1 && s[0] == '0' then (8, s)
    else (10, s)
  }

  /** The left-to-right accumulation of `digits` in 64 bits, failing on a
      character that is not a digit of the radix and on a step that comes
      out smaller than the one before it. */
  function Accumulate(digits: string, radix: nat): Option<nat>
    decreases |digits|
  {
    if |digits| == 0 then Some(0)
    else match Accumulate(digits[..|digits| - 1], radix)
      case None => None
      case Some(prev) => Step(prev, radix, digits[|digits| - 1])
  }

  /** One digit more: the new value in 64 bits, or `None` when the
      character is not a digit of the radix or the value came out smaller. */
  function Step(prev: nat, radix: nat, c: char): Option<nat> {
    match CharVal(c)
    case None => None
    case Some(d) =>
      if d >= radix then None
      else
        var next := (prev * radix + d) % Pow64;
        if next < prev then None else Some(next)
  }

  /** A decimal step that stays below 2^64 appends the digit. */
  lemma StepDecimal(n: nat)
    requires n < Pow64
    ensures Step(n / 10, 10, DigitChar(n % 10)) == Some(n)
  {
    assert CharVal(DigitChar(n % 10)) == Some(n % 10);
    var next := n / 10 * 10 + n % 10;
    assert next == n;
    assert next % Pow64 == n;
  }

  /** `getAsInteger(0, x)` into an integer type whose values are below
      `limit` (2^64 for `unsigned long long`, 2^32 for `unsigned`). */
  function GetAsInteger(s: string, limit: nat): (r: Option<nat>)
    ensures r.Some? ==> r.value < limit && r.value < Pow64
  {
    var (radix, digits) := SenseRadix(s);
    if |digits| == 0 then None
    else match Accumulate(digits, radix)
      case None => None
      case Some(v) => if v >= limit || v >= Pow64 then None else Some(v)
  }

  /** Accumulation stays below 2^64. */
  lemma {:induction false} AccumulateBounded(digits: string, radix: nat)
    ensures Accumulate(digits, radix).Some? ==> Accumulate(digits, radix).value < Pow64
    decreases |digits|
  {
    if |digits| > 0 {
      AccumulateBounded(digits[..|digits| - 1], radix);
    }
  }

  /** A decimal rendering with no leading zero starts with a non-zero
      digit. */
  lemma {:induction false} ShowNatLeads(n: nat)
    requires n > 0
    ensures ShowNat(n)[0] != '0'
    decreases n
  {
    if n >= 10 {
      ShowNatLeads(n / 10);
    }
  }

  /** Decimal digits accumulate to the number they render. */
  lemma {:induction false} AccumulateShowNat(n: nat, radix: nat)
    requires n < Pow64 && radix == 10
    ensures Accumulate(ShowNat(n), radix) == Some(n)
    decreases n
  {
    var s := ShowNat(n);
    if n >= 10 {
      assert s[..|s| - 1] == ShowNat(n / 10);
      AccumulateShowNat(n / 10, radix);
      StepDecimal(n);
    } else {
      assert s[..0] == [];
      StepDecimal(n);
    }
  }

  /** A number printed in decimal reads back as itself: zero through the
      octal branch, every other number as decimal. */
  lemma GetAsIntegerShowNat(n: nat, limit: nat)
    requires n < limit && n < Pow64
    ensures GetAsInteger(ShowNat(n), limit) == Some(n)
  {
    if n == 0 {
      ZeroReads(limit);
    } else {
      PositiveReads(n, limit);
    }
  }

  lemma ZeroReads(limit: nat)
    requires 0 < limit
    ensures GetAsInteger(ShowNat(0), limit) == Some(0)
  {
    var s := ShowNat(0);
    assert s == "0" && SenseRadix(s) == (8, s);
    assert Accumulate("0", 8) == Some(0) by {
      assert "0"[..0] == [];
      assert Step(0, 8, '0') == Some(0);
    }
  }

  lemma PositiveReads(n: nat, limit: nat)
    requires 0 < n < limit && n < Pow64
    ensures GetAsInteger(ShowNat(n), limit) == Some(n)
  {
    var s := ShowNat(n);
    ShowNatLeads(n);
    assert SenseRadix(s) == (10, s);
    AccumulateShowNat(n, 10);
  }

  /** A leading zero selects octal, so `08` is refused and `010` is
      eight. */
  lemma LeadingZeroIsOctal()
    ensures GetAsInteger("08", Pow64) == None
    ensures GetAsInteger("010", Pow64) == Some(8)
  {
    OctalEight();
    OctalRefusesEight();
  }

  lemma OctalEight()
    ensures GetAsInteger("010", Pow64) == Some(8)
  {
    var s := "010";
    assert s[..2] == "01" && s[..2][..1] == "0" && s[..2][..1][..0] == [];
    assert SenseRadix(s) == (8, s);
    assert Accumulate("0", 8) == Some(0);
    assert Accumulate("01", 8) == Some(1);
    assert Accumulate(s, 8) == Some(8);
  }

  lemma OctalRefusesEight()
    ensures GetAsInteger("08", Pow64) == None
  {
    var s := "08";
    assert s[..2] == s && s[1] == '8' && s[1] != 'x' && s[1] != 'b';
    assert SenseRadix(s) == (8, s);
    assert s[..1] == "0" && s[..1][..0] == [];
    assert Accumulate("0", 8) == Some(0);
    assert CharVal('8') == Some(8);
    assert Step(0, 8, '8') == None;
    assert Accumulate(s, 8) == None;
  }

  // ---------------------------------------------------------------------
  // TrimSpaces

  /** The first position from `i` that is not a space. */
  function SkipSpaces(s: string, i: nat): (k: nat)
    requires i <= |s|
    ensures i <= k <= |s| && (k < |s| ==> !IsSpace(s[k]))
    ensures forall j :: i <= j < k ==> IsSpace(s[j])
    decreases |s| - i
  {
    if i == |s| || !IsSpace(s[i]) then i else SkipSpaces(s, i + 1)
  }

  /** The end of `s[..j]` once its trailing spaces are dropped. */
  function TrailingStart(s: string, j: nat): (k: nat)
    requires j <= |s|
    ensures k <= j && (k > 0 ==> !IsSpace(s[k - 1]))
    ensures forall m :: k <= m < j ==> IsSpace(s[m])
    decreases j
  {
    if j == 0 || !IsSpace(s[j - 1]) then j else TrailingStart(s, j - 1)
  }

  /** `TrimSpaces`: the slice between the leading and the trailing
      spaces; `StringRef::slice` makes it empty when the string is all
      spaces. */
  function TrimSpaces(s: string): (r: string)
    ensures |r| == 0 || (!IsSpace(r[0]) && !IsSpace(r[|r| - 1]))
    ensures exists a, b :: (0 <= a <= b <= |s| && r == s[a..b]
      && (forall j :: 0 <= j < a ==> IsSpace(s[j])) && (forall j :: b <= j < |s| ==> IsSpace(s[j])))
  {
    var i := SkipSpaces(s, 0);
    var j := TrailingStart(s, |s|);
    if i <= j then s[i..j]
    else
      assert forall m :: 0 <= m < |s| ==> IsSpace(s[m]);
      s[|s|..|s|]
  }

  /** Trimming twice trims nothing more. */
  lemma TrimIdempotent(s: string)
    ensures TrimSpaces(TrimSpaces(s)) == TrimSpaces(s)
  {
    var t := TrimSpaces(s);
    if |t| > 0 {
      assert SkipSpaces(t, 0) == 0;
      assert TrailingStart(t, |t|) == |t|;
      assert t[0..|t|] == t;
    }
  }

  /** A string with no space at either end is its own trim. */
  lemma TrimTrimmed(s: string)
    requires |s| == 0 || (!IsSpace(s[0]) && !IsSpace(s[|s| - 1]))
    ensures TrimSpaces(s) == s
  {
    if |s| > 0 {
      assert SkipSpaces(s, 0) == 0 && TrailingStart(s, |s|) == |s|;
      assert s[0..|s|] == s;
    }
  }

  // ---------------------------------------------------------------------
  // ParseSize

  /** The end of the run of decimal digits starting at `i`. */
  function DigitsEnd(s: string, i: nat): (k: nat)
    requires i <= |s|
    ensures i <= k <= |s| && (k < |s| ==> !IsDigit(s[k]))
    ensures forall j :: i <= j < k ==> IsDigit(s[j])
    decreases |s| - i
  {
    if i == |s| || !IsDigit(s[i]) then i else DigitsEnd(s, i + 1)
  }

  /** The multiplier a unit names: `K` and `kB` are kibibytes, anything
      else is zero. */
  function Multiplier(unit: string): nat {
    if unit == "K" || unit == "kB" then 1024 else 0
  }

  /** `ParseSize`: the leading digits of the trimmed text, then, past any
      spaces, the unit. */
  function ParseSize(text: string): (r: Option<nat>)
    ensures r.Some? ==> 0 < r.value < Pow64
  {
    var str := TrimSpaces(text);
    var i := DigitsEnd(str, 0);
    var j := SkipSpaces(str, i);
    SizeOf(str[..i], str[j..])
  }

  /** The size the digits and the unit give: the product is a `size_t`
      and a zero product fails. */
  function SizeOf(raw: string, unit: string): (r: Option<nat>)
    ensures r.Some? ==> 0 < r.value < Pow64
  {
    match GetAsInteger(raw, Pow64)
    case None => None
    case Some(v) =>
      var size := if Multiplier(unit) == 0 then 0 else WrapKiB(v);
      if size == 0 then None else Some(size)
  }

  /** A count of kibibytes in bytes, as a 64-bit `size_t`. */
  function WrapKiB(v: nat): (r: nat)
    ensures r < Pow64
  {
    (v * 1024) % Pow64
  }

  /** A trimmed text made of digits, spaces and a unit splits there. */
  lemma ParseSizeParts(d: string, gap: string, unit: string)
    requires |d| > 0 && forall m :: 0 <= m < |d| ==> IsDigit(d[m])
    requires forall m :: 0 <= m < |gap| ==> IsSpace(gap[m])
    requires |unit| > 0 && !IsSpace(unit[0]) && !IsDigit(unit[0]) && !IsSpace(unit[|unit| - 1])
    ensures ParseSize(d + gap + unit) == SizeOf(d, unit)
  {
    var s := d + gap + unit;
    TrimTrimmed(s);
    DigitsEndAt(s, 0, |d|);
    SkipSpacesAt(s, |d|, |d| + |gap|);
    assert s[..|d|] == d && s[|d| + |gap|..] == unit;
  }

  /** A count of kibibytes that fits reads back in bytes. */
  lemma SizeOfKiB(n: nat, unit: string)
    requires 0 < n && n * 1024 < Pow64 && (unit == "kB" || unit == "K")
    ensures SizeOf(ShowNat(n), unit) == Some(n * 1024)
  {
    GetAsIntegerShowNat(n, Pow64);
    assert Multiplier(unit) == 1024;
    assert WrapKiB(n) == n * 1024;
  }

  /** A size written as procfs writes it reads back in bytes. */
  lemma ParseSizeKiB(n: nat)
    requires 0 < n && n * 1024 < Pow64
    ensures ParseSize(ShowNat(n) + " kB") == Some(n * 1024)
    ensures ParseSize(ShowNat(n) + "K") == Some(n * 1024)
  {
    KiBSpaced(n);
    KiBShort(n);
  }

  lemma KiBSpaced(n: nat)
    requires 0 < n && n * 1024 < Pow64
    ensures ParseSize(ShowNat(n) + " kB") == Some(n * 1024)
  {
    var d := ShowNat(n);
    assert d + " kB" == d + " " + "kB";
    KiBReads(n, " ", "kB", d + " kB");
  }

  lemma KiBShort(n: nat)
    requires 0 < n && n * 1024 < Pow64
    ensures ParseSize(ShowNat(n) + "K") == Some(n * 1024)
  {
    var d := ShowNat(n);
    assert d + "K" == d + "" + "K";
    KiBReads(n, "", "K", d + "K");
  }

  lemma KiBReads(n: nat, gap: string, unit: string, s: string)
    requires 0 < n && n * 1024 < Pow64
    requires (gap == " " && unit == "kB") || (gap == "" && unit == "K")
    requires s == ShowNat(n) + gap + unit
    ensures ParseSize(s) == Some(n * 1024)
  {
    UnitShape(unit);
    assert forall m :: 0 <= m < |gap| ==> IsSpace(gap[m]);
    ParseSizeParts(ShowNat(n), gap, unit);
    SizeOfKiB(n, unit);
  }

  lemma UnitShape(unit: string)
    requires unit == "kB" || unit == "K"
    ensures |unit| > 0 && !IsSpace(unit[0]) && !IsDigit(unit[0]) && !IsSpace(unit[|unit| - 1])
  {
  }

  lemma {:induction false} SkipSpacesAt(s: string, i: nat, k: nat)
    requires i <= k <= |s|
    requires forall j :: i <= j < k ==> IsSpace(s[j])
    requires k < |s| ==> !IsSpace(s[k])
    ensures SkipSpaces(s, i) == k
    decreases k - i
  {
    if i < k {
      SkipSpacesAt(s, i + 1, k);
    }
  }

  lemma {:induction false} DigitsEndAt(s: string, i: nat, k: nat)
    requires i <= k <= |s|
    requires forall j :: i <= j < k ==> IsDigit(s[j])
    requires k < |s| ==> !IsDigit(s[k])
    ensures DigitsEnd(s, i) == k
    decreases k - i
  {
    if i < k {
      DigitsEndAt(s, i + 1, k);
    }
  }

  /** A unit not recognised makes the size fail. */
  lemma ParseSizeNeedsUnit(n: nat)
    ensures ParseSize(ShowNat(n) + " MB") == None
  {
    var d := ShowNat(n);
    assert d + " MB" == d + " " + "MB";
    MegabytesRefused(n, d + " MB");
  }

  lemma MegabytesRefused(n: nat, s: string)
    requires s == ShowNat(n) + " " + "MB"
    ensures ParseSize(s) == None
  {
    var unit := "MB";
    assert !IsSpace(unit[0]) && !IsDigit(unit[0]) && !IsSpace(unit[|unit| - 1]);
    assert IsSpace(" "[0]);
    ParseSizeParts(ShowNat(n), " ", unit);
    assert Multiplier(unit) == 0;
  }

  // ---------------------------------------------------------------------
  // ParseList

  /** The `ParseList` loop from position `i`, with the current element
      starting at `j`: digits continue the element, `,` and `\n` end it,
      anything else fails; an element equal to `discard` is dropped, and
      digits after the last separator are ignored. Elements are `unsigned`
      values. */
  function ListFrom(buf: string, i: nat, j: nat, discard: nat): Option<seq<nat>>
    requires j <= i <= |buf|
    decreases |buf| - i
  {
    if i == |buf| then Some([])
    else if IsDigit(buf[i]) then ListFrom(buf, i + 1, j, discard)
    else if buf[i] != ',' && buf[i] != '\n' then None
    else match GetAsInteger(buf[j..i], Pow32)
      case None => None
      case Some(v) =>
        match ListFrom(buf, i + 1, i + 1, discard)
        case None => None
        case Some(rest) => Some(if v != discard then [v] + rest else rest)
  }

  /** `ParseList` with the default poison value, the largest `unsigned`. */
  function ParseList(buf: string): Option<seq<nat>> {
    ListFrom(buf, 0, 0, Pow32 - 1)
  }

  /** A list as sysfs writes it: decimal elements joined by `,`, ended by
      a newline. */
  function RenderList(nums: seq<nat>): (r: string)
    requires |nums| > 0
    decreases |nums|
  {
    ShowNat(nums[0]) + (if |nums| == 1 then "\n" else "," + RenderList(nums[1..]))
  }

  /** The elements other than the poison value, in order. */
  function Keep(nums: seq<nat>, discard: nat): seq<nat> {
    if |nums| == 0 then [] else (if nums[0] != discard then [nums[0]] else []) + Keep(nums[1..], discard)
  }

  /** Digits only move the loop forward. */
  lemma {:induction false} ListSkipsDigits(buf: string, i: nat, j: nat, k: nat, discard: nat)
    requires j <= i <= k <= |buf|
    requires forall m :: i <= m < k ==> IsDigit(buf[m])
    ensures ListFrom(buf, i, j, discard) == ListFrom(buf, k, j, discard)
    decreases k - i
  {
    if i < k {
      ListSkipsDigits(buf, i + 1, j, k, discard);
    }
  }

  /** One element and its separator: the loop reads the element and
      carries on after the separator. */
  lemma ListElement(buf: string, i: nat, k: nat, n: nat, discard: nat, rest: seq<nat>)
    requires i <= k < |buf| && n < Pow32 && buf[i..k] == ShowNat(n) && (buf[k] == ',' || buf[k] == '\n')
    requires ListFrom(buf, k + 1, k + 1, discard) == Some(rest)
    ensures ListFrom(buf, i, i, discard) == Some(if n != discard then [n] + rest else rest)
  {
    assert forall m :: i <= m < k ==> buf[m] == ShowNat(n)[m - i];
    ListSkipsDigits(buf, i, i, k, discard);
    GetAsIntegerShowNat(n, Pow32);
  }

  /** A rendered list reads back as its elements, less the poison
      value, wherever it sits in the buffer. */
  lemma {:induction false} ListRoundTrip(buf: string, i: nat, nums: seq<nat>, discard: nat)
    requires |nums| > 0 && forall m :: 0 <= m < |nums| ==> nums[m] < Pow32
    requires i <= |buf| && buf[i..] == RenderList(nums)
    ensures ListFrom(buf, i, i, discard) == Some(Keep(nums, discard))
    decreases |nums|
  {
    var k := ListLayout(buf, i, nums);
    var rest := Keep(nums[1..], discard);
    if |nums| == 1 {
      assert k + 1 == |buf| && rest == [];
      assert ListFrom(buf, k + 1, k + 1, discard) == Some(rest);
    } else {
      ListRoundTrip(buf, k + 1, nums[1..], discard);
    }
    ListElement(buf, i, k, nums[0], discard, rest);
    assert Keep(nums, discard) == (if nums[0] != discard then [nums[0]] else []) + rest;
    if nums[0] == discard {
      assert [] + rest == rest;
    }
  }

  /** A rendered list from `i`: the first number's digits, then its
      separator, then the rest of the list. */
  lemma ListLayout(buf: string, i: nat, nums: seq<nat>) returns (k: nat)
    requires |nums| > 0 && i <= |buf| && buf[i..] == RenderList(nums)
    ensures k == i + |ShowNat(nums[0])| && k < |buf|
    ensures buf[i..k] == ShowNat(nums[0]) && buf[k] == (if |nums| == 1 then '\n' else ',')
    ensures buf[k + 1..] == if |nums| == 1 then "" else RenderList(nums[1..])
  {
    var d := ShowNat(nums[0]);
    k := i + |d|;
    var tail := if |nums| == 1 then "" else RenderList(nums[1..]);
    assert buf[i..] == d + [if |nums| == 1 then '\n' else ','] + tail;
    assert buf[i..k] == d && k < |buf| && buf[k] == (if |nums| == 1 then '\n' else ',');
    assert buf[k + 1..] == tail;
  }

  /** What sysfs writes for a list is what `ParseList` reads. */
  lemma ParseListRoundTrip(nums: seq<nat>)
    requires |nums| > 0 && forall m :: 0 <= m < |nums| ==> nums[m] < Pow32
    ensures ParseList(RenderList(nums)) == Some(Keep(nums, Pow32 - 1))
  {
    var buf := RenderList(nums);
    assert buf[0..] == buf;
    ListRoundTrip(buf, 0, nums, Pow32 - 1);
  }

  /** A range such as `0-3` is not a list: `-` fails the parse. */
  lemma ParseListRefusesRange()
    ensures ParseList("0-3\n") == None
  {
    assert IsDigit("0-3\n"[0]) && !IsDigit("0-3\n"[1]);
  }

  // ---------------------------------------------------------------------
  // ParseNumber

  /** The `ParseNumber` loop from position `i`: at each newline the text
      from the start of the buffer up to it is read and truncated to the
      target type (values below `modulus`); `last` is the value assigned
      so far. The start of the number never moves past a newline, so a
      second line makes the read fail. */
  function NumberFrom(buf: string, i: nat, modulus: nat, last: Option<nat>): Option<Option<nat>>
    requires i <= |buf| && modulus > 0
    decreases |buf| - i
  {
    if i == |buf| then Some(last)
    else if IsDigit(buf[i]) then NumberFrom(buf, i + 1, modulus, last)
    else if buf[i] != '\n' then None
    else match GetAsInteger(buf[..i], Pow64)
      case None => None
      case Some(v) => NumberFrom(buf, i + 1, modulus, Some(v % modulus))
  }

  /** `ParseNumber`: `None` for `false`, otherwise the value assigned, if
      any. */
  function ParseNumber(buf: string, modulus: nat): Option<Option<nat>>
    requires modulus > 0
  {
    NumberFrom(buf, 0, modulus, None)
  }

  lemma {:induction false} NumberSkipsDigits(buf: string, i: nat, k: nat, modulus: nat, last: Option<nat>)
    requires i <= k <= |buf| && modulus > 0
    requires forall m :: i <= m < k ==> IsDigit(buf[m])
    ensures NumberFrom(buf, i, modulus, last) == NumberFrom(buf, k, modulus, last)
    decreases k - i
  {
    if i < k {
      NumberSkipsDigits(buf, i + 1, k, modulus, last);
    }
  }

  /** A number on its own line reads back, truncated to the target type;
      without the newline the parse succeeds but assigns nothing. */
  lemma ParseNumberRoundTrip(n: nat, modulus: nat)
    requires n < Pow64 && modulus > 0
    ensures ParseNumber(ShowNat(n) + "\n", modulus) == Some(Some(n % modulus))
    ensures ParseNumber(ShowNat(n), modulus) == Some(None)
  {
    var d := ShowNat(n);
    var buf := d + "\n";
    NumberSkipsDigits(buf, 0, |d|, modulus, None);
    assert buf[..|d|] == d;
    GetAsIntegerShowNat(n, Pow64);
    NumberSkipsDigits(d, 0, |d|, modulus, None);
  }

  /** Two lines are refused: the second read spans the first newline. */
  lemma ParseNumberOneLine(n: nat, m: nat, modulus: nat)
    requires modulus > 0
    ensures ParseNumber(ShowNat(n) + "\n" + ShowNat(m) + "\n", modulus) == None
  {
    var a := ShowNat(n);
    var b := ShowNat(m);
    var buf := a + "\n" + b + "\n";
    var k := |a| + 1 + |b|;
    NumberSkipsDigits(buf, 0, |a|, modulus, None);
    assert buf[..|a|] == a;
    var first := GetAsInteger(a, Pow64);
    if first.Some? {
      NumberSkipsDigits(buf, |a| + 1, k, modulus, Some(first.value % modulus));
      assert buf[k] == '\n';
      var pre := buf[..k];
      assert pre[|a|] == '\n';
      NoNewlineInNumber(pre, |a|);
    }
  }

  /** Text holding a newline is never a number. */
  lemma NoNewlineInNumber(s: string, p: nat)
    requires p < |s| && s[p] == '\n'
    ensures GetAsInteger(s, Pow64) == None
  {
    var (radix, digits) := SenseRadix(s);
    var q := if |digits| == |s| then p else p - 2;
    assert digits[q] == '\n';
    AccumulateFailsOn(digits, radix, q);
  }

  /** A character that is not a digit of any radix makes the accumulation
      fail. */
  lemma {:induction false} AccumulateFailsOn(digits: string, radix: nat, q: nat)
    requires q < |digits| && CharVal(digits[q]).None?
    ensures Accumulate(digits, radix) == None
    decreases |digits|
  {
    if q < |digits| - 1 {
      var pre := digits[..|digits| - 1];
      assert pre[q] == digits[q];
      AccumulateFailsOn(pre, radix, q);
    }
  }

  // ---------------------------------------------------------------------
  // ParseKeyValue

  /** `StringRef::split(c)`: the text before the first `c` and the text
      after it, or the whole text and nothing. */
  function Split(s: string, c: char): (r: (string, string))
    ensures (exists k :: 0 <= k < |s| && s[k] == c) ==> |r.0| < |s| && s == r.0 + [c] + r.1
    ensures (forall k :: 0 <= k < |s| ==> s[k] != c) ==> r == (s, "")
    ensures forall k :: 0 <= k < |r.0| ==> r.0[k] != c
    decreases |s|
  {
    if |s| == 0 then ("", "")
    else if s[0] == c then ("", s[1..])
    else
      var rest := Split(s[1..], c);
      SplitCons(s, c, rest);
      ([s[0]] + rest.0, rest.1)
  }

  /** Putting back a first character that is not the separator. */
  lemma SplitCons(s: string, c: char, rest: (string, string))
    requires |s| > 0 && s[0] != c
    requires (exists k :: 0 <= k < |s| - 1 && s[1..][k] == c) ==> |rest.0| < |s| - 1 && s[1..] == rest.0 + [c] + rest.1
    requires (forall k :: 0 <= k < |s| - 1 ==> s[1..][k] != c) ==> rest == (s[1..], "")
    requires forall k :: 0 <= k < |rest.0| ==> rest.0[k] != c
    ensures var r := ([s[0]] + rest.0, rest.1);
      && ((exists k :: 0 <= k < |s| && s[k] == c) ==> |r.0| < |s| && s == r.0 + [c] + r.1)
      && ((forall k :: 0 <= k < |s| ==> s[k] != c) ==> r == (s, ""))
      && (forall k :: 0 <= k < |r.0| ==> r.0[k] != c)
  {
    assert s == [s[0]] + s[1..];
    assert (forall k :: 0 <= k < |s| ==> s[k] != c) ==> forall k :: 0 <= k < |s| - 1 ==> s[1..][k] != c;
    assert (exists k :: 0 <= k < |s| && s[k] == c) ==> exists k :: 0 <= k < |s| - 1 && s[1..][k] == c;
  }

  /** The `ParseKeyValue` loop over the current line and the rest of the
      buffer: it stops at the first empty line; each line splits at its
      first `:`, both halves are trimmed and must not be empty, and a later
      key overwrites an earlier one. */
  function KeyValueFrom(cur: string, next: string, entries: map<string, string>): Option<map<string, string>>
    decreases |next|, |cur|
  {
    if |cur| == 0 then Some(entries)
    else
      var entry := Split(cur, ':');
      var key := TrimSpaces(entry.0);
      var value := TrimSpaces(entry.1);
      if |key| == 0 || |value| == 0 then None
      else
        var lines := Split(next, '\n');
        if |lines.1| < |next| then KeyValueFrom(lines.0, lines.1, entries[key := value])
        else
          assert next == lines.0 && lines.1 == "";
          KeyValueFrom(lines.0, "", entries[key := value])
  }

  /** `ParseKeyValue` over the contents of a file. */
  function ParseKeyValue(buf: string): Option<map<string, string>> {
    var lines := Split(buf, '\n');
    KeyValueFrom(lines.0, lines.1, map[])
  }

  /** An entry as procfs writes it: key, colon, a space, value. */
  predicate PlainField(s: string) {
    && |s| > 0 && !IsSpace(s[0]) && !IsSpace(s[|s| - 1])
    && forall k :: 0 <= k < |s| ==> s[k] != ':' && s[k] != '\n'
  }

  function RenderEntries(es: seq<(string, string)>): string
    decreases |es|
  {
    if |es| == 0 then "" else es[0].0 + ": " + es[0].1 + "\n" + RenderEntries(es[1..])
  }

  /** The map the entries give, a later key overwriting an earlier one. */
  function Gather(entries: map<string, string>, es: seq<(string, string)>): map<string, string>
    decreases |es|
  {
    if |es| == 0 then entries else Gather(entries[es[0].0 := es[0].1], es[1..])
  }

  /** One rendered line is the text before the first newline. */
  lemma LineSplits(k: string, v: string, rest: string)
    requires PlainField(k) && PlainField(v)
    ensures Split(k + ": " + v + "\n" + rest, '\n') == (k + ": " + v, rest)
  {
    var line := k + ": " + v;
    var s := line + "\n" + rest;
    assert forall m :: 0 <= m < |line| ==> s[m] == line[m];
    assert forall m :: 0 <= m < |line| ==> line[m] != '\n';
    SplitAt(s, '\n', |line|);
    assert s[..|line|] == line && s[|line| + 1..] == rest;
  }

  /** A rendered line splits at its colon into the key and the spaced
      value, which trim to themselves. */
  lemma EntrySplits(k: string, v: string)
    requires PlainField(k) && PlainField(v)
    ensures Split(k + ": " + v, ':') == (k, " " + v)
    ensures TrimSpaces(k) == k && TrimSpaces(" " + v) == v
  {
    EntryLineSplits(k, v);
    TrimTrimmed(k);
    SpacedTrim(v);
  }

  lemma EntryLineSplits(k: string, v: string)
    requires forall m :: 0 <= m < |k| ==> k[m] != ':'
    ensures Split(k + ": " + v, ':') == (k, " " + v)
  {
    var line := k + ": " + v;
    assert line == k + [':'] + (" " + v);
    assert forall m :: 0 <= m < |k| ==> line[m] == k[m];
    SplitAt(line, ':', |k|);
    assert line[..|k|] == k && line[|k| + 1..] == " " + v;
  }

  lemma SpacedTrim(v: string)
    requires PlainField(v)
    ensures TrimSpaces(" " + v) == v
  {
    var sv := " " + v;
    SkipSpacesAt(sv, 0, 1);
    assert TrailingStart(sv, |sv|) == |sv|;
    assert sv[1..|sv|] == v;
  }

  /** Splitting at the first occurrence. */
  lemma SplitAt(s: string, c: char, p: nat)
    requires p < |s| && s[p] == c && forall m :: 0 <= m < p ==> s[m] != c
    ensures Split(s, c) == (s[..p], s[p + 1..])
  {
    var r := Split(s, c);
    assert s == r.0 + [c] + r.1;
    assert s[|r.0|] == c;
    assert |r.0| == p;
    assert (r.0 + [c] + r.1)[..|r.0|] == r.0;
  }

  /** Rendered entries, then an empty line or the end of the file, read
      back as the map they describe. */
  lemma {:induction false} KeyValueRoundTrip(es: seq<(string, string)>, rest: string, entries: map<string, string>)
    requires forall m :: 0 <= m < |es| ==> PlainField(es[m].0) && PlainField(es[m].1)
    ensures var lines := Split(RenderEntries(es) + "\n" + rest, '\n');
      KeyValueFrom(lines.0, lines.1, entries) == Some(Gather(entries, es))
    decreases |es|
  {
    var buf := RenderEntries(es) + "\n" + rest;
    if |es| == 0 {
      assert buf == "\n" + rest;
      SplitAt(buf, '\n', 0);
    } else {
      var (k, v) := es[0];
      var tail := RenderEntries(es[1..]) + "\n" + rest;
      assert buf == k + ": " + v + "\n" + tail;
      LineSplits(k, v, tail);
      EntrySplits(k, v);
      var next := Split(tail, '\n');
      KeyValueRoundTrip(es[1..], rest, entries[k := v]);
      KeyValueStep(k + ": " + v, tail, entries, k, v);
    }
  }

  /** One step of the loop over a well-formed line. */
  lemma KeyValueStep(cur: string, next: string, entries: map<string, string>, k: string, v: string)
    requires |cur| > 0 && Split(cur, ':') == (k, " " + v)
    requires TrimSpaces(k) == k && TrimSpaces(" " + v) == v && |k| > 0 && |v| > 0
    ensures var lines := Split(next, '\n');
      KeyValueFrom(cur, next, entries) == KeyValueFrom(lines.0, lines.1, entries[k := v])
  {
  }

  /** What procfs writes for a key/value file is what `ParseKeyValue`
      reads. */
  lemma ParseKeyValueRoundTrip(es: seq<(string, string)>)
    requires forall m :: 0 <= m < |es| ==> PlainField(es[m].0) && PlainField(es[m].1)
    ensures ParseKeyValue(RenderEntries(es) + "\n") == Some(Gather(map[], es))
  {
    assert RenderEntries(es) + "\n" + "" == RenderEntries(es) + "\n";
    KeyValueRoundTrip(es, "", map[]);
  }

  /** A line with no colon has an empty value and fails the parse. */
  lemma KeyWithoutValueFails(k: string)
    requires PlainField(k)
    ensures ParseKeyValue(k + "\n") == None
  {
    assert forall m :: 0 <= m < |k| ==> k[m] != '\n';
    SplitAt(k + "\n", '\n', |k|);
    assert (k + "\n")[..|k|] == k;
    assert Split(k, ':') == (k, "");
  }

  // ---------------------------------------------------------------------
  // CacheVisitor::ParseKind

  datatype CacheKind = Instruction | Data | Unified

  /** `ParseKind`: the file less its final byte names the kind. An empty
      file would be read one byte before its start, so it is excluded. */
  function ParseKind(buf: string): (r: Option<CacheKind>)
    requires |buf| > 0
    ensures r == Some(Instruction) <==> buf[..|buf| - 1] == "Instruction"
    ensures r == Some(Data) <==> buf[..|buf| - 1] == "Data"
    ensures r == Some(Unified) <==> buf[..|buf| - 1] == "Unified"
  {
    var raw := buf[..|buf| - 1];
    if raw == "Instruction" then Some(Instruction)
    else if raw == "Data" then Some(Data)
    else if raw == "Unified" then Some(Unified)
    else None
  }

  /** The name a kind is written with. */
  function KindName(k: CacheKind): string {
    match k
    case Instruction => "Instruction"
    case Data => "Data"
    case Unified => "Unified"
  }

  /** Whatever the final byte is, a kind's name reads back as that kind. */
  lemma ParseKindRoundTrip(k: CacheKind, last: char)
    ensures ParseKind(KindName(k) + [last]) == Some(k)
  {
    assert (KindName(k) + [last])[..|KindName(k)|] == KindName(k);
  }
}
