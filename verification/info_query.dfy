/** The `param_value_size` protocol shared by the `clGet*Info` calls
    (section 4 of the OpenCL 1.1 specification): the size the value needs
    is always reported when the caller asks for it; the value is written
    only into a destination that is large enough; without a destination
    the call only reports the size. The value arrives already converted to
    the parameter type; its size in bytes is a parameter of each overload
    (`sizeof` of the parameter type on the host). */
module InfoQuery {
  import opened Results
  import opened ClCodes

  /** `sizeof(size_t)` on a 64-bit host. */
  const SizeTBytes: nat := 8

  /** What a fill reports: the status code, the size stored through
      `param_value_size_ret` (when the caller passed that pointer), and
      the elements written into the destination (when anything was). */
  datatype Filled<T> = Filled(code: int, sizeRet: Option<nat>, written: Option<seq<T>>)

  /** The common tail of every overload: `size` is what the value needs,
      `content` what would be written. */
  function Fill<T>(hasDst: bool, dstSize: nat, wantsSize: bool, size: nat, content: seq<T>): (r: Filled<T>)
    ensures r.sizeRet == (if wantsSize then Some(size) else None)
    ensures r.code == CL_SUCCESS <==> !hasDst || dstSize >= size
    ensures r.code != CL_SUCCESS ==> r.code == CL_INVALID_VALUE
    ensures r.written.Some? <==> hasDst && dstSize >= size
    ensures r.written.Some? ==> r.written.value == content
  {
    var sizeRet := if wantsSize then Some(size) else None;
    if !hasDst then Filled(CL_SUCCESS, sizeRet, None)
    else if dstSize < size then Filled(CL_INVALID_VALUE, sizeRet, None)
    else Filled(CL_SUCCESS, sizeRet, Some(content))
  }

  /** `clFillValue(Dst, Src, ...)` for a single value of `elemBytes`
      bytes. */
  function FillValue<T>(hasDst: bool, value: T, elemBytes: nat, dstSize: nat, wantsSize: bool): (r: Filled<T>) {
    Fill(hasDst, dstSize, wantsSize, elemBytes, [value])
  }

  /** `clFillValue(Dst, I, E, ...)`: the values of a range, `elemBytes`
      each. */
  function FillRange<T>(hasDst: bool, values: seq<T>, elemBytes: nat, dstSize: nat, wantsSize: bool): (r: Filled<T>) {
    Fill(hasDst, dstSize, wantsSize, |values| * elemBytes, values)
  }

  /** `clFillValue` for a small vector of `size_t`: the range rule with
      `size_t` elements. */
  function FillSizes(hasDst: bool, values: seq<nat>, dstSize: nat, wantsSize: bool): (r: Filled<nat>) {
    FillRange(hasDst, values, SizeTBytes, dstSize, wantsSize)
  }

  /** `strncpy(Dst, Src, n)` over a source whose storage is followed by
      a NUL: the characters before the first NUL, at most `n`, then NULs
      up to `n`. */
  function StrNCopy(src: string, n: nat): (r: string)
    ensures |r| == n
    decreases n
  {
    if n == 0 then []
    else if |src| == 0 || src[0] == '\0' then ['\0'] + StrNCopy([], n - 1)
    else [src[0]] + StrNCopy(src[1..], n - 1)
  }

  /** `clFillValue` for a string: its characters and the terminating NUL. */
  function FillString(hasDst: bool, s: string, dstSize: nat, wantsSize: bool): (r: Filled<char>) {
    Fill(hasDst, dstSize, wantsSize, |s| + 1, StrNCopy(s, |s| + 1))
  }

  /** A string without NULs is written whole, with one NUL after it, in
      exactly the bytes reported. */
  lemma {:induction false} StrNCopyTerminates(s: string)
    requires forall j :: 0 <= j < |s| ==> s[j] != '\0'
    ensures StrNCopy(s, |s| + 1) == s + ['\0']
    decreases |s|
  {
    if |s| > 0 {
      StrNCopyTerminates(s[1..]);
      assert s == [s[0]] + s[1..];
    } else {
      assert StrNCopy([], 0) == [];
    }
  }

  /** A string with a NUL inside is cut there and padded with NULs. */
  lemma {:induction false} StrNCopyCutsAtNul(pre: string, post: string, n: nat)
    requires forall j :: 0 <= j < |pre| ==> pre[j] != '\0'
    requires |pre| <= n
    ensures StrNCopy(pre + ['\0'] + post, n) == pre + Nuls(n - |pre|)
    decreases |pre|
  {
    if |pre| == 0 {
      if n > 0 {
        NulsCopy(n - 1);
      }
    } else {
      assert (pre + ['\0'] + post)[1..] == pre[1..] + ['\0'] + post;
      StrNCopyCutsAtNul(pre[1..], post, n - 1);
      assert pre == [pre[0]] + pre[1..];
    }
  }

  /** `n` NUL characters. */
  function Nuls(n: nat): (r: string)
    ensures |r| == n && forall j :: 0 <= j < n ==> r[j] == '\0'
  {
    seq(n, _ => '\0')
  }

  lemma {:induction false} NulsCopy(n: nat)
    ensures StrNCopy([], n) == Nuls(n)
    decreases n
  {
    if n > 0 {
      NulsCopy(n - 1);
      assert Nuls(n) == ['\0'] + Nuls(n - 1);
    }
  }

  /** The two-call idiom: asking first for the size alone always
      succeeds, and then a destination of exactly the reported size
      receives the whole value. */
  lemma QueryThenFill<T>(values: seq<T>, elemBytes: nat)
    ensures var q := FillRange(false, values, elemBytes, 0, true);
      && q.code == CL_SUCCESS && q.sizeRet.Some? && q.written.None?
      && var r := FillRange(true, values, elemBytes, q.sizeRet.value, false);
         r.code == CL_SUCCESS && r.written == Some(values) && r.sizeRet.None?
  {
  }

  /** The same for strings: the reported size holds the text and its
      terminating NUL, and one byte less is refused without writing. */
  lemma QueryThenFillString(s: string)
    requires forall j :: 0 <= j < |s| ==> s[j] != '\0'
    ensures var q := FillString(false, s, 0, true);
      && q.sizeRet == Some(|s| + 1)
      && FillString(true, s, |s| + 1, false).written == Some(s + ['\0'])
      && FillString(true, s, |s|, true) == Filled(CL_INVALID_VALUE, Some(|s| + 1), None)
  {
    StrNCopyTerminates(s);
  }

  /** `RETURN_WITH_EVENT`: the event is handed to the caller when it
      passed a slot, otherwise the caller's reference is dropped; the call
      succeeds either way. `refs` is the event's reference count. */
  datatype Returned = Returned(stored: Option<nat>, refs: nat, code: int)

  function ReturnWithEvent(hasSlot: bool, ev: nat, refs: nat): (r: Returned)
    requires refs > 0
    ensures r.code == CL_SUCCESS
    ensures r.stored.Some? <==> hasSlot
    ensures r.stored.Some? ==> r.stored.value == ev && r.refs == refs
    ensures r.stored.None? ==> r.refs + 1 == refs
  {
    if hasSlot then Returned(Some(ev), refs, CL_SUCCESS) else Returned(None, refs - 1, CL_SUCCESS)
  }
}
