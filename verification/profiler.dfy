/** The command profiler: samples labelled with the stage of a command, a
    per-event trace kept ordered by label, the counters selected from the
    environment, and the dump of a trace as a table. */
module Profiler {
  import opened Results
  import opened Text
  import opened SysTime
  import opened Table

  /** `ProfileSample::Label`, in declaration order. */
  datatype Label = CommandEnqueued | CommandSubmitted | CommandRunning | CommandCompleted | Unknown

  /** The enumerator's value: the order labels compare in. */
  function Rank(l: Label): nat {
    match l
    case CommandEnqueued => 0
    case CommandSubmitted => 1
    case CommandRunning => 2
    case CommandCompleted => 3
    case Unknown => 4
  }

  datatype Sample = Sample(sampleLabel: Label, subId: int, time: Time)

  /** A trace: whether it records, and its samples. */
  datatype Trace = Trace(enabled: bool, samples: seq<Sample>)

  /** `FindInsertPoint` from position `i`: the first sample whose label is
      greater than `l`, or the end. */
  function InsertPointFrom(samples: seq<Sample>, l: Label, i: nat): (k: nat)
    requires i <= |samples|
    ensures i <= k <= |samples|
    ensures forall m :: i <= m < k ==> Rank(samples[m].sampleLabel) <= Rank(l)
    ensures k < |samples| ==> Rank(samples[k].sampleLabel) > Rank(l)
    decreases |samples| - i
  {
    if i == |samples| || Rank(samples[i].sampleLabel) > Rank(l) then i
    else InsertPointFrom(samples, l, i + 1)
  }

  /** `ProfileTrace::operator<<`: a disabled trace, or a missing sample,
      leaves the trace as it is. */
  function Add(t: Trace, s: Option<Sample>): (r: Trace)
    ensures r.enabled == t.enabled
    ensures !t.enabled || s.None? ==> r == t
    ensures t.enabled && s.Some? ==>
      var k := InsertPointFrom(t.samples, s.value.sampleLabel, 0);
      r.samples == t.samples[..k] + [s.value] + t.samples[k..]
  {
    if t.enabled && s.Some? then
      var k := InsertPointFrom(t.samples, s.value.sampleLabel, 0);
      Trace(t.enabled, t.samples[..k] + [s.value] + t.samples[k..])
    else t
  }

  predicate Sorted(samples: seq<Sample>) {
    forall i, j :: 0 <= i < j < |samples| ==> Rank(samples[i].sampleLabel) <= Rank(samples[j].sampleLabel)
  }

  /** The samples carrying label `l`, in trace order. */
  function WithLabel(samples: seq<Sample>, l: Label): seq<Sample> {
    if |samples| == 0 then []
    else (if samples[0].sampleLabel == l then [samples[0]] else []) + WithLabel(samples[1..], l)
  }

  lemma {:induction false} WithLabelAppend(a: seq<Sample>, b: seq<Sample>, l: Label)
    ensures WithLabel(a + b, l) == WithLabel(a, l) + WithLabel(b, l)
    decreases |a|
  {
    if |a| == 0 {
      assert a + b == b;
    } else {
      WithLabelAppend(a[1..], b, l);
      assert (a + b)[0] == a[0];
      assert (a + b)[1..] == a[1..] + b;
      var h := if a[0].sampleLabel == l then [a[0]] else [];
      assert WithLabel(a + b, l) == h + WithLabel(a[1..] + b, l);
      assert WithLabel(a, l) == h + WithLabel(a[1..], l);
    }
  }

  /** In a sorted trace the new sample goes after exactly the samples whose
      label is not greater than its own, and the trace stays sorted. */
  lemma AddKeepsSorted(t: Trace, s: Sample)
    requires t.enabled && Sorted(t.samples)
    ensures Sorted(Add(t, Some(s)).samples)
    ensures var k := InsertPointFrom(t.samples, s.sampleLabel, 0);
      forall i :: 0 <= i < |t.samples| ==> (Rank(t.samples[i].sampleLabel) <= Rank(s.sampleLabel) <==> i < k)
  {
    var k := InsertPointFrom(t.samples, s.sampleLabel, 0);
    AfterInsertPoint(t.samples, s.sampleLabel);
    InsertSorted(t.samples, s, k);
  }

  /** A sample placed after the no-greater labels and before the greater
      ones keeps a sorted sequence sorted. */
  lemma InsertSorted(xs: seq<Sample>, s: Sample, k: nat)
    requires Sorted(xs) && k <= |xs|
    requires forall m :: 0 <= m < k ==> Rank(xs[m].sampleLabel) <= Rank(s.sampleLabel)
    requires forall m :: k <= m < |xs| ==> Rank(xs[m].sampleLabel) > Rank(s.sampleLabel)
    ensures Sorted(xs[..k] + [s] + xs[k..])
  {
    var r := xs[..k] + [s] + xs[k..];
    assert forall m :: 0 <= m < k ==> r[m] == xs[m];
    assert forall m :: k < m < |r| ==> r[m] == xs[m - 1];
    forall i, j | 0 <= i < j < |r|
      ensures Rank(r[i].sampleLabel) <= Rank(r[j].sampleLabel)
    {
      if j < k || i > k {
      } else if j == k {
        assert r[j] == s;
      } else if i == k {
        assert r[i] == s;
      }
    }
  }

  /** Insertion is stable: among samples of the same label the new one
      comes last, and the samples of other labels keep their order. */
  lemma AddIsStable(t: Trace, s: Sample, l: Label)
    requires t.enabled && Sorted(t.samples)
    ensures WithLabel(Add(t, Some(s)).samples, l) == WithLabel(t.samples, l) + (if s.sampleLabel == l then [s] else [])
  {
    var k := InsertPointFrom(t.samples, s.sampleLabel, 0);
    AfterInsertPoint(t.samples, s.sampleLabel);
    SpliceAt(t.samples, s, k, l);
  }

  /** Placing a sample at `k`, before labels greater than its own, adds it
      at the end of the samples of its label. */
  lemma SpliceAt(xs: seq<Sample>, s: Sample, k: nat, l: Label)
    requires k <= |xs|
    requires forall m :: k <= m < |xs| ==> Rank(xs[m].sampleLabel) > Rank(s.sampleLabel)
    ensures WithLabel(xs[..k] + [s] + xs[k..], l) == WithLabel(xs, l) + (if s.sampleLabel == l then [s] else [])
  {
    var a, b := xs[..k], xs[k..];
    assert xs == a + b;
    assert forall m :: 0 <= m < |b| ==> b[m] == xs[k + m];
    SpliceWithLabel(a, s, b, l);
  }

  /** In a sorted trace every sample from the insertion point on has a
      greater label. */
  lemma AfterInsertPoint(samples: seq<Sample>, l: Label)
    requires Sorted(samples)
    ensures var k := InsertPointFrom(samples, l, 0);
      forall m :: k <= m < |samples| ==> Rank(samples[m].sampleLabel) > Rank(l)
  {
  }

  lemma SpliceWithLabel(a: seq<Sample>, s: Sample, b: seq<Sample>, l: Label)
    requires s.sampleLabel == l ==> forall m :: 0 <= m < |b| ==> b[m].sampleLabel != l
    ensures WithLabel(a + [s] + b, l) == WithLabel(a + b, l) + (if s.sampleLabel == l then [s] else [])
  {
    WithLabelAppend(a + [s], b, l);
    WithLabelAppend(a, [s], l);
    WithLabelAppend(a, b, l);
    assert WithLabel([s], l) == (if s.sampleLabel == l then [s] else []) by {
      assert [s][1..] == [];
    }
    if s.sampleLabel == l {
      WithLabelNone(b, l);
    }
  }

  lemma {:induction false} WithLabelNone(b: seq<Sample>, l: Label)
    requires forall m :: 0 <= m < |b| ==> b[m].sampleLabel != l
    ensures WithLabel(b, l) == []
    decreases |b|
  {
    if |b| > 0 {
      WithLabelNone(b[1..], l);
    }
  }

  // Counters.

  const CounterNone: bv32 := 0
  const CounterTime: bv32 := 1

  /** `Profiler::GetSample`: the requested counters joined with the ones the
      environment selects; no sample without counters; the clock is read
      only for the time counter. */
  function GetSample(counters: bv32, toProfile: bv32, l: Label, subId: int, clock: Time): Option<Sample> {
    var c := counters | toProfile;
    if c == CounterNone then None
    else Some(Sample(l, subId, if c & CounterTime != 0 then clock else Invalid))
  }

  /** A sample exists iff some counter is requested or selected; it carries
      the given label and sub-id, and its time is the clock's reading exactly
      when either side asks for time. */
  lemma GetSampleSpec(counters: bv32, toProfile: bv32, l: Label, subId: int, clock: Time)
    ensures GetSample(counters, toProfile, l, subId, clock).None? <==> counters == 0 && toProfile == 0
    ensures var s := GetSample(counters, toProfile, l, subId, clock);
      s.Some? ==>
        && s.value.sampleLabel == l && s.value.subId == subId
        && s.value.time == (if counters & CounterTime != 0 || toProfile & CounterTime != 0 then clock else Invalid)
  {
  }

  /** `OPENCRUN_PROFILED_COUNTERS` split at every ':', empty fields included. */
  function Fields(raw: string): (r: seq<string>)
    ensures |r| > 0
    ensures forall k :: 0 <= k < |r| ==> ':' !in r[k]
    decreases |raw|
  {
    if ':' !in raw then [raw]
    else
      var i := FirstColon(raw, 0);
      [raw[..i]] + Fields(raw[i + 1..])
  }

  function FirstColon(s: string, i: nat): (k: nat)
    requires i <= |s| && ':' in s[i..]
    ensures i <= k < |s| && s[k] == ':' && ':' !in s[..k][i..]
    decreases |s| - i
  {
    if s[i] == ':' then i else FirstColon(s, i + 1)
  }

  /** Splitting at ':' loses nothing: joining the fields gives the text back. */
  lemma {:induction false} FieldsJoin(raw: string)
    ensures Join(":", Fields(raw)) == raw
    decreases |raw|
  {
    if ':' in raw {
      var i := FirstColon(raw, 0);
      FieldsJoin(raw[i + 1..]);
      assert raw == raw[..i] + ":" + raw[i + 1..];
      assert ':' !in raw[..i] by {
        assert raw[..i][0..] == raw[..i];
      }
    }
  }

  /** `SplitString` with ':' as delimiter: the non-empty fields. */
  function Tokens(fields: seq<string>): (r: seq<string>)
    ensures forall k :: 0 <= k < |r| ==> r[k] in fields && |r[k]| > 0
  {
    if |fields| == 0 then []
    else (if |fields[0]| > 0 then [fields[0]] else []) + Tokens(fields[1..])
  }

  /** `StringSwitch`: "time" selects the time counter, anything else none. */
  function CounterOf(token: string): bv32 {
    if token == "time" then CounterTime else CounterNone
  }

  /** The constructor's loop: the counters of the tokens, or-ed together. */
  function OrCounters(tokens: seq<string>): bv32 {
    if |tokens| == 0 then CounterNone else CounterOf(tokens[0]) | OrCounters(tokens[1..])
  }

  /** `Profiler::Profiler`: the counters selected by the environment string. */
  function ParseCounters(raw: string): bv32 {
    OrCounters(Tokens(Fields(raw)))
  }

  lemma {:induction false} OrCountersSpec(tokens: seq<string>)
    ensures OrCounters(tokens) == if "time" in tokens then CounterTime else CounterNone
    decreases |tokens|
  {
    if |tokens| > 0 {
      OrCountersSpec(tokens[1..]);
      assert "time" in tokens <==> tokens[0] == "time" || "time" in tokens[1..];
    }
  }

  lemma {:induction false} TokensKeep(fields: seq<string>, x: string)
    requires |x| > 0
    ensures x in Tokens(fields) <==> x in fields
    decreases |fields|
  {
    if |fields| > 0 {
      TokensKeep(fields[1..], x);
      assert x in fields <==> fields[0] == x || x in fields[1..];
    }
  }

  /** The environment selects the time counter exactly when one of its
      ':'-separated fields is "time"; no other counter can be selected. */
  lemma ParseCountersSpec(raw: string)
    ensures ParseCounters(raw) == if "time" in Fields(raw) then CounterTime else CounterNone
  {
    OrCountersSpec(Tokens(Fields(raw)));
    TokensKeep(Fields(raw), "time");
  }

  // Labels.

  function LabelName(l: Label): string {
    match l
    case Unknown => "Unknown"
    case CommandEnqueued => "CommandEnqueued"
    case CommandSubmitted => "CommandSubmitted"
    case CommandRunning => "CommandRunning"
    case CommandCompleted => "CommandCompleted"
  }

  /** `Profiler::FormatLabel`: the label's name, then "-" and the sub-id
      when the sub-id is not negative. */
  function FormatLabel(l: Label, subId: int): string {
    LabelName(l) + (if subId >= 0 then "-" + ShowNat(subId) else "")
  }

  lemma LabelNameNoDash(l: Label)
    ensures |LabelName(l)| > 0 && forall k :: 0 <= k < |LabelName(l)| ==> LabelName(l)[k] != '-'
  {
  }

  /** A name without '-' followed by nothing or by a '-'-led suffix splits
      only one way. */
  lemma SplitAtDash(n1: string, r1: string, n2: string, r2: string)
    requires n1 + r1 == n2 + r2
    requires forall k :: 0 <= k < |n1| ==> n1[k] != '-'
    requires forall k :: 0 <= k < |n2| ==> n2[k] != '-'
    requires |r1| == 0 || r1[0] == '-'
    requires |r2| == 0 || r2[0] == '-'
    ensures n1 == n2 && r1 == r2
  {
    var f := n1 + r1;
    if |n1| < |n2| {
      DashAt(n1, r1, n2, r2);
      assert false;
    } else if |n2| < |n1| {
      DashAt(n2, r2, n1, r1);
      assert false;
    }
    assert n1 == f[..|n1|] == n2;
    assert r1 == f[|n1|..] == r2;
  }

  lemma DashAt(n1: string, r1: string, n2: string, r2: string)
    requires n1 + r1 == n2 + r2 && |n1| < |n2|
    requires |r1| == 0 || r1[0] == '-'
    ensures n2[|n1|] == '-'
  {
    assert n2[|n1|] == (n2 + r2)[|n1|] == (n1 + r1)[|n1|] == r1[0];
  }

  /** A formatted label names its label and its sub-id: two samples print
      the same label only if they have the same label and either the same
      sub-id or both a negative one. */
  lemma FormatLabelInjective(l1: Label, i1: int, l2: Label, i2: int)
    requires FormatLabel(l1, i1) == FormatLabel(l2, i2)
    ensures l1 == l2
    ensures i1 < 0 <==> i2 < 0
    ensures i1 >= 0 ==> i1 == i2
  {
    var n1, n2 := LabelName(l1), LabelName(l2);
    var r1 := if i1 >= 0 then "-" + ShowNat(i1) else "";
    var r2 := if i2 >= 0 then "-" + ShowNat(i2) else "";
    var f := FormatLabel(l1, i1);
    assert f == n1 + r1 && f == n2 + r2;
    LabelNameNoDash(l1);
    LabelNameNoDash(l2);
    SplitAtDash(n1, r1, n2, r2);
    if i1 >= 0 && i2 >= 0 {
      assert ShowNat(i1) == r1[1..] == r2[1..] == ShowNat(i2);
      ShowNatInjective(i1, i2);
    }
  }

  // Dumping a trace.

  /** The Delta cell of a sample taken at `now` after one taken at `prev`:
      `Now - Last` with `operator-` as written, without a borrow. */
  function DeltaCell(now: Time, prev: Time, show: Time -> string): string
    requires Fits(now) && Fits(prev)
  {
    Render(SubAsWritten(now, prev), show(SubAsWritten(now, prev)))
  }

  /** The rows after the header: label, time, and time since the previous
      sample (the first one measured from `last`). */
  function TraceRows(samples: seq<Sample>, last: Time, show: Time -> string): (r: seq<seq<string>>)
    requires forall k :: 0 <= k < |samples| ==> Fits(samples[k].time)
    requires Fits(last)
    ensures |r| == |samples|
    ensures forall k :: 0 <= k < |r| ==> |r[k]| == 3 && r[k][0] == FormatLabel(samples[k].sampleLabel, samples[k].subId)
    ensures forall k :: 0 <= k < |r| ==> r[k][1] == Render(samples[k].time, show(samples[k].time))
    ensures |r| > 0 ==> r[0][2] == DeltaCell(samples[0].time, last, show)
    ensures forall k :: 0 < k < |r| ==> r[k][2] == DeltaCell(samples[k].time, samples[k - 1].time, show)
    decreases |samples|
  {
    if |samples| == 0 then []
    else
      var now := samples[0].time;
      [[FormatLabel(samples[0].sampleLabel, samples[0].subId), Render(now, show(now)), DeltaCell(now, last, show)]]
        + TraceRows(samples[1..], now, show)
  }

  const Header: seq<string> := ["Label", "Time", "Delta"]

  /** The table `DumpTrace` fills: the header row, then one row per sample
      in trace order. */
  function TraceTable(samples: seq<Sample>, show: Time -> string): (r: Table)
    requires forall k :: 0 <= k < |samples| ==> Fits(samples[k].time)
    ensures Rectangular(r, 1 + |samples|, 3)
    ensures forall j :: 0 <= j < 3 ==> r.columns[j].rows == [Header[j]] + ColumnOf(TraceRows(samples, Invalid, show), j)
  {
    HeaderThenRows(Header, TraceRows(samples, Invalid, show));
    AddRows(AddRow(Empty, Header), TraceRows(samples, Invalid, show))
  }

  /** `Profiler::DumpTrace`: nothing unless profiling is forced by the
      caller or selected by the environment; otherwise a title line naming
      the command, the table with prefix "profile" (a line per row), and a
      closing line. */
  function DumpTrace(toProfile: bv32, force: bool, commandName: string, t: Trace, show: Time -> string): (r: Option<seq<string>>)
    requires forall k :: 0 <= k < |t.samples| ==> Fits(t.samples[k].time)
    ensures r.None? <==> toProfile == 0 && !force
    ensures r.Some? ==> |r.value| == 3 + |t.samples|
    ensures r.Some? ==> r.value[0] == "profile: " + commandName + "\n" && r.value[|r.value| - 1] == "profile:\n"
  {
    if toProfile == 0 && !force then None
    else
      var tab := TraceTable(t.samples, show);
      DumpLayout(tab, "profile");
      Some(["profile: " + commandName + "\n"] + Dump(tab, "profile") + ["profile:\n"])
  }

  /** The dumped table has a Label/Time/Delta header above one row per
      sample, three columns throughout. */
  lemma DumpTraceShape(t: Trace, show: Time -> string)
    requires forall k :: 0 <= k < |t.samples| ==> Fits(t.samples[k].time)
    ensures var tab := TraceTable(t.samples, show);
      && RowsCount(tab) == 1 + |t.samples| && ColsCount(tab) == 3
      && tab.columns[0].rows[0] == "Label" && tab.columns[1].rows[0] == "Time" && tab.columns[2].rows[0] == "Delta"
  {
    var tab := TraceTable(t.samples, show);
    assert tab.columns[0].rows[0] == Header[0];
    assert tab.columns[1].rows[0] == Header[1];
    assert tab.columns[2].rows[0] == Header[2];
  }

  /** Below the header, row k + 1 of the dumped table is the trace row of
      sample k, whose label, time and delta cells `TraceRows` states. */
  lemma TraceCell(t: Trace, show: Time -> string, k: nat, j: nat)
    requires forall k :: 0 <= k < |t.samples| ==> Fits(t.samples[k].time)
    requires k < |t.samples| && j < 3
    ensures var tab := TraceTable(t.samples, show);
      j < |tab.columns| && k + 1 < |tab.columns[j].rows|
      && tab.columns[j].rows[k + 1] == TraceRows(t.samples, Invalid, show)[k][j]
  {
    HeaderThenRowsCell(Header, TraceRows(t.samples, Invalid, show), k, j);
  }

  /** The Delta cell of a sample after the first: measured from the
      previous sample. */
  lemma DeltaColumn(t: Trace, show: Time -> string, k: nat)
    requires forall i :: 0 <= i < |t.samples| ==> Fits(t.samples[i].time)
    requires 0 < k < |t.samples|
    ensures TraceTable(t.samples, show).columns[2].rows[k + 1]
              == DeltaCell(t.samples[k].time, t.samples[k - 1].time, show)
  {
    var rows := TraceRows(t.samples, Invalid, show);
    assert rows[k][2] == DeltaCell(t.samples[k].time, t.samples[k - 1].time, show);
    TraceCell(t, show, k, 2);
  }

  /** The Delta cell of the first sample: measured from the default time. */
  lemma FirstDeltaColumn(t: Trace, show: Time -> string)
    requires forall i :: 0 <= i < |t.samples| ==> Fits(t.samples[i].time)
    requires 0 < |t.samples|
    ensures TraceTable(t.samples, show).columns[2].rows[1] == DeltaCell(t.samples[0].time, Invalid, show)
  {
    var rows := TraceRows(t.samples, Invalid, show);
    assert rows[0][2] == DeltaCell(t.samples[0].time, Invalid, show);
    TraceCell(t, show, 0, 2);
  }

  /** A valid sample later than its predecessor whose nanoseconds are
      smaller prints "N\A" as its delta: `operator-` does not borrow. */
  lemma BorrowDeltaNotAvailable(t: Trace, show: Time -> string, k: nat)
    requires forall i :: 0 <= i < |t.samples| ==> Fits(t.samples[i].time)
    requires 0 < k < |t.samples|
    requires Normal(t.samples[k].time) && Normal(t.samples[k - 1].time)
    requires IsValid(t.samples[k].time) && IsValid(t.samples[k - 1].time)
    requires t.samples[k].time.seconds > t.samples[k - 1].time.seconds
    requires t.samples[k].time.nanos < t.samples[k - 1].time.nanos
    ensures TraceTable(t.samples, show).columns[2].rows[k + 1] == "N\\A"
  {
    var now, prev := t.samples[k].time, t.samples[k - 1].time;
    DeltaColumn(t, show, k);
    BorrowIsInvalidAsWritten(now, prev);
  }

  /** Without a borrow the printed delta is the elapsed time. */
  lemma DeltaElapsedWithoutBorrow(t: Trace, show: Time -> string, k: nat)
    requires forall i :: 0 <= i < |t.samples| ==> Fits(t.samples[i].time)
    requires 0 < k < |t.samples|
    requires Normal(t.samples[k].time) && Normal(t.samples[k - 1].time)
    requires IsValid(t.samples[k].time) && IsValid(t.samples[k - 1].time)
    requires t.samples[k].time.seconds >= t.samples[k - 1].time.seconds
    requires t.samples[k].time.nanos >= t.samples[k - 1].time.nanos
    ensures var d := SubAsWritten(t.samples[k].time, t.samples[k - 1].time);
      && IsValid(d) && Total(d) == Total(t.samples[k].time) - Total(t.samples[k - 1].time)
      && TraceTable(t.samples, show).columns[2].rows[k + 1] == show(d)
  {
    var now, prev := t.samples[k].time, t.samples[k - 1].time;
    DeltaColumn(t, show, k);
    SubAsWrittenWithoutBorrow(now, prev);
  }

  /** The first sample's delta is taken from the default time, and a valid
      first sample prints "N\A" there, unless its nanoseconds are exactly
      854775808 (2^63 modulo 10^9), where the wrapped difference happens to
      be a whole number of seconds. */
  lemma FirstDeltaNotAvailable(t: Trace, show: Time -> string)
    requires forall i :: 0 <= i < |t.samples| ==> Fits(t.samples[i].time)
    requires 0 < |t.samples| && Normal(t.samples[0].time) && IsValid(t.samples[0].time)
    requires t.samples[0].time.nanos != 854_775_808
    ensures TraceTable(t.samples, show).columns[2].rows[1] == "N\\A"
  {
    FirstDeltaColumn(t, show);
    MinusDefaultInvalid(t.samples[0].time);
  }
}
