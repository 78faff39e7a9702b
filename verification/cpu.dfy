/** `cpu_util` (main.c): the first line of the CPU statistics source holds a
    label and cumulative tick counters (user, nice, system, idle, iowait, irq,
    softirq). The sampler keeps the previous vector and its 32-bit sum in
    `static` variables and reports the busy share of the ticks elapsed since. */
module Cpu {
  import opened Wrappers
  import opened Machine
  import opened Text
  import opened Scan

  /** Number of tick counters read. */
  const Arity: nat := 7
  /** Position of the idle counter. */
  const Idle: nat := 3

  type Ticks = v: seq<U32> | |v| == 7 witness [0, 0, 0, 0, 0, 0, 0]

  /** The `static unsigned sum_, vector_[7]` retained between calls. */
  datatype CpuState = CpuState(sum: U32, ticks: Ticks)

  /** The retained sum is the wrapped sum of the retained vector. */
  predicate Consistent(st: CpuState) {
    st.sum == Sum(st.ticks) % TWO32
  }

  /** Static storage starts zeroed. */
  const Initial: CpuState := CpuState(0, [0, 0, 0, 0, 0, 0, 0])

  /** The C code divides by `sum - sum_` without a guard; when that is zero
      the double result is -infinity (idle delta > 0) or NaN (idle delta 0),
      so the model reports the division instead of a number. */
  datatype CpuResult = Percent(value: real) | DivideByZero(idleDelta: U32)

  /** `"%u %u %u %u %u %u %u"` */
  function TickFormat(): (fmt: seq<Directive>)
    ensures Only32(fmt)
  {
    Spaced(Repeated(Unsigned(W32), Arity))
  }

  /** The counters of a line: `strstr(s, " ")` must find a blank and the
      seven conversions after it must all succeed. */
  function ParseTicks(line: string): (r: Option<Ticks>)
    ensures ' ' !in line ==> r.None?
  {
    match IndexOf(line, " ")
    case None => None
    case Some(i) =>
      OccursAtChar(line, ' ', i);
      var vals := Scanf(TickFormat(), line[i..]);
      if |vals| == 7 then Some(vals) else None
  }

  /** The exact sum of the counters. */
  function Sum(v: seq<nat>): nat
    decreases |v|
  {
    if v == [] then 0 else v[0] + Sum(v[1..])
  }

  /** `for (...) sum += vector[i];` in `unsigned` arithmetic. */
  function WrapSum(acc: U32, v: seq<U32>): U32
    decreases |v|
  {
    if v == [] then acc else WrapSum((acc + v[0]) % TWO32, v[1..])
  }

  /** The wrapping loop computes the exact sum reduced modulo 2^32. */
  lemma {:induction false} WrapSumIsSumModulo(acc: U32, v: seq<U32>)
    ensures WrapSum(acc, v) == (acc + Sum(v)) % TWO32
    decreases |v|
  {
    if v != [] {
      WrapSumIsSumModulo((acc + v[0]) % TWO32, v[1..]);
      var a := acc + v[0];
      assert a == (a / TWO32) * TWO32 + a % TWO32;
    }
  }

  /** The `sum` the sampler computes over a freshly read vector. */
  function TickSum(v: Ticks): (s: U32)
    ensures s == Sum(v) % TWO32
  {
    WrapSumIsSumModulo(0, v);
    WrapSum(0, v)
  }

  /** The busy share, in percent, of `total` elapsed ticks of which `idle`
      were idle. */
  function Busy(idle: nat, total: nat): real
    requires total > 0
  {
    (1.0 - idle as real / total as real) * 100.0
  }

  /** One successful sample: the wrapped sum, the wrapped idle and total
      deltas against the retained state, and the overwritten state. */
  function Sample(st: CpuState, v: Ticks): (res: (CpuResult, CpuState))
    ensures res.1.ticks == v && res.1.sum == Sum(v) % TWO32
    ensures res.0.DivideByZero? <==> Sum(v) % TWO32 == st.sum
  {
    var sum := TickSum(v);
    var idleDelta := Sub32(v[Idle], st.ticks[Idle]);
    var sumDelta := Sub32(sum, st.sum);
    var util :=
      if sumDelta == 0 then DivideByZero(idleDelta)
      else Percent(Busy(idleDelta, sumDelta));
    (util, CpuState(sum, v))
  }

  /** `cpu_util(s)`: a line that does not parse yields 0 and keeps the
      retained state; a parsed line is sampled. */
  function CpuUtil(st: CpuState, line: string): (res: (CpuResult, CpuState))
    ensures ParseTicks(line).None? ==> res == (Percent(0.0), st)
    ensures ParseTicks(line).Some? ==> res == Sample(st, ParseTicks(line).value)
    ensures ParseTicks(line).Some? ==> res.1.ticks == ParseTicks(line).value
    ensures ParseTicks(line).Some? ==> res.1.sum == Sum(ParseTicks(line).value) % TWO32
    ensures res.0.DivideByZero? <==>
      ParseTicks(line).Some? && Sum(ParseTicks(line).value) % TWO32 == st.sum
    ensures Consistent(st) ==> Consistent(res.1)
  {
    match ParseTicks(line)
    case None => (Percent(0.0), st)
    case Some(v) => Sample(st, v)
  }

  /** The sample in terms of the exact counters: the idle and total deltas
      are taken modulo 2^32, and a zero total delta is a division by zero. */
  lemma SampleFormula(st: CpuState, v: Ticks)
    ensures var idle := (v[Idle] - st.ticks[Idle]) % TWO32;
      var total := (Sum(v) - st.sum) % TWO32;
      Sample(st, v).0 ==
        if total == 0 then DivideByZero(idle)
        else Percent(Busy(idle, total))
  {
    SubReduced32(Sum(v), st.sum);
  }

  /** The figure in terms of the exact counters: the idle and total deltas
      are taken modulo 2^32, and a zero total delta is a division by zero. */
  lemma CpuResultFormula(st: CpuState, line: string, v: Ticks)
    requires ParseTicks(line) == Some(v)
    ensures var idle := (v[Idle] - st.ticks[Idle]) % TWO32;
      var total := (Sum(v) - st.sum) % TWO32;
      CpuUtil(st, line).0 ==
        if total == 0 then DivideByZero(idle)
        else Percent(Busy(idle, total))
  {
    SampleFormula(st, v);
  }

  /** The first sample is measured against the zeroed static storage. */
  lemma FirstSample(line: string, v: Ticks)
    requires ParseTicks(line) == Some(v)
    ensures var total := Sum(v) % TWO32;
      CpuUtil(Initial, line).0 ==
        if total == 0 then DivideByZero(v[Idle])
        else Percent(Busy(v[Idle], total))
  {
    CpuResultFormula(Initial, line, v);
    assert Initial.ticks[Idle] == 0 && Initial.sum == 0;
    assert (v[Idle] - 0) % TWO32 == v[Idle];
  }

  /** Feeding the same line twice leaves no ticks elapsed: the second call
      divides zero by zero. */
  lemma SameLineTwice(st: CpuState, line: string)
    requires ParseTicks(line).Some?
    ensures var st1 := CpuUtil(st, line).1;
      CpuUtil(st1, line) == (DivideByZero(0), st1)
  {
  }

  /** Growth of the counters is at least the growth of any one of them. */
  lemma {:induction false} SumGrowth(p: seq<nat>, v: seq<nat>, k: nat)
    requires |p| == |v| && k < |v|
    requires forall i :: 0 <= i < |v| ==> p[i] <= v[i]
    ensures Sum(p) + (v[k] - p[k]) <= Sum(v)
    decreases |v|
  {
    if k == 0 {
      SumMonotone(p[1..], v[1..]);
    } else {
      SumGrowth(p[1..], v[1..], k - 1);
    }
  }

  lemma {:induction false} SumMonotone(p: seq<nat>, v: seq<nat>)
    requires |p| == |v|
    requires forall i :: 0 <= i < |v| ==> p[i] <= v[i]
    ensures Sum(p) <= Sum(v)
    decreases |v|
  {
    if v != [] {
      SumMonotone(p[1..], v[1..]);
    }
  }

  /** Counters that only grew, with a sum that fits in 32 bits, give a busy
      share between 0 and 100 percent. */
  lemma CpuUtilBounded(st: CpuState, line: string, v: Ticks)
    requires ParseTicks(line) == Some(v)
    requires st.sum == Sum(st.ticks)
    requires Sum(v) < TWO32
    requires forall i :: 0 <= i < Arity ==> st.ticks[i] <= v[i]
    ensures CpuUtil(st, line).0.Percent? ==> 0.0 <= CpuUtil(st, line).0.value <= 100.0
  {
    SampleBounded(st, v);
  }

  lemma SampleBounded(st: CpuState, v: Ticks)
    requires st.sum == Sum(st.ticks)
    requires Sum(v) < TWO32
    requires forall i :: 0 <= i < Arity ==> st.ticks[i] <= v[i]
    ensures Sample(st, v).0.Percent? ==> 0.0 <= Sample(st, v).0.value <= 100.0
  {
    SumGrowth(st.ticks, v, Idle);
    SampleFormula(st, v);
    DeltasBounded(v[Idle] - st.ticks[Idle], Sum(v) - st.sum);
  }

  /** Deltas that did not wrap are taken as they are, and give a figure
      within 0..100. */
  lemma DeltasBounded(idle: int, total: int)
    requires 0 <= idle <= total < TWO32
    ensures idle % TWO32 == idle && total % TWO32 == total
    ensures total != 0 ==> 0.0 <= Busy(idle, total) <= 100.0
  {
    if total != 0 {
      BusyBounds(idle, total);
    }
  }

  /** An idle share of at most the whole keeps the figure within 0..100. */
  lemma BusyBounds(idle: nat, total: nat)
    requires 0 < total && idle <= total
    ensures 0.0 <= Busy(idle, total) <= 100.0
  {
    var q := idle as real / total as real;
    assert q * total as real == idle as real;
    assert 0.0 <= q <= 1.0;
  }

  /** A line printed as a label, a white-space gap starting with a blank and
      the seven counters in decimal, separated by white space, reads back as
      those counters. */
  lemma RenderedLineParses(name: string, gap: string, v: Ticks, gaps: seq<string>, tail: string)
    requires ' ' !in name && |gap| > 0 && gap[0] == ' ' && AllSpace(gap)
    requires |gaps| == Arity - 1 && Gaps(gaps)
    requires tail == [] || !IsDigit(tail[0])
    ensures ParseTicks(name + gap + Spread(Numerals(v), gaps) + tail) == Some(v)
  {
    var rest := Spread(Numerals(v), gaps) + tail;
    var line := name + gap + rest;
    assert name + gap + Spread(Numerals(v), gaps) + tail == line;
    FirstBlank(name, gap, rest);
    TicksScan(gap, v, gaps, tail);
    ParseAt(line, |name|, v);
  }

  /** A line that ends after fewer than seven counters yields no counters:
      the conversions it has succeed, the next one finds the end of the
      line, and the count falls short. */
  lemma ShortLineFails(name: string, gap: string, v: seq<U32>, gaps: seq<string>, tail: string)
    requires ' ' !in name && |gap| > 0 && gap[0] == ' ' && AllSpace(gap)
    requires 0 < |v| < Arity && |gaps| == |v| - 1 && Gaps(gaps)
    requires AllSpace(tail)
    ensures ParseTicks(name + gap + Spread(Numerals(v), gaps) + tail).None?
  {
    var rest := Spread(Numerals(v), gaps) + tail;
    var line := name + gap + rest;
    assert name + gap + Spread(Numerals(v), gaps) + tail == line;
    FirstBlank(name, gap, rest);
    ShortScan(gap, v, gaps, tail);
    ParseShort(line, |name|, v);
  }

  /** The counters present are read and nothing more. */
  lemma ShortScan(gap: string, v: seq<U32>, gaps: seq<string>, tail: string)
    requires AllSpace(gap) && 0 < |v| < Arity && |gaps| == |v| - 1 && Gaps(gaps)
    requires AllSpace(tail)
    ensures Scanf(TickFormat(), gap + (Spread(Numerals(v), gaps) + tail)) == v
  {
    var ds1, ds2 := Repeated(Unsigned(W32), |v|), Repeated(Unsigned(W32), Arity - |v|);
    assert ds1 + ds2 == Repeated(Unsigned(W32), Arity);
    assert gap + (Spread(Numerals(v), gaps) + tail) == gap + Spread(Numerals(v), gaps) + tail;
    OutputsOfNumerals(W32, v);
    ScanfSpacedPrefix(ds1, Numerals(v), gaps, ds2, gap, tail);
  }

  lemma ParseShort(line: string, i: nat, vals: seq<U64>)
    requires IndexOf(line, " ") == Some(i) && i <= |line|
    requires Scanf(TickFormat(), line[i..]) == vals && |vals| != Arity
    ensures ParseTicks(line).None?
  {
  }

  /** A line whose first blank is at `i` and whose remainder scans seven
      counters parses to those counters. */
  lemma ParseAt(line: string, i: nat, v: Ticks)
    requires IndexOf(line, " ") == Some(i) && i <= |line|
    requires Scanf(TickFormat(), line[i..]) == v
    ensures ParseTicks(line) == Some(v)
  {
  }

  /** The first blank of the line is the first of the gap after the label. */
  lemma FirstBlank(name: string, gap: string, rest: string)
    requires ' ' !in name && |gap| > 0 && gap[0] == ' '
    ensures var line := name + gap + rest;
      IndexOf(line, " ") == Some(|name|) && line[|name|..] == gap + rest
  {
    var line := name + gap + rest;
    assert line == name + [' '] + (gap[1..] + rest);
    IndexOfChar(name, ' ', gap[1..] + rest);
  }

  /** The seven counters after the label are read back. */
  lemma TicksScan(gap: string, v: Ticks, gaps: seq<string>, tail: string)
    requires AllSpace(gap) && |gaps| == Arity - 1 && Gaps(gaps)
    requires tail == [] || !IsDigit(tail[0])
    ensures Scanf(TickFormat(), gap + (Spread(Numerals(v), gaps) + tail)) == v
  {
    assert gap + (Spread(Numerals(v), gaps) + tail) == gap + Spread(Numerals(v), gaps) + tail;
    OutputsOfNumerals(W32, v);
    ScanfSpaced(Repeated(Unsigned(W32), Arity), Numerals(v), gaps, gap, tail);
  }

  /** Two samples of rendered lines: 80 ticks elapse, 60 of them idle. */
  lemma TwentyFivePercent(name: string, v1: Ticks, v2: Ticks)
    requires ' ' !in name
    requires v1 == [100, 0, 100, 700, 0, 0, 0] && v2 == [110, 0, 110, 760, 0, 0, 0]
    ensures var l1 := name + "  " + Spread(Numerals(v1), Blanks(6)) + "\n";
      var l2 := name + "  " + Spread(Numerals(v2), Blanks(6)) + "\n";
      CpuUtil(CpuUtil(Initial, l1).1, l2).0 == Percent(25.0)
  {
    RenderedLineParses(name, "  ", v1, Blanks(6), "\n");
    RenderedLineParses(name, "  ", v2, Blanks(6), "\n");
    SampleTwentyFivePercent(v1, v2);
  }

  lemma SampleTwentyFivePercent(v1: Ticks, v2: Ticks)
    requires v1 == [100, 0, 100, 700, 0, 0, 0] && v2 == [110, 0, 110, 760, 0, 0, 0]
    ensures Sample(Sample(Initial, v1).1, v2).0 == Percent(25.0)
  {
    TwentyFivePercentSums(v1, v2);
    var st := Sample(Initial, v1).1;
    assert st == CpuState(900, v1);
    SampleFormula(st, v2);
    assert (v2[Idle] - st.ticks[Idle]) % TWO32 == 60;
    assert (Sum(v2) - st.sum) % TWO32 == 80;
    assert Busy(60, 80) == 25.0;
  }

  lemma TwentyFivePercentSums(v1: Ticks, v2: Ticks)
    requires v1 == [100, 0, 100, 700, 0, 0, 0] && v2 == [110, 0, 110, 760, 0, 0, 0]
    ensures Sum(v1) == 900 && Sum(v2) == 980
  {
    assert Sum(v1) == Sum([100, 0, 100, 700, 0, 0, 0]) == 900;
    assert Sum(v2) == Sum([110, 0, 110, 760, 0, 0, 0]) == 980;
  }
}
