/** `calculate_network_utilization` (main.c): every line of the network
    device source that mentions the interface is scanned for its 10th and
    18th white-space separated tokens (`unsigned long` rx and tx). The figure
    is the number of KiB moved since the previous call, whose rx and tx are
    retained in `static unsigned` variables. */
module Network {
  import opened Wrappers
  import opened Machine
  import opened Text
  import opened Scan
  import opened Lines
  import opened Capture

  /** The interface whose lines are scanned. */
  const Interface: string := "enp0s1"

  /** `"%*s %*s %*s %*s %*s %*s %*s %*s %*s %lu %*s %*s %*s %*s %*s %*s %*s"`:
      the fields up to and including rx and the seven after it. */
  function NetHead(): seq<Directive> {
    Repeated(SkipToken, 9) + [Unsigned(W64)] + Repeated(SkipToken, 7)
  }

  /** The whole format: the head, then tx. */
  function NetFields(): seq<Directive> {
    NetHead() + [Unsigned(W64)]
  }

  function NetFormat(): seq<Directive> {
    Spaced(NetFields())
  }

  /** The `rx_bytes` the loop ends with. */
  function Received(lines: seq<string>): U64 {
    LastAssigned(Interface, NetFormat(), lines, 0)
  }

  /** The `tx_bytes` the loop ends with. */
  function Transmitted(lines: seq<string>): U64 {
    LastAssigned(Interface, NetFormat(), lines, 1)
  }

  /** The `static unsigned rx_bytes_prev, tx_bytes_prev`. */
  datatype NetState = NetState(rxPrev: U32, txPrev: U32)

  const NetInitial: NetState := NetState(0, 0)

  /** `(double)bytes / 1024.0` */
  function Kib(bytes: nat): real {
    bytes as real / 1024.0
  }

  /** Assigning an `unsigned long` to an `unsigned` keeps the low 32 bits. */
  function Truncate32(x: U64): (r: U32)
    ensures x < TWO32 ==> r == x
    ensures (x - r) % TWO32 == 0
  {
    x % TWO32
  }

  /** The figure and the new retained values for counters `rx` and `tx`:
      the `unsigned long` deltas wrap modulo 2^64, and the retained values
      keep the low 32 bits of the counters. */
  function Advance(st: NetState, rx: U64, tx: U64): (res: (real, NetState))
    ensures res.0 == Kib((rx + tx - st.rxPrev - st.txPrev) % TWO64)
    ensures res.1 == NetState(Truncate32(rx), Truncate32(tx))
  {
    AddReduced64(rx - st.rxPrev, tx - st.txPrev);
    (Kib(Add64(Sub64(rx, st.rxPrev), Sub64(tx, st.txPrev))), NetState(Truncate32(rx), Truncate32(tx)))
  }

  /** `calculate_network_utilization()`; `None` is a source that cannot be
      opened, which returns before the retained values are touched. */
  function NetworkUtilization(st: NetState, src: Option<seq<string>>): (res: (real, NetState))
    ensures src.None? ==> res == (-1.0, st)
    ensures src.Some? ==> res == Advance(st, Received(src.value), Transmitted(src.value))
  {
    match src
    case None => (-1.0, st)
    case Some(lines) =>
      var t := Loop(Interface, NetFormat(), lines);
      LoopIsLastAssigned(Interface, NetFormat(), lines);
      assert t.first == Received(lines) && t.second == Transmitted(lines);
      Advance(st, t.first, t.second)
  }

  /** Counters below 2^32 survive the truncation: a second call on the same
      source reports nothing moved. */
  lemma UnchangedBelow32(st: NetState, lines: seq<string>)
    requires Received(lines) < TWO32 && Transmitted(lines) < TWO32
    ensures var st1 := NetworkUtilization(st, Some(lines)).1;
      NetworkUtilization(st1, Some(lines)) == (0.0, st1)
  {
    AdvanceTwiceBelow32(st, Received(lines), Transmitted(lines));
  }

  lemma AdvanceTwiceBelow32(st: NetState, rx: U64, tx: U64)
    requires rx < TWO32 && tx < TWO32
    ensures var st1 := Advance(st, rx, tx).1;
      Advance(st1, rx, tx) == (0.0, st1)
  {
    var st1 := Advance(st, rx, tx).1;
    assert st1 == NetState(rx, tx);
    assert rx + tx - st1.rxPrev - st1.txPrev == 0;
    assert Advance(st1, rx, tx).0 == Kib(0 % TWO64) == 0.0;
  }

  /** A second call on the same source reports nothing moved exactly when
      the parts of the counters above the low 32 bits add up to a multiple
      of 2^32: in particular when both counters are below 2^32, and not when
      exactly one of them has reached it. */
  lemma SecondCallZeroIff(st: NetState, lines: seq<string>)
    ensures var rx, tx := Received(lines), Transmitted(lines);
      var st1 := NetworkUtilization(st, Some(lines)).1;
      NetworkUtilization(st1, Some(lines)).0 == 0.0 <==> (rx / TWO32 + tx / TWO32) % TWO32 == 0
  {
    AdvanceTwiceZeroIff(st, Received(lines), Transmitted(lines));
  }

  lemma AdvanceTwiceZeroIff(st: NetState, rx: U64, tx: U64)
    ensures Advance(Advance(st, rx, tx).1, rx, tx).0 == 0.0 <==> (rx / TWO32 + tx / TWO32) % TWO32 == 0
  {
    var st1 := Advance(st, rx, tx).1;
    var k := rx / TWO32 + tx / TWO32;
    assert rx == TWO32 * (rx / TWO32) + st1.rxPrev;
    assert tx == TWO32 * (tx / TWO32) + st1.txPrev;
    assert rx + tx - st1.rxPrev - st1.txPrev == TWO32 * k;
    ScaledModulo(k);
    KibZeroIff((TWO32 * k) % TWO64);
  }

  /** Multiplying by 2^32 and reducing modulo 2^64 keeps the low 32 bits of
      the multiplier. */
  lemma ScaledModulo(k: nat)
    ensures (TWO32 * k) % TWO64 == TWO32 * (k % TWO32)
  {
    var q, r := k / TWO32, k % TWO32;
    assert k == q * TWO32 + r;
    assert TWO32 * k == q * TWO64 + TWO32 * r;
    assert 0 <= TWO32 * r < TWO64;
  }

  lemma KibZeroIff(bytes: nat)
    ensures Kib(bytes) == 0.0 <==> bytes == 0
  {
  }

  /** The fields up to tx read seventeen tokens and assign the 10th, a
      numeral, to rx. */
  lemma NetHeadReads(ts: seq<string>, rx: U64)
    requires |ts| == 17 && forall i :: 0 <= i < |ts| ==> IsWord(ts[i])
    requires ts[9] == Decimal(rx)
    ensures AllFit(NetHead(), ts)
    ensures Outputs(NetHead(), ts) == [rx]
  {
    SplitAt(ts, 9);
    SkippedWords(ts[..9]);
    SkippedWords(ts[10..]);
    FieldOutOfDecimal(W64, rx);
    FieldAmid(Repeated(SkipToken, 9), ts[..9], Unsigned(W64), ts[9], Repeated(SkipToken, 7), ts[10..]);
  }

  /** Eighteen tokens assign the 10th to rx and the 18th to tx. */
  lemma NetFieldsRead(ts: seq<string>, rx: U64, tx: U64)
    requires |ts| == 18 && forall i :: 0 <= i < |ts| ==> IsWord(ts[i])
    requires ts[9] == Decimal(rx) && ts[17] == Decimal(tx)
    ensures AllFit(NetFields(), ts)
    ensures Outputs(NetFields(), ts) == [rx, tx]
  {
    var head := ts[..17];
    assert ts == head + [ts[17]];
    NetHeadReads(head, rx);
    FieldOutOfDecimal(W64, tx);
    AppendField(NetHead(), head, Unsigned(W64), ts[17]);
    assert Outputs(NetHead(), head) + FieldOut(Unsigned(W64), ts[17]) == [rx, tx];
  }

  /** A device word followed by numerals is a sequence of words. */
  lemma NamedLineWords(name: string, c: seq<U64>)
    requires IsWord(name)
    ensures var ts := [name] + Numerals(c);
      forall i :: 0 <= i < |ts| ==> IsWord(ts[i])
  {
    var ts := [name] + Numerals(c);
    forall i | 0 <= i < |ts|
      ensures IsWord(ts[i])
    {
      if i > 0 {
        NumeralIsWord(Decimal(c[i - 1]));
      }
    }
  }

  /** A line that mentions the interface in its first word, and carries
      seventeen numerals after it, all separated by white space, reads rx
      from the 10th token and tx from the 18th. */
  lemma RenderedNetLine(lead: string, name: string, c: seq<U64>, gaps: seq<string>, tail: string)
    requires AllSpace(lead) && IsWord(name) && Contains(name, Interface) && |c| == 17
    requires |gaps| == |c| && Gaps(gaps)
    requires tail == [] || !IsDigit(tail[0])
    ensures var line := lead + Spread([name] + Numerals(c), gaps) + tail;
      Assigned(Interface, NetFormat(), line, 0) == Some(c[8]) && Assigned(Interface, NetFormat(), line, 1) == Some(c[16])
  {
    var line := lead + Spread([name] + Numerals(c), gaps) + tail;
    NetLineScan(lead, name, c, gaps, tail);
    NetLineContains(lead, name, c, gaps, tail);
    AssignedBoth(Interface, NetFormat(), line, c[8], c[16]);
  }

  lemma NetLineScan(lead: string, name: string, c: seq<U64>, gaps: seq<string>, tail: string)
    requires AllSpace(lead) && IsWord(name) && |c| == 17
    requires |gaps| == |c| && Gaps(gaps)
    requires tail == [] || !IsDigit(tail[0])
    ensures Scanf(NetFormat(), lead + Spread([name] + Numerals(c), gaps) + tail) == [c[8], c[16]]
  {
    var ts := [name] + Numerals(c);
    NamedLineWords(name, c);
    NetFieldsRead(ts, c[8], c[16]);
    ScanfSpaced(NetFields(), ts, gaps, lead, tail);
  }

  /** A line whose first word contains the interface name contains it. */
  lemma NetLineContains(lead: string, name: string, c: seq<nat>, gaps: seq<string>, tail: string)
    requires Contains(name, Interface) && |c| > 0 && |gaps| == |c|
    ensures Contains(lead + Spread([name] + Numerals(c), gaps) + tail, Interface)
  {
    var ts := [name] + Numerals(c);
    SpreadCons(ts, gaps, lead, tail);
    assert ts[0] == name && ts[1..] == Numerals(c);
    ContainsWithin(lead, name, gaps[0] + (Spread(Numerals(c), gaps[1..]) + tail), Interface);
  }

  /** On a line in the usual device layout (a word and sixteen counters in
      padded columns) the 10th token is read as rx, and tx, finding no 18th
      token, keeps the value of an earlier line. */
  lemma SixteenCounterLine(lead: string, name: string, c: seq<U64>, gaps: seq<string>, tail: string)
    requires AllSpace(lead) && IsWord(name) && Contains(name, Interface) && |c| == 16
    requires |gaps| == |c| && Gaps(gaps)
    requires AllSpace(tail)
    ensures var line := lead + Spread([name] + Numerals(c), gaps) + tail;
      Assigned(Interface, NetFormat(), line, 0) == Some(c[8]) && Assigned(Interface, NetFormat(), line, 1).None?
  {
    var line := lead + Spread([name] + Numerals(c), gaps) + tail;
    SixteenCounterScan(lead, name, c, gaps, tail);
    NetLineContains(lead, name, c, gaps, tail);
    assert Assigned(Interface, NetFormat(), line, 0) == Some(c[8]);
  }

  lemma SixteenCounterScan(lead: string, name: string, c: seq<U64>, gaps: seq<string>, tail: string)
    requires AllSpace(lead) && IsWord(name) && |c| == 16
    requires |gaps| == |c| && Gaps(gaps)
    requires AllSpace(tail)
    ensures Scanf(NetFormat(), lead + Spread([name] + Numerals(c), gaps) + tail) == [c[8]]
  {
    var ts := [name] + Numerals(c);
    NamedLineWords(name, c);
    NetHeadReads(ts, c[8]);
    ScanfSpacedPrefix(NetHead(), ts, gaps, [Unsigned(W64)], lead, tail);
  }

  /** A source of one rendered device line. */
  lemma OneLineSource(name: string, c: seq<U64>, gaps: seq<string>)
    requires IsWord(name) && Contains(name, Interface) && |c| == 17
    requires |gaps| == |c| && Gaps(gaps)
    ensures var lines := [Spread([name] + Numerals(c), gaps)];
      Received(lines) == c[8] && Transmitted(lines) == c[16]
  {
    var line := Spread([name] + Numerals(c), gaps);
    var none: string := [];
    RenderedNetLine(none, name, c, gaps, none);
    assert none + line + none == line;
    assert [line][..0] == [];
  }

  /** 2048 bytes received since the zeroed start: 2 KiB, then nothing. */
  lemma TwoKibThenZero(name: string, c: seq<U64>, gaps: seq<string>, lines: seq<string>)
    requires IsWord(name) && Contains(name, Interface)
    requires |c| == 17 && c[8] == 2048 && c[16] == 0
    requires |gaps| == |c| && Gaps(gaps)
    requires lines == [Spread([name] + Numerals(c), gaps)]
    ensures var first := NetworkUtilization(NetInitial, Some(lines));
      first.0 == 2.0 && NetworkUtilization(first.1, Some(lines)).0 == 0.0
  {
    OneLineSource(name, c, gaps);
    TwoKibCounters(lines);
  }

  lemma TwoKibCounters(lines: seq<string>)
    requires Received(lines) == 2048 && Transmitted(lines) == 0
    ensures var first := NetworkUtilization(NetInitial, Some(lines));
      first.0 == 2.0 && NetworkUtilization(first.1, Some(lines)).0 == 0.0
  {
    var first := Advance(NetInitial, 2048, 0);
    assert first.0 == Kib(2048 % TWO64) == 2.0;
    assert first.1 == NetState(2048, 0);
    assert Advance(first.1, 2048, 0).0 == Kib(0 % TWO64) == 0.0;
  }

  /** As written: a counter at 2^32 is retained as 0, so a second call on
      the same source reports 4 GiB instead of nothing. */
  lemma TruncatedRetention(name: string, c: seq<U64>, gaps: seq<string>, lines: seq<string>)
    requires IsWord(name) && Contains(name, Interface)
    requires |c| == 17 && c[8] == TWO32 && c[16] == 0
    requires |gaps| == |c| && Gaps(gaps)
    requires lines == [Spread([name] + Numerals(c), gaps)]
    ensures var first := NetworkUtilization(NetInitial, Some(lines));
      NetworkUtilization(first.1, Some(lines)).0 == 4194304.0
  {
    OneLineSource(name, c, gaps);
    TruncatedCounters(lines);
  }

  lemma TruncatedCounters(lines: seq<string>)
    requires Received(lines) == TWO32 && Transmitted(lines) == 0
    ensures var first := NetworkUtilization(NetInitial, Some(lines));
      NetworkUtilization(first.1, Some(lines)).0 == 4194304.0
  {
    var first := Advance(NetInitial, TWO32, 0);
    assert Truncate32(TWO32) == 0 && Truncate32(0) == 0;
    assert first.1 == NetState(0, 0);
    assert Advance(first.1, TWO32, 0).0 == Kib(TWO32 % TWO64) == 4194304.0;
  }

  /** Retained values as wide as the counters they copy. */
  datatype WideState = WideState(rxPrev: U64, txPrev: U64)

  /** The figure and the new retained values when the retained values are
      as wide as the counters. */
  function AdvanceWide(st: WideState, rx: U64, tx: U64): (res: (real, WideState))
    ensures res.0 == Kib((rx + tx - st.rxPrev - st.txPrev) % TWO64)
    ensures res.1 == WideState(rx, tx)
  {
    AddReduced64(rx - st.rxPrev, tx - st.txPrev);
    (Kib(Add64(Sub64(rx, st.rxPrev), Sub64(tx, st.txPrev))), WideState(rx, tx))
  }

  /** The sampler with 64-bit retained values. */
  function NetworkUtilizationWide(st: WideState, src: Option<seq<string>>): (res: (real, WideState))
    ensures src.None? ==> res == (-1.0, st)
    ensures src.Some? ==> res == AdvanceWide(st, Received(src.value), Transmitted(src.value))
  {
    match src
    case None => (-1.0, st)
    case Some(lines) =>
      var t := Loop(Interface, NetFormat(), lines);
      LoopIsLastAssigned(Interface, NetFormat(), lines);
      assert t.first == Received(lines) && t.second == Transmitted(lines);
      AdvanceWide(st, t.first, t.second)
  }

  /** With wide retained values a second call on an unchanged source always
      reports nothing moved. */
  lemma WideUnchangedIsZero(st: WideState, lines: seq<string>)
    ensures var st1 := NetworkUtilizationWide(st, Some(lines)).1;
      NetworkUtilizationWide(st1, Some(lines)) == (0.0, st1)
  {
    AdvanceWideTwice(st, Received(lines), Transmitted(lines));
  }

  lemma AdvanceWideTwice(st: WideState, rx: U64, tx: U64)
    ensures var st1 := AdvanceWide(st, rx, tx).1;
      AdvanceWide(st1, rx, tx) == (0.0, st1)
  {
    var st1 := AdvanceWide(st, rx, tx).1;
    assert rx + tx - st1.rxPrev - st1.txPrev == 0;
    assert AdvanceWide(st1, rx, tx).0 == Kib(0 % TWO64) == 0.0;
  }

  /** Started from the same retained values, both variants report the same
      figure; when the counters fit in 32 bits they also retain the same
      values, so they keep agreeing on the next call. */
  lemma WideAgreesBelow32(st: NetState, lines: seq<string>)
    requires Received(lines) < TWO32 && Transmitted(lines) < TWO32
    ensures NetworkUtilizationWide(WideState(st.rxPrev, st.txPrev), Some(lines)).0
         == NetworkUtilization(st, Some(lines)).0
    ensures var n := NetworkUtilization(st, Some(lines)).1;
      NetworkUtilizationWide(WideState(st.rxPrev, st.txPrev), Some(lines)).1 == WideState(n.rxPrev, n.txPrev)
  {
  }
}
