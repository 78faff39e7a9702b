/** `calculate_io_utilization` (main.c): every line of the disk statistics
    source that contains the device name is scanned as a major and minor
    number, the literal device name and seven counters, of which the 3rd
    (sectors read) and the 7th (sectors written) are assigned. The figure is
    half their sum; nothing is retained between calls, so it is a cumulative
    count rather than a rate. */
module Disk {
  import opened Wrappers
  import opened Machine
  import opened Text
  import opened Scan
  import opened Capture

  /** The device whose lines are scanned. */
  const Device: string := "sda"

  /** `"%*u %*u sda"`: major number, minor number, then the name as literal
      characters. */
  function DeviceFields(): seq<Directive> {
    [SkipUnsigned, SkipUnsigned, Lit(Device)]
  }

  /** `"%*u %*u %lu %*u %*u %*u %lu"`: the counters after the name. */
  function StatFields(): seq<Directive> {
    Repeated(SkipUnsigned, 2) + [Unsigned(W64)] + Repeated(SkipUnsigned, 3) + [Unsigned(W64)]
  }

  function DiskFormat(): seq<Directive> {
    Spaced(DeviceFields() + StatFields())
  }

  /** The `read_sectors` the loop ends with. */
  function SectorsRead(lines: seq<string>): U64 {
    LastAssigned(Device, DiskFormat(), lines, 0)
  }

  /** The `write_sectors` the loop ends with. */
  function SectorsWritten(lines: seq<string>): U64 {
    LastAssigned(Device, DiskFormat(), lines, 1)
  }

  /** `(double)(read_sectors + write_sectors) / 2`: the sum is taken in
      `unsigned long`, so it wraps modulo 2^64 before the halving. */
  function HalfSum(read: U64, write: U64): (r: real)
    ensures read + write < TWO64 ==> r == (read + write) as real / 2.0
    ensures TWO64 <= read + write ==> r == (read + write - TWO64) as real / 2.0
    ensures 0.0 <= r
  {
    Add64(read, write) as real / 2.0
  }

  /** `calculate_io_utilization()`; `None` is a source that cannot be opened. */
  function IoUtilization(src: Option<seq<string>>): (r: real)
    ensures src.None? ==> r == -1.0
    ensures src.Some? ==> r == HalfSum(SectorsRead(src.value), SectorsWritten(src.value))
  {
    match src
    case None => -1.0
    case Some(lines) =>
      var p := Loop(Device, DiskFormat(), lines);
      LoopIsLastAssigned(Device, DiskFormat(), lines);
      assert p.first == SectorsRead(lines) && p.second == SectorsWritten(lines);
      HalfSum(p.first, p.second)
  }

  /** Without a line containing the device name the figure is 0. */
  lemma NoDeviceLine(lines: seq<string>)
    requires forall i :: 0 <= i < |lines| ==> !Contains(lines[i], Device)
    ensures IoUtilization(Some(lines)) == 0.0
  {
    NoKeyLine(Device, DiskFormat(), lines, 0);
    NoKeyLine(Device, DiskFormat(), lines, 1);
  }

  /** The last line that assigns both counters decides the figure when no
      later line contains the device name. */
  lemma LastDiskLineWins(lines: seq<string>, i: nat, read: U64, write: U64)
    requires i < |lines|
    requires Assigned(Device, DiskFormat(), lines[i], 0) == Some(read)
    requires Assigned(Device, DiskFormat(), lines[i], 1) == Some(write)
    requires forall j :: i < j < |lines| ==> !Contains(lines[j], Device)
    ensures IoUtilization(Some(lines)) == HalfSum(read, write)
  {
    LastFullLineWins(Device, DiskFormat(), lines, i, read, write);
  }

  /** The numbers and the name of a device line assign nothing. */
  lemma DeviceFieldsRead(major: nat, minor: nat)
    ensures AllFit(DeviceFields(), DeviceTokens(major, minor))
    ensures Outputs(DeviceFields(), DeviceTokens(major, minor)) == []
  {
  }

  /** Seven numerals assign the 3rd to sectors read and the 7th to sectors
      written. */
  lemma StatFieldsRead(ts: seq<string>, read: U64, write: U64)
    requires |ts| == 7 && forall i :: 0 <= i < |ts| ==> IsNumeral(ts[i])
    requires ts[2] == Decimal(read) && ts[6] == Decimal(write)
    ensures AllFit(StatFields(), ts)
    ensures Outputs(StatFields(), ts) == [read, write]
  {
    var head, last := ts[..6], ts[6..];
    var ds := Repeated(SkipUnsigned, 2) + [Unsigned(W64)] + Repeated(SkipUnsigned, 3);
    ReadSectorsField(head, read);
    FieldOutOfDecimal(W64, write);
    assert last == [Decimal(write)];
    assert AllFit([Unsigned(W64)], last) && Outputs([Unsigned(W64)], last) == [write];
    OutputsAppend(ds, head, [Unsigned(W64)], last);
    assert ts == head + last;
  }

  /** The first six counter fields assign the 3rd to sectors read. */
  lemma ReadSectorsField(ts: seq<string>, read: U64)
    requires |ts| == 6 && forall i :: 0 <= i < |ts| ==> IsNumeral(ts[i])
    requires ts[2] == Decimal(read)
    ensures var ds := Repeated(SkipUnsigned, 2) + [Unsigned(W64)] + Repeated(SkipUnsigned, 3);
      AllFit(ds, ts) && Outputs(ds, ts) == [read]
  {
    SplitAt(ts, 2);
    SkippedNumerals(ts[..2]);
    SkippedNumerals(ts[3..]);
    FieldOutOfDecimal(W64, read);
    FieldAmid(Repeated(SkipUnsigned, 2), ts[..2], Unsigned(W64), ts[2], Repeated(SkipUnsigned, 3), ts[3..]);
  }

  /** The tokens of a whole-disk line: numbers, name, counters. */
  function DiskTokens(major: nat, minor: nat, c: seq<nat>): seq<string> {
    DeviceTokens(major, minor) + Numerals(c)
  }

  /** The numbers and the name. */
  function DeviceTokens(major: nat, minor: nat): seq<string> {
    [Decimal(major), Decimal(minor), Device]
  }

  /** A whole-disk line (the name stands alone) assigns the 3rd counter after
      the name to sectors read and the 7th to sectors written. */
  lemma WholeDiskLine(lead: string, major: nat, minor: nat, c: seq<U64>, gaps: seq<string>, tail: string)
    requires AllSpace(lead) && |c| == 7
    requires |gaps| == |c| + 2 && Gaps(gaps)
    requires tail == [] || !IsDigit(tail[0])
    ensures var line := lead + Spread(DiskTokens(major, minor, c), gaps) + tail;
      Assigned(Device, DiskFormat(), line, 0) == Some(c[2]) &&
      Assigned(Device, DiskFormat(), line, 1) == Some(c[6])
  {
    var line := lead + Spread(DiskTokens(major, minor, c), gaps) + tail;
    WholeDiskScan(lead, major, minor, c, gaps, tail);
    WholeDiskContains(lead, major, minor, c, gaps, tail);
    AssignedBoth(Device, DiskFormat(), line, c[2], c[6]);
  }

  lemma WholeDiskScan(lead: string, major: nat, minor: nat, c: seq<U64>, gaps: seq<string>, tail: string)
    requires AllSpace(lead) && |c| == 7
    requires |gaps| == |c| + 2 && Gaps(gaps)
    requires tail == [] || !IsDigit(tail[0])
    ensures Scanf(DiskFormat(), lead + Spread(DiskTokens(major, minor, c), gaps) + tail) == [c[2], c[6]]
  {
    var head := DeviceTokens(major, minor);
    DeviceFieldsRead(major, minor);
    StatFieldsRead(Numerals(c), c[2], c[6]);
    OutputsAppend(DeviceFields(), head, StatFields(), Numerals(c));
    ScanfSpaced(DeviceFields() + StatFields(), DiskTokens(major, minor, c), gaps, lead, tail);
  }

  /** A whole-disk line is the numbers and the name, a gap, then the
      counters. */
  lemma DiskTokensSplit(major: nat, minor: nat, c: seq<nat>, gaps: seq<string>)
    requires |c| > 0 && |gaps| == |c| + 2
    ensures Spread(DiskTokens(major, minor, c), gaps)
         == Spread(DeviceTokens(major, minor), gaps[..2]) + (gaps[2] + Spread(Numerals(c), gaps[3..]))
  {
    var x, y := Spread(DeviceTokens(major, minor), gaps[..2]), Spread(Numerals(c), gaps[3..]);
    SplitAround(gaps, 2);
    SpreadAppend(DeviceTokens(major, minor), gaps[..2], gaps[2], Numerals(c), gaps[3..]);
    Assoc(x, gaps[2], y);
  }

  lemma WholeDiskContains(lead: string, major: nat, minor: nat, c: seq<U64>, gaps: seq<string>, tail: string)
    requires |c| > 0 && |gaps| == |c| + 2
    ensures Contains(lead + Spread(DiskTokens(major, minor, c), gaps) + tail, Device)
  {
    var x, y := Spread(DeviceTokens(major, minor), gaps[..2]), Spread(Numerals(c), gaps[3..]);
    var m := gaps[2] + y;
    DiskTokensSplit(major, minor, c, gaps);
    DeviceLineContains(lead, major, minor, gaps[..2], m + tail);
    ContainsRegrouped(lead, x, m, tail, Device);
  }

  /** A line whose name starts with the device name contains it. */
  lemma DeviceLineContains(lead: string, major: nat, minor: nat, gaps: seq<string>, rest: string)
    requires |gaps| == 2
    ensures Contains(lead + Spread(DeviceTokens(major, minor), gaps) + rest, Device)
  {
    var a, b := Decimal(major), Decimal(minor);
    assert gaps == [gaps[0], gaps[1]];
    SpreadThree(a, b, Device, gaps[0], gaps[1]);
    var pre := lead + (a + gaps[0] + b + gaps[1]);
    Regroup3(lead, a + gaps[0] + b + gaps[1], Device, rest);
    ContainsInfix(pre, Device, rest);
  }

  /** A partition line (the name is the device name with the partition
      number glued to it): the literal matches the device name, the white
      space after it matches nothing, and the first `%*u` after the name
      reads the partition number. Every counter shifts by one place: sectors
      read gets the 2nd counter, sectors written the 6th. */
  lemma PartitionLine(lead: string, major: nat, minor: nat, part: nat, c: seq<U64>, gaps: seq<string>, tail: string)
    requires AllSpace(lead) && |c| == 6
    requires |gaps| == |c| + 2 && Gaps(gaps)
    requires tail == [] || !IsDigit(tail[0])
    ensures var line := lead + Spread(DeviceTokens(major, minor), gaps[..2]) + Spread([Decimal(part)] + Numerals(c), gaps[2..]) + tail;
      Assigned(Device, DiskFormat(), line, 0) == Some(c[1]) &&
      Assigned(Device, DiskFormat(), line, 1) == Some(c[5])
  {
    var x, y := Spread(DeviceTokens(major, minor), gaps[..2]), Spread([Decimal(part)] + Numerals(c), gaps[2..]);
    var line := lead + x + y + tail;
    PartitionScan(lead, major, minor, part, c, gaps, tail);
    DeviceLineContains(lead, major, minor, gaps[..2], y + tail);
    assert lead + x + (y + tail) == line;
    AssignedBoth(Device, DiskFormat(), line, c[1], c[5]);
  }

  lemma PartitionScan(lead: string, major: nat, minor: nat, part: nat, c: seq<U64>, gaps: seq<string>, tail: string)
    requires AllSpace(lead) && |c| == 6
    requires |gaps| == |c| + 2 && Gaps(gaps)
    requires tail == [] || !IsDigit(tail[0])
    ensures Scanf(DiskFormat(), lead + Spread(DeviceTokens(major, minor), gaps[..2]) + Spread([Decimal(part)] + Numerals(c), gaps[2..]) + tail)
         == [c[1], c[5]]
  {
    var ts := [Decimal(part)] + Numerals(c);
    DeviceFieldsRead(major, minor);
    StatFieldsRead(ts, c[1], c[5]);
    assert Gaps(gaps[..2]) && Gaps(gaps[2..]);
    ScanfGlued(DeviceFields(), DeviceTokens(major, minor), gaps[..2], StatFields(), ts, gaps[2..], lead, tail);
  }

  /** A whole-disk line with 100 sectors read and 50 written: 75, on every
      call, since nothing is subtracted. */
  lemma SeventyFive(lead: string, major: nat, minor: nat, c: seq<U64>, gaps: seq<string>, tail: string, lines: seq<string>)
    requires AllSpace(lead) && |c| == 7 && c[2] == 100 && c[6] == 50
    requires |gaps| == |c| + 2 && Gaps(gaps)
    requires tail == [] || !IsDigit(tail[0])
    requires lines == [lead + Spread(DiskTokens(major, minor, c), gaps) + tail]
    ensures IoUtilization(Some(lines)) == 75.0
  {
    WholeDiskLine(lead, major, minor, c, gaps, tail);
    LastDiskLineWins(lines, 0, 100, 50);
    assert HalfSum(100, 50) == 75.0;
  }

  /** A whole-disk line followed by the line of one of its partitions, each
      with its own leading white space and gaps between tokens. */
  function DiskThenPartition(major: nat, minor: nat, part: nat, c: seq<nat>, d: seq<nat>,
                             lc: string, gc: seq<string>, ld: string, gd: seq<string>): seq<string>
    requires |gc| == |c| + 2 && |gd| == |d| + 2
  {
    [lc + Spread(DiskTokens(major, minor, c), gc),
     ld + Spread(DeviceTokens(major, minor + part), gd[..2]) + Spread([Decimal(part)] + Numerals(d), gd[2..])]
  }

  /** As written: in the usual layout a partition line follows the disk's
      own line, so the figure comes from the partition line with its
      counters shifted by one place, whatever the disk's counters are. */
  lemma PartitionHidesDisk(major: nat, minor: nat, part: nat, c: seq<U64>, d: seq<U64>,
                           lc: string, gc: seq<string>, ld: string, gd: seq<string>)
    requires |c| == 7 && |d| == 6
    requires |gc| == |c| + 2 && |gd| == |d| + 2 && Gaps(gd) && AllSpace(ld)
    ensures IoUtilization(Some(DiskThenPartition(major, minor, part, c, d, lc, gc, ld, gd))) == HalfSum(d[1], d[5])
  {
    var lines := DiskThenPartition(major, minor, part, c, d, lc, gc, ld, gd);
    var none: string := [];
    PartitionLine(ld, major, minor + part, part, d, gd, none);
    assert lines[1] + none == lines[1];
    LastDiskLineWins(lines, 1, d[1], d[5]);
  }

  /** The concrete case, in the kernel's layout: a disk with 100 sectors
      read and 50 written and an idle first partition reports 0 instead of
      75. */
  lemma PartitionHidesDiskExample(c: seq<U64>, d: seq<U64>)
    requires c == [0, 0, 100, 0, 0, 0, 50] && d == [0, 0, 0, 0, 0, 0]
    ensures IoUtilization(Some(DiskThenPartition(8, 0, 1, c, d, "   ", ["       "] + Blanks(8), "   ", ["       "] + Blanks(7)))) == 0.0
  {
    var gd := ["       "] + Blanks(7);
    assert gd[0] == "       " && forall i :: 1 <= i < |gd| ==> gd[i] == Blanks(7)[i - 1];
    PartitionHidesDisk(8, 0, 1, c, d, "   ", ["       "] + Blanks(8), "   ", gd);
  }

  /** The name followed by a blank: it occurs in the whole-disk line and not
      in a partition line. */
  const WholeName: string := Device + " "

  /** The sampler selecting only lines that contain the name followed by a
      blank, which is what the fixed format evidently expects. */
  function IoUtilizationWhole(src: Option<seq<string>>): (r: real)
    ensures src.None? ==> r == -1.0
    ensures src.Some? ==> r == HalfSum(
      LastAssigned(WholeName, DiskFormat(), src.value, 0),
      LastAssigned(WholeName, DiskFormat(), src.value, 1))
  {
    match src
    case None => -1.0
    case Some(lines) =>
      var p := Loop(WholeName, DiskFormat(), lines);
      LoopIsLastAssigned(WholeName, DiskFormat(), lines);
      HalfSum(p.first, p.second)
  }

  /** With the corrected selection the disk's own counters decide the
      figure, whatever its partitions hold, provided a blank follows the
      name on the disk's line, as the kernel prints it. */
  lemma WholeDiskWins(major: nat, minor: nat, part: nat, c: seq<U64>, d: seq<U64>,
                      lc: string, gc: seq<string>, ld: string, gd: seq<string>)
    requires |c| == 7 && |d| == 6
    requires |gc| == |c| + 2 && Gaps(gc) && gc[2][0] == ' ' && AllSpace(lc)
    requires |gd| == |d| + 2 && Gaps(gd) && AllSpace(ld)
    ensures IoUtilizationWhole(Some(DiskThenPartition(major, minor, part, c, d, lc, gc, ld, gd))) == HalfSum(c[2], c[6])
  {
    var lines := DiskThenPartition(major, minor, part, c, d, lc, gc, ld, gd);
    var none: string := [];
    WholeDiskScan(lc, major, minor, c, gc, none);
    assert lines[0] + none == lines[0];
    WholeNameInDiskLine(lc, major, minor, c, gc);
    AssignedBoth(WholeName, DiskFormat(), lines[0], c[2], c[6]);
    WholeNameNotInPartitionLine(ld, major, minor + part, part, d, gd);
    LastFullLineWins(WholeName, DiskFormat(), lines, 0, c[2], c[6]);
  }

  lemma WholeNameInDiskLine(lead: string, major: nat, minor: nat, c: seq<U64>, gaps: seq<string>)
    requires |c| > 0 && |gaps| == |c| + 2 && |gaps[2]| > 0 && gaps[2][0] == ' '
    ensures Contains(lead + Spread(DiskTokens(major, minor, c), gaps), WholeName)
  {
    var a, b, y := Decimal(major), Decimal(minor), Spread(Numerals(c), gaps[3..]);
    DiskTokensSplit(major, minor, c, gaps);
    assert gaps[..2] == [gaps[0], gaps[1]];
    SpreadThree(a, b, Device, gaps[0], gaps[1]);
    var pre := lead + a + gaps[0] + b + gaps[1];
    assert gaps[2] == " " + gaps[2][1..];
    assert lead + Spread(DiskTokens(major, minor, c), gaps) == pre + WholeName + (gaps[2][1..] + y);
    ContainsInfix(pre, WholeName, gaps[2][1..] + y);
  }

  lemma WholeNameNotInPartitionLine(lead: string, major: nat, minor: nat, part: nat, d: seq<U64>, gaps: seq<string>)
    requires AllSpace(lead) && |d| > 0 && |gaps| == |d| + 2 && Gaps(gaps)
    ensures !Contains(lead + Spread(DeviceTokens(major, minor), gaps[..2]) + Spread([Decimal(part)] + Numerals(d), gaps[2..]), WholeName)
  {
    var q := Spread([Decimal(part)] + Numerals(d), gaps[2..]);
    var pre := NumbersBeforeName(lead, major, minor, gaps[..2]);
    GluedNameAfter(part, d, gaps[2..]);
    NotContainsAfterFirst('s', "da" + q, WholeName);
    NotContainsAfterPrefix(pre, ['s'] + ("da" + q), WholeName);
  }

  /** What precedes the name on a line: white space, numerals and gaps, with
      no `s` among them. */
  lemma NumbersBeforeName(lead: string, major: nat, minor: nat, gaps: seq<string>) returns (pre: string)
    requires AllSpace(lead) && |gaps| == 2 && Gaps(gaps)
    ensures 's' !in pre
    ensures forall rest :: lead + Spread(DeviceTokens(major, minor), gaps) + rest == pre + (['s'] + ("da" + rest))
  {
    var a, b := Decimal(major), Decimal(minor);
    assert gaps == [gaps[0], gaps[1]];
    SpreadThree(a, b, Device, gaps[0], gaps[1]);
    pre := lead + a + gaps[0] + b + gaps[1];
    NumeralAvoids(a, 's');
    NumeralAvoids(b, 's');
    SpaceAvoids(lead, 's');
    SpaceAvoids(gaps[0], 's');
    SpaceAvoids(gaps[1], 's');
    forall rest: string
      ensures lead + Spread(DeviceTokens(major, minor), gaps) + rest == pre + (['s'] + ("da" + rest))
    {
      assert Device == ['s'] + "da";
    }
  }

  /** After the name on a partition line come digits and white space only,
      and the partition number right away. */
  lemma GluedNameAfter(part: nat, d: seq<U64>, gaps: seq<string>)
    requires |gaps| == |d| && Gaps(gaps)
    ensures var q := Spread([Decimal(part)] + Numerals(d), gaps);
      's' !in "da" + q && !OccursAt(['s'] + ("da" + q), WholeName, 0)
  {
    var ts := [Decimal(part)] + Numerals(d);
    var q := Spread(ts, gaps);
    SpreadNumeralsAvoid(ts, gaps, 's');
    SpreadStartsWith(ts, gaps);
    assert (['s'] + ("da" + q))[3] == Decimal(part)[0];
  }
}
