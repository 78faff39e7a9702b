/** `calculate_memory_utilization` (main.c): every line of the memory
    statistics source is matched against the keys `MemTotal`, `MemFree` and
    `Active` in that order; the first key found selects the variable the line
    assigns through `"%*s %lu"`. The figure is the used share of the total. */
module Memory {
  import opened Wrappers
  import opened Machine
  import opened Text
  import opened Scan
  import opened Lines

  /** The three `unsigned long` locals, zero-initialised. */
  datatype MemCounters = MemCounters(total: U64, free: U64, active: U64)

  const Zero: MemCounters := MemCounters(0, 0, 0)

  datatype MemKey = MemTotal | MemFree | Active

  /** The `if / else if` chain: the first key whose name occurs in the line. */
  function KeyOf(line: string): Option<MemKey> {
    if Contains(line, "MemTotal") then Some(MemTotal)
    else if Contains(line, "MemFree") then Some(MemFree)
    else if Contains(line, "Active") then Some(Active)
    else None
  }

  /** `"%*s %lu"` */
  function KbFormat(): seq<Directive> {
    Spaced([SkipToken, Unsigned(W64)])
  }

  /** The value the line's second token assigns, if that conversion succeeds. */
  function ReadKb(line: string): Option<U64> {
    var vals := Scanf(KbFormat(), line);
    if |vals| == 1 then Some(vals[0]) else None
  }

  /** What the line assigns to the variable of `key`. */
  function Reading(line: string, key: MemKey): Option<U64> {
    if KeyOf(line) == Some(key) then ReadKb(line) else None
  }

  /** Reference meaning of the loop: the variable of `key` ends with the
      value of the last line that assigns it, or 0 when none does. */
  function LastReading(lines: seq<string>, key: MemKey): U64
    decreases |lines|
  {
    if lines == [] then 0
    else match Reading(lines[|lines| - 1], key)
      case Some(x) => x
      case None => LastReading(lines[..|lines| - 1], key)
  }

  /** One pass of the loop body. */
  function UpdateLine(c: MemCounters, line: string): (r: MemCounters)
    ensures Contains(line, "MemTotal") ==> r.free == c.free && r.active == c.active
    ensures Contains(line, "MemFree") ==> r.active == c.active
    ensures !Contains(line, "MemTotal") ==> r.total == c.total
    ensures r.total == Reading(line, MemTotal).GetOr(c.total)
    ensures r.free == Reading(line, MemFree).GetOr(c.free)
    ensures r.active == Reading(line, Active).GetOr(c.active)
  {
    match KeyOf(line)
    case None => c
    case Some(key) =>
      match ReadKb(line)
      case None => c
      case Some(x) =>
        match key
        case MemTotal => c.(total := x)
        case MemFree => c.(free := x)
        case Active => c.(active := x)
  }

  /** The loop leaves each variable with its last reading. */
  lemma {:induction false} MemFoldIsLastReading(lines: seq<string>)
    ensures var c := Fold(lines, Zero, UpdateLine);
      c.total == LastReading(lines, MemTotal) &&
      c.free == LastReading(lines, MemFree) &&
      c.active == LastReading(lines, Active)
    decreases |lines|
  {
    if lines != [] {
      var init := lines[..|lines| - 1];
      var l := lines[|lines| - 1];
      assert lines == init + [l];
      FoldSnoc(init, l, Zero, UpdateLine);
      MemFoldIsLastReading(init);
    }
  }

  /** `((double)(total - free) / total) * 100.0` for a nonzero total. */
  function UsedShare(used: nat, total: nat): real
    requires total > 0
  {
    used as real / total as real * 100.0
  }

  /** The figure for a total and a free amount: -1 for a zero total, else
      the used share, where `total - free` is taken in `unsigned long` and
      so wraps modulo 2^64. */
  function Figure(t: U64, f: U64): (r: real)
    ensures t == 0 ==> r == -1.0
    ensures t != 0 ==> r == UsedShare((t - f) % TWO64, t)
  {
    if t == 0 then -1.0 else UsedShare(Sub64(t, f), t)
  }

  /** `calculate_memory_utilization()`; `None` is a source that cannot be
      opened. */
  function MemoryUtilization(src: Option<seq<string>>): (r: real)
    ensures src.None? ==> r == -1.0
    ensures src.Some? ==> r == Figure(LastReading(src.value, MemTotal), LastReading(src.value, MemFree))
  {
    match src
    case None => -1.0
    case Some(lines) =>
      var c := Fold(lines, Zero, UpdateLine);
      MemFoldIsLastReading(lines);
      Figure(c.total, c.free)
  }

  /** A line that does not assign the variable of `key` can be dropped from
      anywhere without changing that variable's final value. */
  lemma {:induction false} LastReadingSkips(a: seq<string>, l: string, b: seq<string>, key: MemKey)
    requires Reading(l, key).None?
    ensures LastReading(a + [l] + b, key) == LastReading(a + b, key)
    decreases |b|
  {
    if b == [] {
      assert a + [l] + b == a + [l];
      assert (a + [l])[..|a|] == a;
      assert a + b == a;
    } else {
      var b' := b[..|b| - 1];
      var z := b[|b| - 1];
      assert a + [l] + b == (a + [l] + b') + [z];
      assert (a + [l] + b)[..|a + [l] + b| - 1] == a + [l] + b';
      assert a + b == (a + b') + [z];
      assert (a + b)[..|a + b| - 1] == a + b';
      LastReadingSkips(a, l, b', key);
    }
  }

  /** What an `Active` line reads never changes the figure. */
  lemma ActiveNeverMatters(a: seq<string>, l: string, b: seq<string>)
    requires !Contains(l, "MemTotal") && !Contains(l, "MemFree")
    ensures MemoryUtilization(Some(a + [l] + b)) == MemoryUtilization(Some(a + b))
  {
    LastReadingSkips(a, l, b, MemTotal);
    LastReadingSkips(a, l, b, MemFree);
  }

  /** Among the lines that assign a variable, the last one wins. */
  lemma LastLineWins(a: seq<string>, l: string, b: seq<string>, key: MemKey, x: U64)
    requires Reading(l, key) == Some(x)
    requires forall i :: 0 <= i < |b| ==> Reading(b[i], key).None?
    ensures LastReading(a + [l] + b, key) == x
  {
    LastReadingNone(b, key);
    LastReadingAfter(a + [l], b, key);
    assert (a + [l])[..|a|] == a;
  }

  /** Lines that do not assign the variable leave its reading at 0. */
  lemma {:induction false} LastReadingNone(b: seq<string>, key: MemKey)
    requires forall i :: 0 <= i < |b| ==> Reading(b[i], key).None?
    ensures LastReading(b, key) == 0
    decreases |b|
  {
    if b != [] {
      assert Reading(b[|b| - 1], key).None?;
      LastReadingNone(b[..|b| - 1], key);
    }
  }

  /** Trailing lines that do not assign the variable do not change it. */
  lemma {:induction false} LastReadingAfter(a: seq<string>, b: seq<string>, key: MemKey)
    requires forall i :: 0 <= i < |b| ==> Reading(b[i], key).None?
    ensures LastReading(a + b, key) == LastReading(a, key)
    decreases |b|
  {
    if b == [] {
      assert a + b == a;
    } else {
      var b' := b[..|b| - 1];
      assert a + b == (a + b') + [b[|b| - 1]];
      assert (a + b)[..|a + b| - 1] == a + b';
      LastReadingAfter(a, b', key);
    }
  }

  /** With no more free than total memory the figure is a percentage; more
      free than total wraps the subtraction and overshoots 100. */
  lemma MemoryBounds(lines: seq<string>)
    ensures var t := LastReading(lines, MemTotal);
      var f := LastReading(lines, MemFree);
      var r := MemoryUtilization(Some(lines));
      (0 < t && f <= t ==> 0.0 <= r <= 100.0) &&
      (0 < t < f ==> r > 100.0)
  {
    FigureBounds(LastReading(lines, MemTotal), LastReading(lines, MemFree));
  }

  lemma FigureBounds(t: U64, f: U64)
    ensures 0 < t && f <= t ==> 0.0 <= Figure(t, f) <= 100.0
    ensures 0 < t < f ==> Figure(t, f) > 100.0
  {
    if 0 < t && f <= t {
      assert (t - f) % TWO64 == t - f;
      UsedShareBounded(t - f, t);
    }
    if 0 < t < f {
      assert (t - f) % TWO64 == TWO64 + t - f;
      UsedShareAbove(TWO64 + t - f, t);
    }
  }

  lemma UsedShareBounded(used: nat, total: nat)
    requires 0 < total && used <= total
    ensures 0.0 <= UsedShare(used, total) <= 100.0
  {
    var q := used as real / total as real;
    assert q * total as real == used as real;
    assert q <= 1.0;
  }

  lemma UsedShareAbove(used: nat, total: nat)
    requires 0 < total < used
    ensures UsedShare(used, total) > 100.0
  {
    var q := used as real / total as real;
    assert q * total as real == used as real;
    assert q > 1.0;
  }

  /** A line printed as a word, white space and a decimal numeral reads back
      as that number. */
  lemma RenderedKbLine(key: string, gap: string, n: U64, tail: string)
    requires IsWord(key) && |gap| > 0 && AllSpace(gap)
    requires tail == [] || !IsDigit(tail[0])
    ensures ReadKb(key + gap + Decimal(n) + tail) == Some(n)
  {
    var ts := [key, Decimal(n)];
    KbFieldsRead(key, n);
    SpreadPair(key, gap, Decimal(n));
    var none: string := [];
    ScanfSpaced([SkipToken, Unsigned(W64)], ts, [gap], none, tail);
    assert none + Spread(ts, [gap]) + tail == key + gap + Decimal(n) + tail;
  }

  lemma KbFieldsRead(key: string, n: U64)
    requires IsWord(key)
    ensures AllFit([SkipToken, Unsigned(W64)], [key, Decimal(n)])
    ensures Outputs([SkipToken, Unsigned(W64)], [key, Decimal(n)]) == [n]
  {
    var ds := [SkipToken, Unsigned(W64)];
    var ts := [key, Decimal(n)];
    assert ds[1..] == [Unsigned(W64)] && ts[1..] == [Decimal(n)];
    assert AllFit(ds[1..][1..], ts[1..][1..]);
    FieldOutOfDecimal(W64, n);
  }

  /** The key of a rendered line, then the rest of it. */
  lemma SplitKey(key: string, gap: string, x: string, tail: string)
    ensures key + ":" + gap + x + tail == key + (":" + gap + x + tail)
  {
  }

  /** A rendered `MemTotal` line assigns the total. */
  lemma MemTotalLine(gap: string, n: U64, tail: string)
    requires |gap| > 0 && AllSpace(gap)
    requires tail == [] || !IsDigit(tail[0])
    ensures Reading("MemTotal:" + gap + Decimal(n) + tail, MemTotal) == Some(n)
  {
    assert "MemTotal:" == "MemTotal" + ":";
    SplitKey("MemTotal", gap, Decimal(n), tail);
    RenderedKbLine("MemTotal:", gap, n, tail);
    ContainsPrefix("MemTotal", ":" + gap + Decimal(n) + tail);
  }

  /** A rendered `MemFree` line assigns the free amount and not the total. */
  lemma MemFreeLine(gap: string, n: U64, tail: string)
    requires |gap| > 0 && AllSpace(gap)
    requires tail == [] || !IsDigit(tail[0])
    requires 'M' !in tail
    ensures Reading("MemFree:" + gap + Decimal(n) + tail, MemFree) == Some(n)
    ensures Reading("MemFree:" + gap + Decimal(n) + tail, MemTotal).None?
  {
    assert "MemFree:" == "MemFree" + ":";
    SplitKey("MemFree", gap, Decimal(n), tail);
    RenderedKbLine("MemFree:", gap, n, tail);
    NumeralAvoids(Decimal(n), 'M');
    SpaceAvoids(gap, 'M');
    FreeLineKey(":" + gap + Decimal(n) + tail);
  }

  lemma FreeLineKey(rest: string)
    requires 'M' !in rest
    ensures Contains("MemFree" + rest, "MemFree")
    ensures !Contains("MemFree" + rest, "MemTotal")
  {
    ContainsPrefix("MemFree", rest);
    assert "MemFree" + rest == ['M'] + ("emFree" + rest);
    assert !OccursAt("MemFree" + rest, "MemTotal", 0) by {
      assert ("MemFree" + rest)[3] == 'F';
    }
    NotContainsAfterFirst('M', "emFree" + rest, "MemTotal");
  }

  /** A source listing 1000 kB in total and 400 kB free is 60 percent used. */
  lemma SixtyPercent(t: U64, f: U64)
    requires t == 1000 && f == 400
    ensures MemoryUtilization(Some(["MemTotal:" + " " + Decimal(t) + " kB", "MemFree:" + " " + Decimal(f) + " kB"])) == 60.0
  {
    var lines := ["MemTotal:" + " " + Decimal(t) + " kB", "MemFree:" + " " + Decimal(f) + " kB"];
    MemTotalLine(" ", t, " kB");
    MemFreeLine(" ", f, " kB");
    assert lines[..1] == [lines[0]];
    assert LastReading(lines, MemTotal) == t;
    assert LastReading(lines, MemFree) == f;
    assert (t - f) % TWO64 == 600;
    assert Figure(t, f) == UsedShare(600, 1000) == 60.0;
  }
}
