/** A model of the `sscanf` directives the samplers use, following the C
    standard's directive-by-directive execution and the GNU C library's
    integer conversion:

    - a white-space character in the format skips any amount (possibly none)
      of white space in the input;
    - ordinary characters must match the input exactly, else scanning stops;
    - `%s` and `%u` first skip white space; `%s` then reads a non-empty run of
      non-white-space characters, `%u` an optional sign and a non-empty run of
      decimal digits;
    - a `*` suppresses the assignment;
    - the first directive that fails ends the scan, and the variables of the
      remaining conversions keep whatever value they had.

    `Scanf` returns the values that were assigned, in order; the C return
    value is their number (or EOF, which every caller here treats like a short
    count). */
module Scan {
  import opened Wrappers
  import opened Machine
  import opened Text

  /** `%u` stores into an `unsigned`, `%lu` into an `unsigned long`. */
  datatype Width = W32 | W64

  datatype Directive =
    | Space                   // a white-space character of the format
    | Lit(w: string)          // ordinary characters, matched one by one
    | SkipToken               // %*s
    | SkipUnsigned            // %*u
    | Unsigned(width: Width)  // %u (W32) or %lu (W64)

  /** What is left of the input after a directive, and what it assigned. */
  datatype Scanned = Scanned(rest: string, out: seq<U64>)

  predicate IsSuffix(r: string, s: string) {
    |r| <= |s| && r == s[|s| - |r|..]
  }

  /** Drops the leading white space. */
  function SkipSpaces(s: string): (r: string)
    ensures IsSuffix(r, s)
    ensures AllSpace(s[..|s| - |r|])
    ensures r == [] || !IsSpace(r[0])
    decreases |s|
  {
    if s != [] && IsSpace(s[0]) then SkipSpaces(s[1..]) else s
  }

  /** Length of the longest prefix free of white space. */
  function WordLength(s: string): (n: nat)
    ensures n <= |s|
    ensures forall i :: 0 <= i < n ==> !IsSpace(s[i])
    ensures n == |s| || IsSpace(s[n])
    decreases |s|
  {
    if s == [] || IsSpace(s[0]) then 0 else 1 + WordLength(s[1..])
  }

  /** Length of the longest prefix of decimal digits. */
  function DigitsLength(s: string): (n: nat)
    ensures n <= |s|
    ensures AllDigits(s[..n])
    ensures n == |s| || !IsDigit(s[n])
    decreases |s|
  {
    if s == [] || !IsDigit(s[0]) then 0
    else
      var n := 1 + DigitsLength(s[1..]);
      assert s[..n] == [s[0]] + s[1..][..n - 1];
      n
  }

  /** `strtoul` on a sign and a magnitude: an out-of-range magnitude gives
      ULONG_MAX, and a minus sign negates modulo 2^64. */
  function Strtoul(negative: bool, magnitude: nat): (r: U64)
    ensures magnitude <= MAX64 && !negative ==> r == magnitude
    ensures magnitude <= MAX64 && negative ==> (r + magnitude) % TWO64 == 0
    ensures MAX64 < magnitude ==> r == MAX64
  {
    if MAX64 < magnitude then MAX64
    else if negative then (TWO64 - magnitude) % TWO64
    else magnitude
  }

  /** The conversion to the width of the receiving variable. */
  function Narrow(width: Width, v: U64): (r: U64)
    ensures width == W32 ==> r < TWO32 && (v - r) % TWO32 == 0
    ensures width == W64 ==> r == v
  {
    match width
    case W32 => v % TWO32
    case W64 => v
  }

  /** The number part of `%u`: an optional sign, then at least one digit. */
  function ReadUnsigned(s: string): (r: Option<(U64, string)>)
    ensures r.Some? ==> |r.value.1| < |s| && IsSuffix(r.value.1, s)
  {
    var signed := s != [] && (s[0] == '+' || s[0] == '-');
    var body := if signed then s[1..] else s;
    var n := DigitsLength(body);
    if n == 0 then None
    else Some((Strtoul(signed && s[0] == '-', NumeralValue(body[..n])), body[n..]))
  }

  /** Executes one directive. */
  function Exec(d: Directive, s: string): (r: Option<Scanned>)
    ensures r.Some? ==> |r.value.rest| <= |s|
    ensures r.Some? ==> |r.value.out| == (if d.Unsigned? then 1 else 0)
    ensures r.Some? && d == Unsigned(W32) ==> r.value.out[0] < TWO32
    ensures d.Space? ==> r.Some?
  {
    match d
    case Space => Some(Scanned(SkipSpaces(s), []))
    case Lit(w) =>
      if |w| <= |s| && s[..|w|] == w then Some(Scanned(s[|w|..], [])) else None
    case SkipToken =>
      var t := SkipSpaces(s);
      var n := WordLength(t);
      if n == 0 then None else Some(Scanned(t[n..], []))
    case SkipUnsigned =>
      (match ReadUnsigned(SkipSpaces(s))
       case None => None
       case Some(vr) => Some(Scanned(vr.1, [])))
    case Unsigned(width) =>
      (match ReadUnsigned(SkipSpaces(s))
       case None => None
       case Some(vr) => Some(Scanned(vr.1, [Narrow(width, vr.0)])))
  }

  /** Number of assigning conversions in a format. */
  function Conversions(fmt: seq<Directive>): nat {
    if fmt == [] then 0 else (if fmt[0].Unsigned? then 1 else 0) + Conversions(fmt[1..])
  }

  /** Every assigning conversion of the format stores into an `unsigned`. */
  predicate Only32(fmt: seq<Directive>) {
    forall d | d in fmt :: d.Unsigned? ==> d.width == W32
  }

  /** `sscanf(s, fmt, ...)`: the values assigned, in order. */
  function Scanf(fmt: seq<Directive>, s: string): (vals: seq<U64>)
    ensures |vals| <= Conversions(fmt)
    ensures Only32(fmt) ==> forall i :: 0 <= i < |vals| ==> vals[i] < TWO32
    decreases |fmt|
  {
    if fmt == [] then []
    else
      match Exec(fmt[0], s)
      case None => []
      case Some(sc) =>
        assert Only32(fmt) ==> Only32(fmt[1..]) by {
          forall d | d in fmt[1..] ensures d in fmt { }
        }
        sc.out + Scanf(fmt[1..], sc.rest)
  }

  /** Runs a whole format that is known to succeed: the tool for reasoning
      about a prefix of a format. */
  function Run(fmt: seq<Directive>, s: string): Option<Scanned>
    decreases |fmt|
  {
    if fmt == [] then Some(Scanned(s, []))
    else
      match Exec(fmt[0], s)
      case None => None
      case Some(sc) =>
        match Run(fmt[1..], sc.rest)
        case None => None
        case Some(sc2) => Some(Scanned(sc2.rest, sc.out + sc2.out))
  }

  /** When a format prefix runs to completion, `sscanf` with a longer format
      assigns its values and carries on from where it stopped. */
  lemma {:induction false} ScanfAfterRun(f: seq<Directive>, g: seq<Directive>, s: string)
    requires Run(f, s).Some?
    ensures Scanf(f + g, s) == Run(f, s).value.out + Scanf(g, Run(f, s).value.rest)
    decreases |f|
  {
    if f != [] {
      var sc := Exec(f[0], s).value;
      var sc2 := Run(f[1..], sc.rest).value;
      assert Run(f, s).value == Scanned(sc2.rest, sc.out + sc2.out);
      assert (f + g)[0] == f[0];
      assert (f + g)[1..] == f[1..] + g;
      assert Scanf(f + g, s) == sc.out + Scanf(f[1..] + g, sc.rest);
      ScanfAfterRun(f[1..], g, sc.rest);
    } else {
      assert f + g == g;
    }
  }

  /** A white-space directive before a non-white-space character does nothing. */
  lemma SpaceBeforeWord(s: string)
    requires s == [] || !IsSpace(s[0])
    ensures Exec(Space, s) == Some(Scanned(s, []))
  {
  }

  lemma {:induction false} SkipSpacesOver(lead: string, x: string)
    requires AllSpace(lead)
    requires x == [] || !IsSpace(x[0])
    ensures SkipSpaces(lead + x) == x
    decreases |lead|
  {
    if lead != [] {
      assert (lead + x)[1..] == lead[1..] + x;
      SkipSpacesOver(lead[1..], x);
    }
  }

  /** The fields of a scanned line, separated by single white-space directives
      (the shape of every format in main.c). */
  function Spaced(fields: seq<Directive>): (fmt: seq<Directive>)
    requires |fields| > 0
    ensures |fmt| == 2 * |fields| - 1
    ensures fmt[0] == fields[0]
    ensures forall d | d in fmt :: d == Space || d in fields
    decreases |fields|
  {
    if |fields| == 1 then fields else [fields[0], Space] + Spaced(fields[1..])
  }

  /** Tokens with `gaps[i]` between `ts[i]` and `ts[i + 1]`: how a rendered
      line looks. */
  function Spread(ts: seq<string>, gaps: seq<string>): string
    requires |ts| > 0 && |gaps| == |ts| - 1
    decreases |ts|
  {
    if |ts| == 1 then ts[0] else ts[0] + gaps[0] + Spread(ts[1..], gaps[1..])
  }

  /** Every separator is a non-empty run of white space, as in the padded
      columns of the kernel's statistics files. */
  predicate Gaps(gaps: seq<string>) {
    forall i :: 0 <= i < |gaps| ==> |gaps[i]| > 0 && AllSpace(gaps[i])
  }

  /** `n` single blanks. */
  function Blanks(n: nat): (gaps: seq<string>)
    ensures |gaps| == n && Gaps(gaps)
    ensures forall i :: 0 <= i < n ==> gaps[i] == " "
  {
    seq(n, _ => " ")
  }

  /** The token `t` is read in full by field `d`. */
  predicate Fits(d: Directive, t: string) {
    match d
    case Space => false
    case Lit(w) => t == w && |w| > 0 && !IsSpace(w[0])
    case SkipToken => IsWord(t)
    case SkipUnsigned => IsNumeral(t)
    case Unsigned(_) => IsNumeral(t)
  }

  /** Field `d` stops reading right before `tail`. */
  predicate Stops(d: Directive, tail: string) {
    match d
    case Lit(_) => true
    case SkipToken => tail == [] || IsSpace(tail[0])
    case _ => tail == [] || !IsDigit(tail[0])
  }

  /** What field `d` assigns after reading the numeral or word `t`. */
  function FieldOut(d: Directive, t: string): seq<U64>
    requires Fits(d, t)
  {
    if d.Unsigned? then [Narrow(d.width, Strtoul(false, NumeralValue(t)))] else []
  }

  /** Each token fits the field at the same position. */
  predicate AllFit(ds: seq<Directive>, ts: seq<string>)
    decreases |ds|
  {
    |ds| == |ts| && (ds == [] || (Fits(ds[0], ts[0]) && AllFit(ds[1..], ts[1..])))
  }

  /** The values the fields assign, in order. */
  function Outputs(ds: seq<Directive>, ts: seq<string>): seq<U64>
    requires AllFit(ds, ts)
    decreases |ds|
  {
    if ds == [] then [] else FieldOut(ds[0], ts[0]) + Outputs(ds[1..], ts[1..])
  }

  lemma WordLengthOf(t: string, tail: string)
    requires IsWord(t)
    requires tail == [] || IsSpace(tail[0])
    ensures WordLength(t + tail) == |t|
  {
    var x := t + tail;
    assert forall i :: 0 <= i < |t| ==> x[i] == t[i];
    assert |x| == |t| || x[|t|] == tail[0];
  }

  lemma DigitsLengthOf(t: string, tail: string)
    requires IsNumeral(t)
    requires tail == [] || !IsDigit(tail[0])
    ensures DigitsLength(t + tail) == |t|
  {
    var x := t + tail;
    assert forall i :: 0 <= i < |t| ==> x[i] == t[i];
    assert |x| == |t| || x[|t|] == tail[0];
    var n := DigitsLength(x);
    assert forall i :: 0 <= i < n ==> x[..n][i] == x[i];
  }

  /** The number part of `%u` on an unsigned numeral reads exactly it. */
  lemma ReadUnsignedOf(t: string, tail: string)
    requires IsNumeral(t)
    requires tail == [] || !IsDigit(tail[0])
    ensures ReadUnsigned(t + tail) == Some((Strtoul(false, NumeralValue(t)), tail))
  {
    var x := t + tail;
    assert x[0] == t[0];
    DigitsLengthOf(t, tail);
    assert x[..|t|] == t && x[|t|..] == tail;
  }

  /** One field applied to its token. */
  lemma ExecField(d: Directive, t: string, lead: string, tail: string)
    requires Fits(d, t) && Stops(d, tail)
    requires AllSpace(lead) && (lead == [] || !d.Lit?)
    ensures Exec(d, lead + t + tail) == Some(Scanned(tail, FieldOut(d, t)))
  {
    var x := t + tail;
    assert lead + t + tail == lead + x;
    if d.Lit? {
      assert lead + x == x;
      assert x[..|t|] == t && x[|t|..] == tail;
    } else {
      assert x[0] == t[0];
      SkipSpacesOver(lead, x);
      if d.SkipToken? {
        WordLengthOf(t, tail);
        assert x[|t|..] == tail;
      } else {
        ReadUnsignedOf(t, tail);
      }
    }
  }

  /** The first token, its gap, and the rest of the line. */
  lemma SpreadCons(ts: seq<string>, gaps: seq<string>, lead: string, tail: string)
    requires |ts| > 1 && |gaps| == |ts| - 1
    ensures lead + Spread(ts, gaps) + tail == lead + ts[0] + (gaps[0] + (Spread(ts[1..], gaps[1..]) + tail))
  {
    var later := Spread(ts[1..], gaps[1..]);
    assert Spread(ts, gaps) == ts[0] + gaps[0] + later;
    Regroup5(lead, ts[0], gaps[0], later, tail);
  }

  lemma Regroup5<T>(a: seq<T>, b: seq<T>, c: seq<T>, d: seq<T>, e: seq<T>)
    ensures a + (b + c + d) + e == a + b + (c + (d + e))
  {
    var m := c + d;
    assert b + c + d == b + m;
    assert a + (b + m) + e == a + b + (m + e);
    assert m + e == c + (d + e);
  }

  /** Two spread token lists with a gap between them are one spread list. */
  lemma {:induction false} SpreadAppend(a: seq<string>, ga: seq<string>, g: string, b: seq<string>, gb: seq<string>)
    requires |a| > 0 && |ga| == |a| - 1 && |b| > 0 && |gb| == |b| - 1
    ensures Spread(a + b, ga + [g] + gb) == Spread(a, ga) + g + Spread(b, gb)
    decreases |a|
  {
    var gs := ga + [g] + gb;
    if |a| == 1 {
      assert (a + b)[0] == a[0] && (a + b)[1..] == b;
      assert gs[0] == g && gs[1..] == gb;
    } else {
      assert (a + b)[0] == a[0] && (a + b)[1..] == a[1..] + b;
      assert gs[0] == ga[0] && gs[1..] == ga[1..] + [g] + gb;
      SpreadAppend(a[1..], ga[1..], g, b, gb);
    }
  }

  lemma SpreadPair(a: string, g: string, b: string)
    ensures Spread([a, b], [g]) == a + g + b
  {
    assert [a, b][1..] == [b] && [g][1..] == [];
  }

  lemma SpreadThree(a: string, b: string, c: string, g1: string, g2: string)
    ensures Spread([a, b, c], [g1, g2]) == a + g1 + b + g2 + c
  {
    assert [a, b, c][1..] == [b, c] && [g1, g2][1..] == [g2];
    assert [b, c][1..] == [c];
    assert Spread([b, c], [g2]) == b + g2 + c;
    assert a + g1 + (b + g2 + c) == a + g1 + b + g2 + c;
  }

  /** White space holds no character that is not white space. */
  lemma SpaceAvoids(g: string, c: char)
    requires AllSpace(g) && !IsSpace(c)
    ensures c !in g
  {
  }

  /** Spread numerals hold no character but digits and white space. */
  lemma {:induction false} SpreadNumeralsAvoid(ts: seq<string>, gaps: seq<string>, c: char)
    requires |ts| > 0 && |gaps| == |ts| - 1 && Gaps(gaps)
    requires forall i :: 0 <= i < |ts| ==> IsNumeral(ts[i])
    requires !IsDigit(c) && !IsSpace(c)
    ensures c !in Spread(ts, gaps)
    decreases |ts|
  {
    NumeralAvoids(ts[0], c);
    if |ts| > 1 {
      SpreadNumeralsAvoid(ts[1..], gaps[1..], c);
      SpaceAvoids(gaps[0], c);
      assert Spread(ts, gaps) == ts[0] + gaps[0] + Spread(ts[1..], gaps[1..]);
    }
  }

  lemma SpreadStartsWith(ts: seq<string>, gaps: seq<string>)
    requires |ts| > 0 && |gaps| == |ts| - 1 && |ts[0]| > 0
    ensures |Spread(ts, gaps)| > 0 && Spread(ts, gaps)[0] == ts[0][0]
  {
  }

  /** Running a directive followed by a format. */
  lemma RunCons(d: Directive, f: seq<Directive>, s: string)
    requires Exec(d, s).Some?
    requires Run(f, Exec(d, s).value.rest).Some?
    ensures Run([d] + f, s) ==
      Some(Scanned(Run(f, Exec(d, s).value.rest).value.rest,
                   Exec(d, s).value.out + Run(f, Exec(d, s).value.rest).value.out))
  {
    assert ([d] + f)[0] == d && ([d] + f)[1..] == f;
  }

  lemma ConsSlice<T>(s: seq<T>)
    requires |s| > 0
    ensures [s[0]] + s[1..] == s
  {
  }

  /** A field, a blank, then the remaining fields. */
  lemma RunSpacedStep(d: Directive, more: seq<Directive>, s: string, gap: string, later: string, out: seq<U64>, sc: Scanned)
    requires |more| > 0
    requires AllSpace(gap)
    requires later == [] || !IsSpace(later[0])
    requires Exec(d, s) == Some(Scanned(gap + later, out))
    requires Run(Spaced(more), later) == Some(sc)
    ensures Run(Spaced([d] + more), s) == Some(Scanned(sc.rest, out + sc.out))
  {
    RunBlank(Spaced(more), gap, later, sc);
    RunCons(d, [Space] + Spaced(more), s);
    SpacedCons(d, more);
  }

  /** White space before the input of a format is skipped. */
  lemma RunBlank(f: seq<Directive>, gap: string, later: string, sc: Scanned)
    requires AllSpace(gap)
    requires later == [] || !IsSpace(later[0])
    requires Run(f, later) == Some(sc)
    ensures Run([Space] + f, gap + later) == Some(sc)
  {
    SkipSpacesOver(gap, later);
    assert Exec(Space, gap + later) == Some(Scanned(later, []));
    RunCons(Space, f, gap + later);
    var nothing: seq<U64> := [];
    assert nothing + sc.out == sc.out;
  }

  lemma SpacedCons(d: Directive, more: seq<Directive>)
    requires |more| > 0
    ensures Spaced([d] + more) == [d] + ([Space] + Spaced(more))
  {
    var ds := [d] + more;
    assert |ds| > 1 && ds[0] == d && ds[1..] == more;
    assert Spaced(ds) == [d, Space] + Spaced(more);
    PairCons(d, Space, Spaced(more));
  }

  lemma PairCons<T>(a: T, b: T, x: seq<T>)
    ensures [a, b] + x == [a] + ([b] + x)
  {
    assert [a, b] == [a] + [b];
  }

  lemma RunSpacedOne(d: Directive, t: string, lead: string, tail: string)
    requires Fits(d, t) && Stops(d, tail)
    requires AllSpace(lead) && (lead == [] || !d.Lit?)
    ensures AllFit([d], [t])
    ensures Run(Spaced([d]), lead + Spread([t], []) + tail) == Some(Scanned(tail, Outputs([d], [t])))
  {
    assert Spread([t], []) == t;
    ExecField(d, t, lead, tail);
    RunCons(d, [], lead + t + tail);
    assert [d] + [] == [d];
    assert Outputs([d], [t]) == FieldOut(d, t) + [];
  }

  /** A line made of tokens that fit the fields, separated by runs of white
      space, is read in full: every field assigns the value of its token. */
  lemma {:induction false} RunSpaced(ds: seq<Directive>, ts: seq<string>, gaps: seq<string>, lead: string, tail: string)
    requires |ds| > 0 && AllFit(ds, ts) && |gaps| == |ts| - 1 && Gaps(gaps)
    requires AllSpace(lead) && (lead == [] || !ds[0].Lit?)
    requires Stops(ds[|ds| - 1], tail)
    ensures Run(Spaced(ds), lead + Spread(ts, gaps) + tail) == Some(Scanned(tail, Outputs(ds, ts)))
    decreases |ds|
  {
    var d, t := ds[0], ts[0];
    if |ds| == 1 {
      RunSpacedOne(d, t, lead, tail);
      assert ds == [d] && ts == [t] && gaps == [];
    } else {
      assert ds[1..][|ds| - 2] == ds[|ds| - 1];
      assert Gaps(gaps[1..]) by {
        forall i | 0 <= i < |gaps[1..]|
          ensures |gaps[1..][i]| > 0 && AllSpace(gaps[1..][i])
        {
          assert gaps[1..][i] == gaps[i + 1];
        }
      }
      RunSpaced(ds[1..], ts[1..], gaps[1..], "", tail);
      EmptyLead(Spread(ts[1..], gaps[1..]), tail);
      RunSpacedMore(ds, ts, gaps, lead, tail);
    }
  }

  lemma EmptyLead(s: string, tail: string)
    ensures "" + s + tail == s + tail
  {
  }

  /** The inductive step of RunSpaced, given the result for the later fields. */
  lemma RunSpacedMore(ds: seq<Directive>, ts: seq<string>, gaps: seq<string>, lead: string, tail: string)
    requires |ds| > 1 && AllFit(ds, ts) && |gaps| == |ts| - 1 && Gaps(gaps)
    requires AllSpace(lead) && (lead == [] || !ds[0].Lit?)
    requires Run(Spaced(ds[1..]), Spread(ts[1..], gaps[1..]) + tail) == Some(Scanned(tail, Outputs(ds[1..], ts[1..])))
    ensures Run(Spaced(ds), lead + Spread(ts, gaps) + tail) == Some(Scanned(tail, Outputs(ds, ts)))
  {
    var d, t, gap := ds[0], ts[0], gaps[0];
    assert Fits(ds[1], ts[1]);
    var later := Spread(ts[1..], gaps[1..]) + tail;
    var s := lead + t + (gap + later);
    assert |gap| > 0 && AllSpace(gap);
    assert (gap + later)[0] == gap[0];
    ExecField(d, t, lead, gap + later);
    SpreadStartsWith(ts[1..], gaps[1..]);
    ConsSlice(ds);
    RunSpacedStep(d, ds[1..], s, gap, later, FieldOut(d, t), Scanned(tail, Outputs(ds[1..], ts[1..])));
    SpreadCons(ts, gaps, lead, tail);
  }

  /** `sscanf` on a line of tokens that fit the fields, separated by runs of
      white space, assigns every conversion. */
  lemma ScanfSpaced(ds: seq<Directive>, ts: seq<string>, gaps: seq<string>, lead: string, tail: string)
    requires |ds| > 0 && AllFit(ds, ts) && |gaps| == |ts| - 1 && Gaps(gaps)
    requires AllSpace(lead) && (lead == [] || !ds[0].Lit?)
    requires Stops(ds[|ds| - 1], tail)
    ensures Scanf(Spaced(ds), lead + Spread(ts, gaps) + tail) == Outputs(ds, ts)
  {
    RunSpaced(ds, ts, gaps, lead, tail);
    ScanfAfterRun(Spaced(ds), [], lead + Spread(ts, gaps) + tail);
    assert Spaced(ds) + [] == Spaced(ds);
  }

  lemma {:induction false} OutputsAppend(ds1: seq<Directive>, ts1: seq<string>, ds2: seq<Directive>, ts2: seq<string>)
    requires AllFit(ds1, ts1) && AllFit(ds2, ts2)
    ensures AllFit(ds1 + ds2, ts1 + ts2)
    ensures Outputs(ds1 + ds2, ts1 + ts2) == Outputs(ds1, ts1) + Outputs(ds2, ts2)
    decreases |ds1|
  {
    if ds1 != [] {
      assert (ds1 + ds2)[0] == ds1[0] && (ds1 + ds2)[1..] == ds1[1..] + ds2;
      assert (ts1 + ts2)[0] == ts1[0] && (ts1 + ts2)[1..] == ts1[1..] + ts2;
      OutputsAppend(ds1[1..], ts1[1..], ds2, ts2);
      var f, o1, o2 := FieldOut(ds1[0], ts1[0]), Outputs(ds1[1..], ts1[1..]), Outputs(ds2, ts2);
      assert Outputs(ds1 + ds2, ts1 + ts2) == f + (o1 + o2);
      assert f + (o1 + o2) == f + o1 + o2;
    } else {
      assert ds1 + ds2 == ds2 && ts1 + ts2 == ts2;
    }
  }

  /** `n` consecutive copies of field `d`. */
  function Repeated(d: Directive, n: nat): (ds: seq<Directive>)
    ensures |ds| == n
    ensures forall i :: 0 <= i < n ==> ds[i] == d
  {
    seq(n, _ => d)
  }

  /** `%*s` fields reading words assign nothing. */
  lemma {:induction false} SkippedWords(ts: seq<string>)
    requires forall i :: 0 <= i < |ts| ==> IsWord(ts[i])
    ensures AllFit(Repeated(SkipToken, |ts|), ts)
    ensures Outputs(Repeated(SkipToken, |ts|), ts) == []
    decreases |ts|
  {
    if ts != [] {
      SkippedWords(ts[1..]);
      assert Repeated(SkipToken, |ts|)[1..] == Repeated(SkipToken, |ts| - 1);
    }
  }

  /** One field amid fields that assign nothing assigns the only values. */
  lemma FieldAmid(ds1: seq<Directive>, ts1: seq<string>, d: Directive, t: string, ds2: seq<Directive>, ts2: seq<string>)
    requires AllFit(ds1, ts1) && Outputs(ds1, ts1) == []
    requires AllFit(ds2, ts2) && Outputs(ds2, ts2) == []
    requires Fits(d, t)
    ensures AllFit(ds1 + [d] + ds2, ts1 + [t] + ts2)
    ensures Outputs(ds1 + [d] + ds2, ts1 + [t] + ts2) == FieldOut(d, t)
  {
    OneField(d, t);
    OutputsAppend(ds1, ts1, [d], [t]);
    OutputsAppend(ds1 + [d], ts1 + [t], ds2, ts2);
  }

  /** A single field reading a single token. */
  lemma OneField(d: Directive, t: string)
    requires Fits(d, t)
    ensures AllFit([d], [t]) && Outputs([d], [t]) == FieldOut(d, t)
  {
    var nd: seq<Directive> := [];
    var nt: seq<string> := [];
    assert [d][1..] == nd && [t][1..] == nt;
    assert Outputs(nd, nt) == [];
    assert FieldOut(d, t) + [] == FieldOut(d, t);
  }

  /** One more field reading one more token. */
  lemma AppendField(ds: seq<Directive>, ts: seq<string>, d: Directive, t: string)
    requires AllFit(ds, ts) && Fits(d, t)
    ensures AllFit(ds + [d], ts + [t])
    ensures Outputs(ds + [d], ts + [t]) == Outputs(ds, ts) + FieldOut(d, t)
  {
    OneField(d, t);
    OutputsAppend(ds, ts, [d], [t]);
  }

  /** A sequence is its part before `i`, its `i`th element and the rest. */
  lemma SplitAt<T>(s: seq<T>, i: nat)
    requires i < |s|
    ensures s == s[..i] + [s[i]] + s[i + 1..]
  {
  }

  /** `%*u` fields reading numerals assign nothing. */
  lemma {:induction false} SkippedNumerals(ts: seq<string>)
    requires forall i :: 0 <= i < |ts| ==> IsNumeral(ts[i])
    ensures AllFit(Repeated(SkipUnsigned, |ts|), ts)
    ensures Outputs(Repeated(SkipUnsigned, |ts|), ts) == []
    decreases |ts|
  {
    if ts != [] {
      SkippedNumerals(ts[1..]);
      assert Repeated(SkipUnsigned, |ts|)[1..] == Repeated(SkipUnsigned, |ts| - 1);
    }
  }

  /** Decimal numerals of the values, one per token. */
  function Numerals(vs: seq<nat>): (ts: seq<string>)
    ensures |ts| == |vs|
    ensures forall i :: 0 <= i < |vs| ==> ts[i] == Decimal(vs[i])
  {
    seq(|vs|, i requires 0 <= i < |vs| => Decimal(vs[i]))
  }

  /** A conversion reading a printed numeral yields the printed value. */
  lemma FieldOutOfDecimal(width: Width, n: nat)
    requires n < (if width == W32 then TWO32 else TWO64)
    ensures Fits(Unsigned(width), Decimal(n))
    ensures FieldOut(Unsigned(width), Decimal(n)) == [n]
  {
    NumeralValueOfDecimal(n);
  }

  /** Conversions of one width reading printed numerals yield the values. */
  lemma {:induction false} OutputsOfNumerals(width: Width, vs: seq<nat>)
    requires forall i :: 0 <= i < |vs| ==> vs[i] < (if width == W32 then TWO32 else TWO64)
    ensures AllFit(Repeated(Unsigned(width), |vs|), Numerals(vs))
    ensures Outputs(Repeated(Unsigned(width), |vs|), Numerals(vs)) == vs
    decreases |vs|
  {
    if vs != [] {
      var ds := Repeated(Unsigned(width), |vs|);
      FieldOutOfDecimal(width, vs[0]);
      OutputsOfNumerals(width, vs[1..]);
      assert ds[1..] == Repeated(Unsigned(width), |vs| - 1);
      assert Numerals(vs)[1..] == Numerals(vs[1..]);
    }
  }

  /** The format of two field lists is their formats joined by a blank. */
  lemma {:induction false} SpacedAppend(ds1: seq<Directive>, ds2: seq<Directive>)
    requires |ds1| > 0 && |ds2| > 0
    ensures Spaced(ds1 + ds2) == Spaced(ds1) + ([Space] + Spaced(ds2))
    decreases |ds1|
  {
    if |ds1| == 1 {
      assert (ds1 + ds2)[1..] == ds2;
    } else {
      assert (ds1 + ds2)[1..] == ds1[1..] + ds2;
      SpacedAppend(ds1[1..], ds2);
    }
  }

  /** A field that cannot read anything from an empty remainder. */
  predicate NeedsInput(d: Directive) {
    d.SkipToken? || d.SkipUnsigned? || d.Unsigned?
  }

  /** A line that ends (up to white space) after the tokens of the first fields:
      `sscanf` assigns only those fields' conversions and leaves the rest. */
  lemma ScanfSpacedPrefix(ds1: seq<Directive>, ts1: seq<string>, gaps: seq<string>, ds2: seq<Directive>, lead: string, tail: string)
    requires |ds1| > 0 && AllFit(ds1, ts1) && |gaps| == |ts1| - 1 && Gaps(gaps)
    requires |ds2| > 0 && NeedsInput(ds2[0])
    requires AllSpace(lead) && (lead == [] || !ds1[0].Lit?)
    requires AllSpace(tail)
    ensures Scanf(Spaced(ds1 + ds2), lead + Spread(ts1, gaps) + tail) == Outputs(ds1, ts1)
  {
    var s := lead + Spread(ts1, gaps) + tail;
    assert Stops(ds1[|ds1| - 1], tail);
    RunSpaced(ds1, ts1, gaps, lead, tail);
    SpacedAppend(ds1, ds2);
    ScanfAfterRun(Spaced(ds1), [Space] + Spaced(ds2), s);
    var g := [Space] + Spaced(ds2);
    ScanfStopsAtEnd(ds2, tail);
    assert Scanf(Spaced(ds1) + g, s) == Outputs(ds1, ts1) + [];
  }

  /** After the last token, a blank and a field that needs input assign
      nothing. */
  lemma ScanfStopsAtEnd(ds: seq<Directive>, tail: string)
    requires |ds| > 0 && NeedsInput(ds[0]) && AllSpace(tail)
    ensures Scanf([Space] + Spaced(ds), tail) == []
  {
    SkipSpacesOver(tail, []);
    assert tail + [] == tail;
    var g := [Space] + Spaced(ds);
    assert g[0] == Space && g[1..] == Spaced(ds);
    assert Exec(Space, tail) == Some(Scanned([], []));
    assert Exec(ds[0], []).None?;
    assert Scanf(Spaced(ds), []) == [] by {
      assert Spaced(ds)[0] == ds[0];
    }
  }

  /** Tokens glued to the end of a literal: the blank of the format between
      the literal and the next field matches no white space at all, and the
      next field reads the glued token. */
  lemma ScanfGlued(ds1: seq<Directive>, ts1: seq<string>, g1: seq<string>, ds2: seq<Directive>, ts2: seq<string>, g2: seq<string>, lead: string, tail: string)
    requires |ds1| > 0 && AllFit(ds1, ts1) && |g1| == |ts1| - 1 && Gaps(g1) && ds1[|ds1| - 1].Lit?
    requires AllSpace(lead) && (lead == [] || !ds1[0].Lit?)
    requires |ds2| > 0 && AllFit(ds2, ts2) && |g2| == |ts2| - 1 && Gaps(g2) && NeedsInput(ds2[0])
    requires Stops(ds2[|ds2| - 1], tail)
    ensures Scanf(Spaced(ds1 + ds2), lead + Spread(ts1, g1) + Spread(ts2, g2) + tail)
         == Outputs(ds1, ts1) + Outputs(ds2, ts2)
  {
    var rest := Spread(ts2, g2) + tail;
    var s := lead + Spread(ts1, g1) + rest;
    assert s == lead + Spread(ts1, g1) + Spread(ts2, g2) + tail;
    RunSpaced(ds1, ts1, g1, lead, rest);
    SpacedAppend(ds1, ds2);
    ScanfAfterRun(Spaced(ds1), [Space] + Spaced(ds2), s);
    ScanfBlankThenFields(ds2, ts2, g2, tail);
  }

  /** A blank directive before the first of the tokens matches nothing, and
      the fields read the tokens. */
  lemma ScanfBlankThenFields(ds: seq<Directive>, ts: seq<string>, gaps: seq<string>, tail: string)
    requires |ds| > 0 && AllFit(ds, ts) && |gaps| == |ts| - 1 && Gaps(gaps) && NeedsInput(ds[0])
    requires Stops(ds[|ds| - 1], tail)
    ensures Scanf([Space] + Spaced(ds), Spread(ts, gaps) + tail) == Outputs(ds, ts)
  {
    var rest := Spread(ts, gaps) + tail;
    BlankBeforeFields(ds, ts, gaps, tail);
    ScanfAfterBlank(Spaced(ds), rest);
    var none: string := [];
    assert AllSpace(none);
    assert none + Spread(ts, gaps) == Spread(ts, gaps);
    assert Stops(ds[|ds| - 1], tail);
    ScanfSpaced(ds, ts, gaps, none, tail);
  }

  /** A blank directive that matches nothing leaves the rest of the format
      to scan the same input. */
  lemma ScanfAfterBlank(f: seq<Directive>, s: string)
    requires Exec(Space, s) == Some(Scanned(s, []))
    ensures Scanf([Space] + f, s) == Scanf(f, s)
  {
    var g := [Space] + f;
    assert g[0] == Space && g[1..] == f;
    var nothing: seq<U64> := [];
    assert Scanf(g, s) == nothing + Scanf(f, s);
  }

  /** The tokens start with a character that is not white space. */
  lemma BlankBeforeFields(ds: seq<Directive>, ts: seq<string>, gaps: seq<string>, tail: string)
    requires |ds| > 0 && AllFit(ds, ts) && |gaps| == |ts| - 1 && NeedsInput(ds[0])
    ensures Exec(Space, Spread(ts, gaps) + tail) == Some(Scanned(Spread(ts, gaps) + tail, []))
  {
    assert |ts[0]| > 0 && !IsSpace(ts[0][0]) by {
      assert Fits(ds[0], ts[0]);
    }
    SpreadStartsWith(ts, gaps);
    var rest := Spread(ts, gaps) + tail;
    assert rest[0] == Spread(ts, gaps)[0];
    SpaceBeforeWord(rest);
  }
}
