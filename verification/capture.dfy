/** The loop shared by the network and disk samplers: two `unsigned long`
    locals start at zero, and every line that contains a key string is handed
    to `sscanf` with a format of two conversions. A conversion that succeeds
    overwrites its local; one that is not reached leaves the local as it was. */
module Capture {
  import opened Wrappers
  import opened Machine
  import opened Text
  import opened Scan
  import opened Lines

  /** The two locals, in the order of the format's conversions. */
  datatype Pair = Pair(first: U64, second: U64)

  /** What `line` assigns to conversion `k` (0 or 1): nothing unless the line
      contains `key` and `sscanf` gets as far as that conversion. */
  function Assigned(key: string, fmt: seq<Directive>, line: string, k: nat): Option<U64> {
    if !Contains(line, key) then None
    else
      var vals := Scanf(fmt, line);
      if k < |vals| then Some(vals[k]) else None
  }

  /** A line that contains the key and scans two values assigns both. */
  lemma AssignedBoth(key: string, fmt: seq<Directive>, line: string, a: U64, b: U64)
    requires Contains(line, key) && Scanf(fmt, line) == [a, b]
    ensures Assigned(key, fmt, line, 0) == Some(a) && Assigned(key, fmt, line, 1) == Some(b)
  {
  }

  /** One pass of the loop body. */
  function Step(key: string, fmt: seq<Directive>, p: Pair, line: string): (r: Pair)
    ensures !Contains(line, key) ==> r == p
    ensures r.first == Assigned(key, fmt, line, 0).GetOr(p.first)
    ensures r.second == Assigned(key, fmt, line, 1).GetOr(p.second)
  {
    if Contains(line, key) then
      var vals := Scanf(fmt, line);
      Pair(if |vals| > 0 then vals[0] else p.first, if |vals| > 1 then vals[1] else p.second)
    else p
  }

  function Stepper(key: string, fmt: seq<Directive>): (Pair, string) -> Pair {
    (p, line) => Step(key, fmt, p, line)
  }

  /** The whole loop, from zeroed locals. */
  function Loop(key: string, fmt: seq<Directive>, lines: seq<string>): Pair {
    Fold(lines, Pair(0, 0), Stepper(key, fmt))
  }

  /** Reference meaning of the loop: conversion `k` ends with the value of
      the last line that assigns it, or 0 when no line does. */
  function LastAssigned(key: string, fmt: seq<Directive>, lines: seq<string>, k: nat): U64
    decreases |lines|
  {
    if lines == [] then 0
    else match Assigned(key, fmt, lines[|lines| - 1], k)
      case Some(x) => x
      case None => LastAssigned(key, fmt, lines[..|lines| - 1], k)
  }

  lemma {:induction false} LoopIsLastAssigned(key: string, fmt: seq<Directive>, lines: seq<string>)
    ensures Loop(key, fmt, lines) ==
      Pair(LastAssigned(key, fmt, lines, 0), LastAssigned(key, fmt, lines, 1))
    decreases |lines|
  {
    if lines != [] {
      var init := lines[..|lines| - 1];
      var l := lines[|lines| - 1];
      assert lines == init + [l];
      FoldSnoc(init, l, Pair(0, 0), Stepper(key, fmt));
      LoopIsLastAssigned(key, fmt, init);
    }
  }

  /** Without a line containing the key both locals stay zero. */
  lemma {:induction false} NoKeyLine(key: string, fmt: seq<Directive>, lines: seq<string>, k: nat)
    requires forall i :: 0 <= i < |lines| ==> !Contains(lines[i], key)
    ensures LastAssigned(key, fmt, lines, k) == 0
    decreases |lines|
  {
    if lines != [] {
      var init := lines[..|lines| - 1];
      assert forall i :: 0 <= i < |init| ==> init[i] == lines[i];
      NoKeyLine(key, fmt, init, k);
    }
  }

  /** The last line that assigns both conversions decides both locals when
      no later line contains the key. */
  lemma LastFullLineWins(key: string, fmt: seq<Directive>, lines: seq<string>, i: nat, a: U64, b: U64)
    requires i < |lines|
    requires Assigned(key, fmt, lines[i], 0) == Some(a) && Assigned(key, fmt, lines[i], 1) == Some(b)
    requires forall j :: i < j < |lines| ==> !Contains(lines[j], key)
    ensures LastAssigned(key, fmt, lines, 0) == a && LastAssigned(key, fmt, lines, 1) == b
  {
    var f := Stepper(key, fmt);
    forall t: Pair
      ensures f(t, lines[i]) == Pair(a, b)
    {
    }
    forall j, t: Pair | i < j < |lines|
      ensures f(t, lines[j]) == t
    {
    }
    FoldLastWins(lines, Pair(0, 0), f, i, Pair(a, b));
    LoopIsLastAssigned(key, fmt, lines);
  }
}
