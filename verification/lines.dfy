/** The `while (fgets(line, ...))` loop shared by the memory, network and disk
    samplers: every line of the source, in order, goes through a per-line
    update of the sampler's local variables. */
module Lines {

  function Fold<S>(lines: seq<string>, s: S, f: (S, string) -> S): S
    decreases |lines|
  {
    if lines == [] then s else Fold(lines[1..], f(s, lines[0]), f)
  }

  /** Reading one more line applies the update once more, last. */
  lemma {:induction false} FoldSnoc<S>(lines: seq<string>, l: string, s: S, f: (S, string) -> S)
    ensures Fold(lines + [l], s, f) == f(Fold(lines, s, f), l)
    decreases |lines|
  {
    if lines != [] {
      assert (lines + [l])[1..] == lines[1..] + [l];
      FoldSnoc(lines[1..], l, f(s, lines[0]), f);
    }
  }

  /** Lines the update ignores leave the variables as they were. */
  lemma {:induction false} FoldIgnored<S>(lines: seq<string>, s: S, f: (S, string) -> S)
    requires forall i, t :: 0 <= i < |lines| ==> f(t, lines[i]) == t
    ensures Fold(lines, s, f) == s
    decreases |lines|
  {
    if lines != [] {
      assert f(s, lines[0]) == s;
      forall i, t | 0 <= i < |lines| - 1
        ensures f(t, lines[1..][i]) == t
      {
        assert lines[1..][i] == lines[i + 1];
      }
      FoldIgnored(lines[1..], s, f);
    }
  }

  /** When line `i` sets the variables to `k` whatever they held, and every
      later line is ignored, the loop ends with `k`: the last match wins. */
  lemma {:induction false} FoldLastWins<S>(lines: seq<string>, s: S, f: (S, string) -> S, i: nat, k: S)
    requires i < |lines|
    requires forall t :: f(t, lines[i]) == k
    requires forall j, t :: i < j < |lines| ==> f(t, lines[j]) == t
    ensures Fold(lines, s, f) == k
    decreases |lines|
  {
    if i == 0 {
      forall j, t | 0 <= j < |lines| - 1
        ensures f(t, lines[1..][j]) == t
      {
        assert lines[1..][j] == lines[j + 1];
      }
      FoldIgnored(lines[1..], f(s, lines[0]), f);
    } else {
      forall j, t | i - 1 < j < |lines| - 1
        ensures f(t, lines[1..][j]) == t
      {
        assert lines[1..][j] == lines[j + 1];
      }
      assert lines[1..][i - 1] == lines[i];
      FoldLastWins(lines[1..], f(s, lines[0]), f, i - 1, k);
    }
  }
}
