/** Character classes, substring search (`strstr`) and decimal numerals. */
module Text {
  import opened Wrappers

  /** `isspace` in the "C" locale: blank, \t, \n, \v, \f and \r. */
  predicate IsSpace(c: char) {
    c == ' ' || '\t' <= c <= '\r'
  }

  predicate IsDigit(c: char) {
    '0' <= c <= '9'
  }

  predicate AllSpace(s: string) {
    forall i :: 0 <= i < |s| ==> IsSpace(s[i])
  }

  predicate AllDigits(s: string) {
    forall i :: 0 <= i < |s| ==> IsDigit(s[i])
  }

  /** A non-empty run of non-white-space characters: what `%s` reads. */
  predicate IsWord(s: string) {
    |s| > 0 && forall i :: 0 <= i < |s| ==> !IsSpace(s[i])
  }

  /** A non-empty run of decimal digits without a sign. */
  predicate IsNumeral(s: string) {
    |s| > 0 && AllDigits(s)
  }

  predicate OccursAt(s: string, w: string, i: int) {
    0 <= i && i + |w| <= |s| && s[i..i + |w|] == w
  }

  /** The position `strstr(s, w)` points at: the first occurrence of `w`. */
  function IndexOf(s: string, w: string): (r: Option<nat>)
    ensures r.Some? ==> OccursAt(s, w, r.value)
    ensures r.Some? ==> forall j :: 0 <= j < r.value ==> !OccursAt(s, w, j)
    ensures r.None? ==> forall j :: !OccursAt(s, w, j)
    decreases |s|
  {
    if |s| < |w| then None
    else if s[..|w|] == w then Some(0)
    else
      var r := IndexOf(s[1..], w);
      assert forall j :: 1 <= j ==> (OccursAt(s, w, j) <==> OccursAt(s[1..], w, j - 1)) by {
        forall j | 1 <= j
          ensures OccursAt(s, w, j) <==> OccursAt(s[1..], w, j - 1)
        {
          if j + |w| <= |s| {
            assert s[1..][j - 1..j - 1 + |w|] == s[j..j + |w|];
          }
        }
      }
      match r
      case None => None
      case Some(i) => Some(i + 1)
  }

  /** `strstr(s, w) != NULL` */
  predicate Contains(s: string, w: string) {
    IndexOf(s, w).Some?
  }

  /** An occurrence of a one-character string is that character. */
  lemma OccursAtChar(s: string, c: char, i: int)
    requires OccursAt(s, [c], i)
    ensures s[i] == c
  {
    assert s[i..i + 1][0] == s[i];
  }

  /** The first occurrence of a character is found right after a prefix
      that does not hold it. */
  lemma IndexOfChar(pre: string, c: char, post: string)
    requires c !in pre
    ensures IndexOf(pre + [c] + post, [c]) == Some(|pre|)
  {
    var s := pre + [c] + post;
    assert s[|pre|..|pre| + 1] == [c];
    forall j | 0 <= j < |pre|
      ensures !OccursAt(s, [c], j)
    {
      assert s[j] == pre[j];
      assert s[j..j + 1] == [s[j]];
    }
    assert OccursAt(s, [c], |pre|);
    var r := IndexOf(s, [c]);
  }

  /** A line that begins with `w` contains it. */
  lemma ContainsPrefix(w: string, rest: string)
    ensures Contains(w + rest, w)
  {
    assert OccursAt(w + rest, w, 0);
  }

  /** An occurrence of `w` inside a middle piece is an occurrence in the whole. */
  lemma ContainsInfix(pre: string, w: string, post: string)
    ensures Contains(pre + w + post, w)
  {
    var s := pre + w + post;
    assert s[|pre|..|pre| + |w|] == w;
    assert OccursAt(s, w, |pre|);
  }

  /** Moves the parentheses of a four-part concatenation. */
  lemma Regroup3(a: string, b: string, c: string, d: string)
    ensures a + b + c + d == a + (b + c) + d
    ensures a + b + c + d == a + b + (c + d)
  {
  }

  /** A sequence is what comes before an element, the element, and what
      comes after it. */
  lemma SplitAround<T>(s: seq<T>, i: nat)
    requires i < |s|
    ensures s == s[..i] + [s[i]] + s[i + 1..]
  {
  }

  lemma Assoc<T>(a: seq<T>, b: seq<T>, c: seq<T>)
    ensures a + b + c == a + (b + c)
  {
  }

  /** Regrouping the pieces of a string keeps what it contains. */
  lemma ContainsRegrouped(a: string, b: string, c: string, d: string, w: string)
    requires Contains(a + b + (c + d), w)
    ensures Contains(a + (b + c) + d, w)
  {
    assert a + b + (c + d) == a + (b + c) + d;
  }

  /** An occurrence inside a piece is an occurrence in the whole. */
  lemma ContainsWithin(pre: string, s: string, post: string, w: string)
    requires Contains(s, w)
    ensures Contains(pre + s + post, w)
  {
    var j := IndexOf(s, w).value;
    var t := pre + s + post;
    assert t[|pre| + j..|pre| + j + |w|] == s[j..j + |w|];
    assert OccursAt(t, w, |pre| + j);
  }

  /** `w` is absent when the first character does not start it and the rest lacks it. */
  lemma NotContainsCons(s: string, w: string)
    requires |s| > 0 && |w| > 0
    requires !OccursAt(s, w, 0)
    requires !Contains(s[1..], w)
    ensures !Contains(s, w)
  {
    forall j | 1 <= j
      ensures OccursAt(s, w, j) ==> OccursAt(s[1..], w, j - 1)
    {
      if j + |w| <= |s| {
        var a, b := s[1..][j - 1..j - 1 + |w|], s[j..j + |w|];
        forall k | 0 <= k < |w|
          ensures a[k] == b[k]
        {
        }
        assert a == b;
      }
    }
  }

  /** `w` is absent from a string that never has its first character. */
  lemma NotContainsWithoutFirstChar(s: string, w: string)
    requires |w| > 0 && w[0] !in s
    ensures !Contains(s, w)
  {
    forall j | 0 <= j && j + |w| <= |s|
      ensures !OccursAt(s, w, j)
    {
      assert s[j..j + |w|][0] == s[j];
      assert s[j] in s;
    }
  }

  /** `w` is absent from `c` followed by `rest` when it does not start
      there and its first character never occurs in `rest`. */
  lemma NotContainsAfterFirst(c: char, rest: string, w: string)
    requires |w| > 0 && w[0] !in rest
    requires !OccursAt([c] + rest, w, 0)
    ensures !Contains([c] + rest, w)
  {
    assert ([c] + rest)[1..] == rest;
    NotContainsWithoutFirstChar(rest, w);
    NotContainsCons([c] + rest, w);
  }

  /** `w` is absent from `pre` followed by `z` when `z` lacks it and `pre`
      never has its first character. */
  lemma {:induction false} NotContainsAfterPrefix(pre: string, z: string, w: string)
    requires |w| > 0 && w[0] !in pre
    requires !Contains(z, w)
    ensures !Contains(pre + z, w)
    decreases |pre|
  {
    if pre != [] {
      var s := pre + z;
      assert s[1..] == pre[1..] + z;
      assert pre[0] in pre;
      assert s[0] != w[0];
      assert !OccursAt(s, w, 0) by {
        if |w| <= |s| {
          assert s[..|w|][0] == s[0];
        }
      }
      assert w[0] !in pre[1..] by {
        forall k | 0 <= k < |pre[1..]|
          ensures pre[1..][k] != w[0]
        {
          assert pre[1..][k] == pre[k + 1] && pre[k + 1] in pre;
        }
      }
      NotContainsAfterPrefix(pre[1..], z, w);
      NotContainsCons(s, w);
    } else {
      assert pre + z == z;
    }
  }

  /** A numeral is a word: digits are not white space. */
  lemma NumeralIsWord(s: string)
    requires IsNumeral(s)
    ensures IsWord(s)
  {
  }

  /** A numeral holds digits only. */
  lemma NumeralAvoids(s: string, c: char)
    requires IsNumeral(s) && !IsDigit(c)
    ensures c !in s
  {
  }

  function DigitValue(c: char): (d: nat)
    requires IsDigit(c)
    ensures d < 10
  {
    c as int - '0' as int
  }

  function DigitChar(d: nat): (c: char)
    requires d < 10
    ensures IsDigit(c) && DigitValue(c) == d
  {
    (d + '0' as int) as char
  }

  /** The value of a string of digits, most significant first. */
  function NumeralValue(s: string): nat
    requires AllDigits(s)
    decreases |s|
  {
    if s == [] then 0 else NumeralValue(s[..|s| - 1]) * 10 + DigitValue(s[|s| - 1])
  }

  /** The shortest decimal numeral of `n` (what `%u`/`%lu` formatting prints). */
  function Decimal(n: nat): (s: string)
    ensures IsNumeral(s)
    decreases n
  {
    if n < 10 then [DigitChar(n)] else Decimal(n / 10) + [DigitChar(n % 10)]
  }

  /** Reading back a printed numeral gives the number. */
  lemma {:induction false} NumeralValueOfDecimal(n: nat)
    ensures NumeralValue(Decimal(n)) == n
    decreases n
  {
    var s := Decimal(n);
    if n < 10 {
      assert s[..0] == [];
    } else {
      NumeralValueOfDecimal(n / 10);
      assert s[..|s| - 1] == Decimal(n / 10);
    }
  }
}
