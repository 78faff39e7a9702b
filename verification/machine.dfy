/** The fixed-width unsigned integers of the C code (LP64: `unsigned` is 32
    bits, `unsigned long` is 64 bits) and their wrapping arithmetic. Dafny's
    `%` is Euclidean, so `x % M` is the unsigned reduction of any `int` x. */
module Machine {

  const TWO32: nat := 0x1_0000_0000
  const TWO64: nat := 0x1_0000_0000_0000_0000
  /** ULONG_MAX */
  const MAX64: nat := TWO64 - 1

  type U32 = x: nat | x < TWO32
  type U64 = x: nat | x < TWO64

  /** `a - b` on two `unsigned` operands. */
  function Sub32(a: U32, b: U32): (r: U32)
    ensures (r + b) % TWO32 == a
    ensures b <= a ==> r == a - b
    ensures a < b ==> r == TWO32 + a - b
  {
    (a - b) % TWO32
  }

  /** `a - b` on two `unsigned long` operands. */
  function Sub64(a: U64, b: U64): (r: U64)
    ensures (r + b) % TWO64 == a
    ensures b <= a ==> r == a - b
    ensures a < b ==> r == TWO64 + a - b
  {
    (a - b) % TWO64
  }

  /** `a + b` on two `unsigned long` operands. */
  function Add64(a: U64, b: U64): (r: U64)
    ensures a + b < TWO64 ==> r == a + b
    ensures TWO64 <= a + b ==> r == a + b - TWO64
  {
    (a + b) % TWO64
  }

  /** Reducing the minuend first does not change the wrapped difference. */
  lemma SubReduced32(x: int, b: int)
    ensures (x % TWO32 - b) % TWO32 == (x - b) % TWO32
  {
    var q := x / TWO32;
    assert x == q * TWO32 + x % TWO32;
    var y := x % TWO32 - b;
    assert x - b == y + q * TWO32;
    var k := y / TWO32;
    assert y == k * TWO32 + y % TWO32;
    assert x - b == (k + q) * TWO32 + y % TWO32;
  }

  /** Reducing both addends first does not change the wrapped sum. */
  lemma AddReduced64(x: int, y: int)
    ensures (x % TWO64 + y % TWO64) % TWO64 == (x + y) % TWO64
  {
    var p, q := x / TWO64, y / TWO64;
    assert x == p * TWO64 + x % TWO64;
    assert y == q * TWO64 + y % TWO64;
    var z := x % TWO64 + y % TWO64;
    var k := z / TWO64;
    assert z == k * TWO64 + z % TWO64;
    assert x + y == (p + q + k) * TWO64 + z % TWO64;
  }
}
