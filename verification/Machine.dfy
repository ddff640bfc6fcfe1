// Machine words and the arithmetic facts that more than one model needs.
module Machine {
  const TWO16 := 0x1_0000
  const TWO32 := 0x1_0000_0000
  const TWO64 := 0x1_0000_0000_0000_0000

  type Byte = x: int | 0 <= x < 256

  // What is left of a number in an unsigned word of 16, 32 or 64 bits.
  function U16(x: int): nat { x % TWO16 }
  function U32(x: int): nat { x % TWO32 }
  function U64(x: int): nat { x % TWO64 }

  function Min(a: nat, b: nat): nat { if a < b then a else b }
  function Max(a: nat, b: nat): nat { if a < b then b else a }

  lemma Fits32(x: nat)
    requires x < TWO32
    ensures U32(x) == x
  {
  }

  lemma ProductGrows(a: nat, b: nat, c: nat)
    requires a <= b
    ensures a * c <= b * c && c * a <= c * b
  {
  }

  lemma DivUnique(a: nat, d: nat, q: nat, r: nat)
    requires a == q * d + r && r < d
    ensures a / d == q && a % d == r
  {
    var p := a / d;
    assert a == p * d + a % d;
    assert p > q ==> (q + 1) * d <= p * d;
    assert p < q ==> (p + 1) * d <= q * d;
  }
}
