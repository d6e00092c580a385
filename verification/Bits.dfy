/** Keys as strings of bits. */
module Bits {

  /** A `uint8_t`, and a C string without its terminating NUL. */
  type Key = seq<bv8>

  predicate NulFree(k: Key) {
    0 !in k
  }

  /** `(c >> n) & 1`. */
  predicate Bit(c: bv8, n: nat)
    requires n < 8
  {
    (c >> n) & 1 == 1
  }

  /** Byte `i` of the string, NUL behind its end. */
  function At(k: Key, i: nat): bv8 {
    if i < |k| then k[i] else 0
  }

  /** Bit `p` of the string, counted from the high end of its first byte. */
  predicate KeyBit(k: Key, p: nat) {
    Bit(At(k, p / 8), 7 - p % 8)
  }

  /** The position of bit `bit` of byte `byte`. */
  function Pos(byte: nat, bit: nat): (p: nat)
    requires bit < 8
    ensures p / 8 == byte && 7 - p % 8 == bit
  {
    8 * byte + 7 - bit
  }

  /** The two strings have the same bits before position `p`. */
  ghost predicate SameBefore(j: Key, k: Key, p: nat) {
    forall q: nat :: q < p ==> KeyBit(j, q) == KeyBit(k, q)
  }

  /** The order of `strcmp` on unsigned bytes. */
  predicate LessAt(j: Key, k: Key, i: nat) {
    At(j, i) < At(k, i) && forall h: nat :: h < i ==> At(j, h) == At(k, h)
  }

  predicate Less(j: Key, k: Key) {
    exists i: nat :: i <= |j| && LessAt(j, k, i)
  }

  // ----- bits of one byte -----

  lemma ByteBits(b: bv8, c: bv8)
    requires forall n: nat :: n < 8 ==> Bit(b, n) == Bit(c, n)
    ensures b == c
  {
    assert Bit(b, 0) == Bit(c, 0) && Bit(b, 1) == Bit(c, 1) && Bit(b, 2) == Bit(c, 2) && Bit(b, 3) == Bit(c, 3);
    assert Bit(b, 4) == Bit(c, 4) && Bit(b, 5) == Bit(c, 5) && Bit(b, 6) == Bit(c, 6) && Bit(b, 7) == Bit(c, 7);
  }

  /** The byte with the 1 at the first bit that differs is the greater one. */
  lemma ByteOrder(b: bv8, c: bv8, n: nat)
    requires n < 8 && !Bit(b, n) && Bit(c, n)
    requires forall m: nat :: n < m < 8 ==> Bit(b, m) == Bit(c, m)
    ensures b < c
  {
    assert n < 1 ==> Bit(b, 1) == Bit(c, 1);
    assert n < 2 ==> Bit(b, 2) == Bit(c, 2);
    assert n < 3 ==> Bit(b, 3) == Bit(c, 3);
    assert n < 4 ==> Bit(b, 4) == Bit(c, 4);
    assert n < 5 ==> Bit(b, 5) == Bit(c, 5);
    assert n < 6 ==> Bit(b, 6) == Bit(c, 6);
    assert n < 7 ==> Bit(b, 7) == Bit(c, 7);
    if n == 0 {} else if n == 1 {} else if n == 2 {} else if n == 3 {}
    else if n == 4 {} else if n == 5 {} else if n == 6 {} else {}
  }

  /** `x >> n`. */
  function Shifted(x: bv8, n: nat): bv8
    requires n < 8
  {
    x >> n
  }

  lemma ShiftNone(x: bv8)
    ensures Shifted(x, 0) == x
  {
  }

  lemma ShiftMore(x: bv8, n: nat)
    requires n < 8 && Shifted(x, n) >> 1 != 0
    ensures n < 7 && Shifted(x, n) >> 1 == Shifted(x, n + 1)
  {
    if n == 0 {} else if n == 1 {} else if n == 2 {} else if n == 3 {} else if n == 4 {} else if n == 5 {} else {}
  }

  /** `for (bit = 0; diff >>= 1; bit++);`: the highest bit in which two bytes differ. */
  method HighestBit(b: bv8, c: bv8) returns (n: nat)
    requires b != c
    ensures n < 8 && Bit(b, n) != Bit(c, n)
    ensures forall m: nat :: n < m < 8 ==> Bit(b, m) == Bit(c, m)
  {
    hide Bit, Shifted;
    var diff := b ^ c;
    XorIs(b, c);
    ShiftNone(diff);
    n := 0;
    var d := diff >> 1;
    while d != 0
      invariant n < 8 && d == Shifted(diff, n) >> 1 && Shifted(diff, n) != 0
      decreases 8 - n
    {
      ShiftMore(diff, n);
      n := n + 1;
      d := d >> 1;
    }
    OneLeft(Shifted(diff, n));
    XorBits(b, c, n);
  }

  lemma XorIs(b: bv8, c: bv8)
    requires b != c
    ensures b ^ c != 0
  {
  }

  lemma OneLeft(x: bv8)
    requires x != 0 && x >> 1 == 0
    ensures x == 1
  {
  }

  /** A bit of two bytes differs exactly if it is set in their exclusive or. */
  lemma XorBit(b: bv8, c: bv8, n: nat)
    requires n < 8
    ensures Bit(b ^ c, n) <==> Bit(b, n) != Bit(c, n)
  {
    if n == 0 {} else if n == 1 {} else if n == 2 {} else if n == 3 {}
    else if n == 4 {} else if n == 5 {} else if n == 6 {} else {}
  }

  /** Nothing is set above a bit that shifting leaves alone. */
  lemma TopBit(x: bv8, n: nat, m: nat)
    requires n < 8 && Shifted(x, n) == 1 && n <= m < 8
    ensures Bit(x, m) <==> m == n
  {
    if n == 0 {} else if n == 1 {} else if n == 2 {} else if n == 3 {}
    else if n == 4 {} else if n == 5 {} else if n == 6 {} else {}
  }

  lemma XorBits(b: bv8, c: bv8, n: nat)
    requires n < 8 && Shifted(b ^ c, n) == 1
    ensures Bit(b, n) != Bit(c, n)
    ensures forall m: nat :: n < m < 8 ==> Bit(b, m) == Bit(c, m)
  {
    hide Bit, Shifted;
    forall m: nat | n <= m < 8 ensures Bit(b, m) != Bit(c, m) <==> m == n {
      XorBit(b, c, m);
      TopBit(b ^ c, n, m);
    }
  }
}
