/** Masks on natural numbers and little-endian bytes, as far as libuzi/alignment.c needs them. */
module Bits {

  function Pow2(e: nat): (p: nat)
    ensures p > 0
  {
    if e == 0 then 1 else 2 * Pow2(e - 1)
  }

  function Pow256(e: nat): (p: nat)
    ensures p > 0
  {
    if e == 0 then 1 else 256 * Pow256(e - 1)
  }

  function LowBit(x: nat, m: nat): nat { if x % 2 == 1 && m % 2 == 1 then 1 else 0 }

  /** Bitwise and. */
  function And(x: nat, m: nat): (r: nat)
    ensures r <= x && r <= m
    decreases m
  {
    if m == 0 then 0 else LowBit(x, m) + 2 * And(x / 2, m / 2)
  }

  lemma HalfBelow(x: nat, w: nat)
    requires w > 0 && x < Pow2(w)
    ensures x / 2 < Pow2(w - 1)
  {
  }

  lemma HalfOfAllOnes(w: nat, m: nat)
    requires w > 0 && m < Pow2(w)
    ensures (Pow2(w) - 1 - m) % 2 == 1 - m % 2
    ensures (Pow2(w) - 1 - m) / 2 == Pow2(w - 1) - 1 - m / 2
  {
    assert Pow2(w) == 2 * Pow2(w - 1);
  }

  /** Masking with the complement of m, in a word of w bits, takes away the bits that m has. */
  lemma {:induction false} AndNot(x: nat, m: nat, w: nat)
    requires x < Pow2(w) && m < Pow2(w)
    ensures And(x, Pow2(w) - 1 - m) == x - And(x, m)
    decreases w
  {
    if w > 0 {
      HalfBelow(x, w);
      HalfBelow(m, w);
      HalfOfAllOnes(w, m);
      AndNot(x / 2, m / 2, w - 1);
      AndStep(x, m);
      AndStep(x, Pow2(w) - 1 - m);
    }
  }

  lemma AndStep(x: nat, m: nat)
    ensures And(x, m) == LowBit(x, m) + 2 * And(x / 2, m / 2)
  {
  }

  /** Masking with one less than a power of two is the remainder. */
  lemma {:induction false} AndLowBits(x: nat, k: nat)
    ensures And(x, Pow2(k) - 1) == x % Pow2(k)
    decreases k
  {
    if k > 0 {
      var half := Pow2(k - 1);
      assert Pow2(k) == 2 * half;
      AndLowBits(x / 2, k - 1);
      AndStep(x, Pow2(k) - 1);
      assert (2 * half - 1) % 2 == 1 && (2 * half - 1) / 2 == half - 1;
      HalfRemainder(x, half);
    }
  }

  lemma HalfRemainder(x: nat, half: nat)
    requires half > 0
    ensures x % (2 * half) == x % 2 + 2 * (x / 2 % half)
  {
    var h := x / 2;
    var q := h / half;
    assert h == q * half + h % half;
    assert x == 2 * h + x % 2;
    assert x == q * (2 * half) + (x % 2 + 2 * (h % half));
    RemainderIs(x, 2 * half, q, x % 2 + 2 * (h % half));
  }

  lemma RemainderIs(x: nat, d: nat, q: nat, r: nat)
    requires r < d && x == q * d + r
    ensures x % d == r
  {
    var k := x / d - q;
    assert x == (x / d) * d + x % d;
    assert k * d == (x / d) * d - q * d;
    assert (-k) * d == -(k * d);
    if k > 0 { AtLeast(k, d); }
    if k < 0 { AtLeast(-k, d); }
  }

  lemma AtLeast(k: int, d: int)
    requires k > 0 && d > 0
    ensures k * d >= d
  {
  }

  lemma RoundDown(x: nat, a: nat)
    requires a > 0
    ensures (x - x % a) % a == 0
  {
    assert x == (x / a) * a + x % a;
    RemainderIs(x - x % a, a, x / a, 0);
  }

  type Byte = b: int | 0 <= b < 256

  function LittleEndian(v: nat, n: nat): (s: seq<Byte>)
    ensures |s| == n
  {
    if n == 0 then [] else [v % 256] + LittleEndian(v / 256, n - 1)
  }

  function Value(s: seq<Byte>): nat {
    if s == [] then 0 else s[0] + 256 * Value(s[1..])
  }

  lemma {:induction false} LittleEndianHolds(v: nat, n: nat)
    requires v < Pow256(n)
    ensures Value(LittleEndian(v, n)) == v
    decreases n
  {
    if n > 0 {
      assert Pow256(n) == 256 * Pow256(n - 1);
      LittleEndianHolds(v / 256, n - 1);
    }
  }
}
