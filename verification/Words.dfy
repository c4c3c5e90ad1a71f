/** 64-bit words and the numbers they stand for: masking with one less than a power of two tests divisibility. */
module Words {
  /** A number cast to a 64-bit word. */
  function Word(n: nat): bv64 {
    if n == 0 then 0 else 2 * Word(n / 2) + if n % 2 == 1 then 1 else 0
  }

  function LowBit(w: bv64): nat { if w & 1 == 1 then 1 else 0 }

  /** The number that the low `bits` bits of a word stand for. */
  function Number(w: bv64, bits: nat): nat {
    if bits == 0 then 0 else 2 * Number(w >> 1, bits - 1) + LowBit(w)
  }

  predicate IsPowerOfTwo(n: nat) {
    n == 1 || (n > 1 && n % 2 == 0 && IsPowerOfTwo(n / 2))
  }

  function Pow2(n: nat): nat { if n == 0 then 1 else 2 * Pow2(n - 1) }

  /** Masking `h` with one less than `w` leaves nothing. */
  predicate MaskClears(h: bv64, w: bv64) { h & (w - 1) == 0 }

  // ---- room to double -----------------------------------------------------

  /** The largest power of two considered here is 2^28. */
  const TOP: nat := 28

  /** 2^62, halved `k` times. */
  function Limit(k: nat): bv64 { if k == 0 then 0x4000_0000_0000_0000 else Limit(k - 1) >> 1 }

  /** `w` is twice `half`. */
  predicate Twice(w: bv64, half: bv64) { w == 2 * half }

  predicate Half(l: bv64, m: bv64) { l == m >> 1 && m <= 0x4000_0000_0000_0000 }

  predicate Under(w: bv64, l: bv64) { w - 1 < l <= 0x4000_0000_0000_0000 }

  lemma {:induction false} LimitLow(k: nat)
    requires k <= TOP
    ensures 0x4_0000_0000 <= Limit(k)
    decreases TOP - k
  {
    if k < TOP {
      LimitLow(k + 1);
    } else {
      assert Limit(14) == 0x1_0000_0000_0000;
    }
  }

  lemma {:induction false} LimitHigh(k: nat)
    ensures Limit(k) <= 0x4000_0000_0000_0000
  {
    if k > 0 { LimitHigh(k - 1); }
  }

  lemma WordOne()
    ensures Word(1) == 1
  {
  }

  lemma MaskOne(h: bv64, k: nat)
    requires k <= TOP
    ensures Under(Word(1), Limit(k)) && MaskClears(h, Word(1))
  {
    LimitLow(k);
    LimitHigh(k);
    WordOne();
  }

  lemma WordDoubles(a: nat)
    requires a > 0 && a % 2 == 0
    ensures Twice(Word(a), Word(a / 2))
  {
    WordEven(a);
    hide Word;
  }

  lemma WordEven(a: nat)
    requires a > 0 && a % 2 == 0
    ensures Word(a) == 2 * Word(a / 2)
  {
  }

  lemma LimitHalves(k: nat)
    ensures Half(Limit(k + 1), Limit(k))
  {
    LimitHigh(k);
  }

  lemma MaskUnder(a: nat, k: nat)
    requires a > 0 && a % 2 == 0 && Under(Word(a / 2), Limit(k + 1))
    ensures Under(Word(a), Limit(k))
  {
    hide Word, Limit, Under, Twice, Half;
    WordDoubles(a);
    LimitHalves(k);
    UnderDoubled(Word(a / 2), Word(a), Limit(k + 1), Limit(k));
  }

  lemma UnderDoubled(half: bv64, w: bv64, l: bv64, m: bv64)
    requires Under(half, l) && Twice(w, half) && Half(l, m)
    ensures Under(w, m)
  {
  }

  // ---- masking is divisibility --------------------------------------------

  lemma SplitMask(h: bv64, half: bv64, l: bv64, w: bv64)
    requires Under(half, l) && Twice(w, half)
    ensures MaskClears(h, w) <==> LowBit(h) == 0 && MaskClears(h >> 1, half)
  {
    assert h & 1 == 0 || h & 1 == 1;
  }

  lemma MaskStep(h: bv64, a: nat, bits: nat, l: bv64)
    requires a > 0 && a % 2 == 0 && bits > 0 && Under(Word(a / 2), l)
    requires MaskClears(h >> 1, Word(a / 2)) <==> Number(h >> 1, bits - 1) % (a / 2) == 0
    ensures MaskClears(h, Word(a)) <==> Number(h, bits) % a == 0
  {
    hide Word, Under, MaskClears, LowBit, Number, Twice;
    WordDoubles(a);
    SplitMask(h, Word(a / 2), l, Word(a));
    NumberStep(h, bits, a / 2);
  }

  lemma NumberStep(h: bv64, bits: nat, a: nat)
    requires bits > 0 && a > 0
    ensures Number(h, bits) % (2 * a) == 0 <==> LowBit(h) == 0 && Number(h >> 1, bits - 1) % a == 0
  {
    NumberSplits(h, bits);
    hide LowBit, Number;
    DivideSplits(Number(h >> 1, bits - 1), LowBit(h), a);
  }

  lemma NumberSplits(h: bv64, bits: nat)
    requires bits > 0
    ensures Number(h, bits) == 2 * Number(h >> 1, bits - 1) + LowBit(h) && LowBit(h) <= 1
  {
  }

  lemma DivideSplits(n: nat, b: nat, a: nat)
    requires a > 0 && b <= 1
    ensures (2 * n + b) % (2 * a) == 0 <==> b == 0 && n % a == 0
  {
    var q, r := n / a, n % a;
    assert n == a * q + r;
    assert 2 * n + b == (2 * a) * q + (2 * r + b);
    Remainder(2 * a, q, 2 * r + b);
  }

  lemma Remainder(m: nat, q: nat, r: nat)
    requires r < m
    ensures (m * q + r) % m == r
  {
    var x := m * q + r;
    var d := x / m - q;
    assert x == m * (x / m) + x % m;
    assert m * d == r - x % m by { assert m * d == m * (x / m) - m * q; }
    Multiple(m, d);
  }

  lemma Multiple(m: nat, d: int)
    requires 0 - m < m * d < m
    ensures d == 0
  {
  }

  lemma {:induction false} MaskDivides(h: bv64, a: nat, n: nat, bits: nat)
    requires IsPowerOfTwo(a) && a <= Pow2(n) && n <= TOP && n <= bits
    ensures Under(Word(a), Limit(TOP - n))
    ensures MaskClears(h, Word(a)) <==> Number(h, bits) % a == 0
    decreases n
  {
    hide Word, Limit, Number, Under, MaskClears;
    if a == 1 {
      MaskOne(h, TOP - n);
    } else {
      MaskDivides(h >> 1, a / 2, n - 1, bits - 1);
      MaskUnder(a, TOP - n);
      MaskStep(h, a, bits, Limit(TOP - n + 1));
    }
  }

  lemma {:induction false} NumberOfZero(bits: nat)
    ensures Number(0, bits) == 0
  {
    if bits > 0 {
      NumberOfZero(bits - 1);
      assert (0 as bv64) >> 1 == 0;
    }
  }

  // ---- rotation -----------------------------------------------------------

  function RotatedByOne(h: bv64): bv64 { h.RotateLeft(1) }

  function WrappingAdd(a: bv64, b: bv64): bv64 { a + b }

  /** Twice `h`, its top bit brought round, plus `t`, in arithmetic modulo 2^64. */
  function Turned(h: bv64, t: bv64): bv64 { 2 * h + h / 0x8000_0000_0000_0000 + t }

  lemma RotationDoubles(h: bv64)
    ensures RotatedByOne(h) == 2 * h + h / 0x8000_0000_0000_0000
  {
    assert h << 1 == 2 * h;
    assert h >> 63 == h / 0x8000_0000_0000_0000;
  }

  lemma AddTurns(h: bv64, t: bv64)
    ensures WrappingAdd(RotatedByOne(h), t) == Turned(h, t)
  {
    hide RotatedByOne;
    RotationDoubles(h);
  }

  /** Rotation does not distribute over the addition, so such a hash is not a sum of rotated entries. */
  lemma RotationIsNotAdditive()
    ensures var top: bv64 := 0x8000_0000_0000_0000;
            RotatedByOne(WrappingAdd(top, top)) == 0 && WrappingAdd(RotatedByOne(top), RotatedByOne(top)) == 2
  {
    RotationDoubles(0x8000_0000_0000_0000);
  }
}
