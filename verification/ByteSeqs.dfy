/** Bytes, little-endian integers, and concatenations of sequences. */
module ByteSeqs {

  type byte = b: int | 0 <= b < 256

  type Bytes = seq<byte>

  const U16_LIMIT: nat := 0x1_0000
  const U32_LIMIT: nat := 0x1_0000_0000
  const U64_LIMIT: nat := 0x1_0000_0000_0000_0000

  function Min(a: int, b: int): int { if a <= b then a else b }

  function Max(a: int, b: int): int { if a >= b then a else b }

  /** `n.div_ceil(d)`. */
  function CeilDiv(n: nat, d: nat): nat
    requires d > 0
  {
    (n + d - 1) / d
  }

  lemma MulMono(a: nat, b: nat, d: nat)
    requires a <= b
    ensures a * d <= b * d
  {
  }

  lemma LessMul(a: nat, b: nat, d: nat)
    ensures a < b ==> a * d + d <= b * d
  {
    if a < b {
      MulMono(a + 1, b, d);
      assert (a + 1) * d == a * d + d;
    }
  }

  /** The quotient is the number between whose multiples `n` lies. */
  lemma DivUnique(n: nat, d: nat, q: nat, r: nat)
    requires n == q * d + r && r < d
    ensures n / d == q && n % d == r
  {
    var p := n / d;
    assert n == p * d + n % d;
    LessMul(p, q, d);
    LessMul(q, p, d);
  }

  function Zeros(n: nat): (z: Bytes)
    ensures |z| == n && forall i :: 0 <= i < n ==> z[i] == 0
  {
    seq(n, _ => 0)
  }

  // ---- little-endian integers ---------------------------------------------

  /** The low `width` bytes of `n`, least significant first. */
  function Le(n: nat, width: nat): (b: Bytes)
    ensures |b| == width
    decreases width
  {
    if width == 0 then [] else [n % 256] + Le(n / 256, width - 1)
  }

  function Val(b: Bytes): nat {
    if b == [] then 0 else b[0] + 256 * Val(b[1..])
  }

  function Pow256(w: nat): nat {
    if w == 0 then 1 else 256 * Pow256(w - 1)
  }

  lemma {:induction false} LeRoundTrip(n: nat, width: nat)
    requires n < Pow256(width)
    ensures Val(Le(n, width)) == n
    decreases width
  {
    if width > 0 {
      LeRoundTrip(n / 256, width - 1);
      assert Le(n, width)[1..] == Le(n / 256, width - 1);
    }
  }

  lemma {:induction false} ValRoundTrip(b: Bytes)
    ensures Val(b) < Pow256(|b|) && Le(Val(b), |b|) == b
  {
    if b != [] {
      ValRoundTrip(b[1..]);
      assert Val(b) % 256 == b[0] && Val(b) / 256 == Val(b[1..]);
    }
  }

  lemma WidthLimits()
    ensures Pow256(2) == U16_LIMIT && Pow256(4) == U32_LIMIT && Pow256(8) == U64_LIMIT
  {
  }

  /** A 64-bit field reads back as what was written. */
  lemma Le8(n: nat)
    requires n < U64_LIMIT
    ensures Val(Le(n, 8)) == n
  {
    WidthLimits();
    LeRoundTrip(n, 8);
  }

  lemma Le4(n: nat)
    requires n < U32_LIMIT
    ensures Val(Le(n, 4)) == n
  {
    WidthLimits();
    LeRoundTrip(n, 4);
  }

  lemma Le2(n: nat)
    requires n < U16_LIMIT
    ensures Val(Le(n, 2)) == n
  {
    WidthLimits();
    LeRoundTrip(n, 2);
  }

  /** A field re-encodes to the bytes it was read from. */
  lemma ReEncode(b: Bytes)
    requires |b| == 2 || |b| == 4 || |b| == 8
    ensures Val(b) < if |b| == 2 then U16_LIMIT else if |b| == 4 then U32_LIMIT else U64_LIMIT
    ensures Le(Val(b), |b|) == b
  {
    WidthLimits();
    ValRoundTrip(b);
  }

  // ---- concatenation ------------------------------------------------------

  function Flatten<T>(ss: seq<seq<T>>): seq<T> {
    if ss == [] then [] else ss[0] + Flatten(ss[1..])
  }

  lemma {:induction false} FlattenConcat<T>(a: seq<seq<T>>, b: seq<seq<T>>)
    ensures Flatten(a + b) == Flatten(a) + Flatten(b)
  {
    if a == [] {
      assert a + b == b;
    } else {
      FlattenConcat(a[1..], b);
      assert (a + b)[1..] == a[1..] + b;
      assert Flatten(a + b) == a[0] + (Flatten(a[1..]) + Flatten(b));
    }
  }

  lemma FlattenSnoc<T>(a: seq<seq<T>>, x: seq<T>)
    ensures Flatten(a + [x]) == Flatten(a) + x
  {
    FlattenConcat(a, [x]);
    assert Flatten([x]) == x + Flatten([x][1..]);
  }

  lemma PrefixSnoc<T>(s: seq<T>, i: nat)
    requires i < |s|
    ensures s[..i + 1] == s[..i] + [s[i]]
  {
  }

  /** Part `i` sits right after the parts before it. */
  lemma FlattenSplit<T>(ss: seq<seq<T>>, i: nat)
    requires i < |ss|
    ensures Flatten(ss) == Flatten(ss[..i]) + ss[i] + Flatten(ss[i + 1..])
    ensures Flatten(ss[..i + 1]) == Flatten(ss[..i]) + ss[i]
  {
    hide Flatten;
    PrefixSnoc(ss, i);
    FlattenSnoc(ss[..i], ss[i]);
    assert ss == ss[..i + 1] + ss[i + 1..];
    FlattenConcat(ss[..i + 1], ss[i + 1..]);
  }

  lemma FlattenPart<T>(ss: seq<seq<T>>, i: nat)
    requires i < |ss|
    ensures var o := |Flatten(ss[..i])|;
            o + |ss[i]| <= |Flatten(ss)| && Flatten(ss)[o..o + |ss[i]|] == ss[i]
  {
    FlattenSplit(ss, i);
  }

  lemma FlattenPrefixLen<T>(ss: seq<seq<T>>, i: nat, j: nat)
    requires i <= j <= |ss|
    ensures |Flatten(ss[..i])| <= |Flatten(ss[..j])|
    ensures Flatten(ss[..i]) == Flatten(ss[..j])[..|Flatten(ss[..i])|]
  {
    assert ss[..j] == ss[..i] + ss[i..j];
    FlattenConcat(ss[..i], ss[i..j]);
  }
}
