/** An erasure code with one or two parity shards that has every property the model asks for: the sum
    of the data, and their sum with weights, in the field of 256 elements. */
module FieldCode {
  import opened Wrappers
  import opened ByteSeqs
  import opened ErasureCode

  // ---- symbols ------------------------------------------------------------

  function Sym(b: byte): bv8 { b as bv8 }

  function Num(s: bv8): byte { s as int }

  lemma NibblesBack(high: nat, low: nat)
    requires high < 16 && low < 16
    ensures ((16 * high + low) as bv8) as int == 16 * high + low
  {
  }

  lemma SymBack(b: byte)
    ensures Num(Sym(b)) == b
  {
    NibblesBack(b / 16, b % 16);
  }

  lemma NumBack(s: bv8)
    ensures Sym(Num(s)) == s
  {
  }

  // ---- weights ------------------------------------------------------------

  function Fold(x: bv8): bv8 { if x & 0x80 != 0 then 0x1D else 0 }

  /** Multiplication by the generator, modulo `x^8 + x^4 + x^3 + x^2 + 1`. */
  function Next(x: bv8): bv8 { Xor(x << 1, Fold(x)) }

  function Next4(x: bv8): bv8 { Next(Next(Next(Next(x)))) }

  /** Multiplication by the `i`-th power of the generator. */
  function Times(i: nat, x: bv8): bv8 {
    if i == 0 then x else Next(Times(i - 1, x))
  }

  function Xor(x: bv8, y: bv8): bv8 { x ^ y }

  lemma XorLaws(x: bv8, y: bv8)
    ensures Xor(x, y) == 0 <==> x == y
    ensures Xor(x, 0) == x && Xor(0, x) == x && Xor(x, x) == 0
  {
  }

  lemma BitsTurn(x: bv8, y: bv8, z: bv8)
    ensures x ^ (y ^ z) == (x ^ y) ^ z == (y ^ x) ^ z
  {
  }

  lemma XorTurn(x: bv8, y: bv8, z: bv8)
    ensures Xor(x, Xor(y, z)) == Xor(Xor(x, y), z) == Xor(Xor(y, x), z)
  {
    BitsTurn(x, y, z);
  }

  lemma XorSwap(a: bv8, b: bv8, c: bv8, d: bv8)
    ensures Xor(Xor(a, b), Xor(c, d)) == Xor(Xor(a, c), Xor(b, d))
  {
    hide Xor;
    XorTurn(a, b, Xor(c, d));
    XorTurn(b, c, d);
    XorTurn(c, b, d);
    XorTurn(a, c, Xor(b, d));
  }

  lemma ShiftXor(x: bv8, y: bv8)
    ensures Xor(x, y) << 1 == Xor(x << 1, y << 1)
  {
  }

  lemma FoldXor(x: bv8, y: bv8)
    ensures Fold(Xor(x, y)) == Xor(Fold(x), Fold(y))
  {
  }

  lemma NextXor(x: bv8, y: bv8)
    ensures Next(Xor(x, y)) == Xor(Next(x), Next(y))
  {
    hide Fold, Xor;
    ShiftXor(x, y);
    FoldXor(x, y);
    XorSwap(x << 1, y << 1, Fold(x), Fold(y));
  }

  lemma NextNonZero(x: bv8)
    ensures Next(x) == 0 <==> x == 0
  {
  }

  lemma {:induction false} TimesXor(i: nat, x: bv8, y: bv8)
    ensures Times(i, Xor(x, y)) == Xor(Times(i, x), Times(i, y))
  {
    if i > 0 {
      hide Next, Xor;
      TimesXor(i - 1, x, y);
      NextXor(Times(i - 1, x), Times(i - 1, y));
    }
  }

  lemma {:induction false} TimesNonZero(i: nat, x: bv8)
    ensures Times(i, x) == 0 <==> x == 0
  {
    if i > 0 {
      hide Next;
      TimesNonZero(i - 1, x);
      NextNonZero(Times(i - 1, x));
    }
  }

  lemma {:induction false} TimesSplit(m: nat, d: nat, x: bv8)
    ensures Times(m + d, x) == Times(m, Times(d, x))
  {
    hide Next;
    if m > 0 {
      TimesSplit(m - 1, d, x);
    }
  }

  lemma FourTimes(i: nat, x: bv8)
    ensures Times(i + 4, x) == Next4(Times(i, x))
  {
    hide Next;
    assert Times(i + 1, x) == Next(Times(i, x));
    assert Times(i + 2, x) == Next(Times(i + 1, x));
    assert Times(i + 3, x) == Next(Times(i + 2, x));
  }

  lemma FewTimes(x: bv8)
    ensures Times(0, x) == x && Times(1, x) == Next(x) && Times(2, x) == Next(Next(x)) && Times(3, x) == Next(Next(Next(x)))
  {
    hide Next;
  }

  lemma FixedTo4(x: bv8)
    ensures Next(x) == x ==> x == 0
    ensures Next(Next(x)) == x ==> x == 0
    ensures Next(Next(Next(x))) == x ==> x == 0
    ensures Next4(x) == x ==> x == 0
  {
  }

  lemma FixedTo8(x: bv8)
    ensures Next4(Next(x)) == x ==> x == 0
    ensures Next4(Next(Next(x))) == x ==> x == 0
    ensures Next4(Next(Next(Next(x)))) == x ==> x == 0
    ensures Next4(Next4(x)) == x ==> x == 0
  {
  }

  lemma FixedAt9(x: bv8)
    ensures Next4(Next4(Next(x))) == x ==> x == 0
  {
  }

  lemma FixedAt10(x: bv8)
    ensures Next4(Next4(Next(Next(x)))) == x ==> x == 0
  {
  }

  lemma FixedAt11(x: bv8)
    ensures Next4(Next4(Next(Next(Next(x))))) == x ==> x == 0
  {
  }

  lemma FixedAt12(x: bv8)
    ensures Next4(Next4(Next4(x))) == x ==> x == 0
  {
  }

  lemma FixedAt13(x: bv8)
    ensures Next4(Next4(Next4(Next(x)))) == x ==> x == 0
  {
  }

  lemma FixedAt14(x: bv8)
    ensures Next4(Next4(Next4(Next(Next(x))))) == x ==> x == 0
  {
  }

  lemma FixedAt15(x: bv8)
    ensures Next4(Next4(Next4(Next(Next(Next(x)))))) == x ==> x == 0
  {
  }

  lemma FixedAt16(x: bv8)
    ensures Next4(Next4(Next4(Next4(x)))) == x ==> x == 0
  {
  }

  lemma FixedAt17(x: bv8)
    ensures Next4(Next4(Next4(Next4(Next(x))))) == x ==> x == 0
  {
  }

  lemma FixedAt18(x: bv8)
    ensures Next4(Next4(Next4(Next4(Next(Next(x)))))) == x ==> x == 0
  {
  }

  lemma FixedAt19(x: bv8)
    ensures Next4(Next4(Next4(Next4(Next(Next(Next(x))))))) == x ==> x == 0
  {
  }

  /** No power of the generator up to the 19th fixes anything but zero. */
  lemma NoFixedPoint(d: nat, x: bv8)
    requires 1 <= d <= 19 && Times(d, x) == x
    ensures x == 0
  {
    hide Next, Next4, Times;
    FewTimes(x);
    if d >= 4 { FourTimes(d - 4, x); }
    if d >= 8 { FourTimes(d - 8, x); }
    if d >= 12 { FourTimes(d - 12, x); }
    if d >= 16 { FourTimes(d - 16, x); }
    FixedTo4(x);
    FixedTo8(x);
    FixedAt9(x);
    FixedAt10(x);
    FixedAt11(x);
    FixedAt12(x);
    FixedAt13(x);
    FixedAt14(x);
    FixedAt15(x);
    FixedAt16(x);
    FixedAt17(x);
    FixedAt18(x);
    FixedAt19(x);
  }

  /** So two weights never agree on a difference. */
  lemma WeightsDiffer(m: nat, n: nat, x: bv8)
    requires m < n < 20 && Times(m, x) == Times(n, x)
    ensures x == 0
  {
    hide Times, Xor;
    var d := n - m;
    TimesSplit(m, d, x);
    TimesXor(m, Times(d, x), x);
    XorLaws(Times(n, x), Times(m, x));
    TimesNonZero(m, Xor(Times(d, x), x));
    XorLaws(Times(d, x), x);
    NoFixedPoint(d, x);
  }

  // ---- columns ------------------------------------------------------------

  function Sum(col: seq<bv8>): bv8 {
    if col == [] then 0 else Xor(Sum(col[..|col| - 1]), col[|col| - 1])
  }

  /** The sum in which position `i` has the `i`-th power of the generator as its weight. */
  function Weighted(col: seq<bv8>): bv8 {
    if col == [] then 0 else Xor(Weighted(col[..|col| - 1]), Times(|col| - 1, col[|col| - 1]))
  }

  function Difference(a: seq<bv8>, b: seq<bv8>, i: nat): bv8 {
    if i < |a| && i < |b| then Xor(a[i], b[i]) else 0
  }

  /** The columns agree but at `m` and `n`. */
  predicate AgreeBut(a: seq<bv8>, b: seq<bv8>, m: nat, n: nat) {
    |a| == |b| && m < n && forall i :: 0 <= i < |a| && i != m && i != n ==> a[i] == b[i]
  }

  lemma {:induction false} SumsDiffer(a: seq<bv8>, b: seq<bv8>, m: nat, n: nat)
    requires AgreeBut(a, b, m, n)
    ensures Xor(Sum(a), Sum(b)) == Xor(Difference(a, b, m), Difference(a, b, n))
    ensures Xor(Weighted(a), Weighted(b)) == Xor(Times(m, Difference(a, b, m)), Times(n, Difference(a, b, n)))
  {
    hide Times, Xor;
    TimesNonZero(m, 0);
    TimesNonZero(n, 0);
    XorLaws(0, 0);
    if a != [] {
      var k := |a| - 1;
      var fa, fb := a[..k], b[..k];
      SumsDiffer(fa, fb, m, n);
      XorSwap(Sum(fa), a[k], Sum(fb), b[k]);
      XorSwap(Weighted(fa), Times(k, a[k]), Weighted(fb), Times(k, b[k]));
      TimesXor(k, a[k], b[k]);
      LastDiffers(a, b, m, n);
    }
  }

  lemma LastDiffers(a: seq<bv8>, b: seq<bv8>, m: nat, n: nat)
    requires AgreeBut(a, b, m, n) && a != []
    ensures var k := |a| - 1;
            var fa, fb, d := a[..k], b[..k], Xor(a[k], b[k]);
            && Xor(Xor(Difference(fa, fb, m), Difference(fa, fb, n)), d) == Xor(Difference(a, b, m), Difference(a, b, n))
            && Xor(Xor(Times(m, Difference(fa, fb, m)), Times(n, Difference(fa, fb, n))), Times(k, d))
               == Xor(Times(m, Difference(a, b, m)), Times(n, Difference(a, b, n)))
  {
    hide Times, Xor;
    var k := |a| - 1;
    var fa, fb, d := a[..k], b[..k], Xor(a[k], b[k]);
    var dm := Difference(fa, fb, m);
    TimesNonZero(m, 0);
    TimesNonZero(n, 0);
    TimesNonZero(k, 0);
    XorLaws(a[k], b[k]);
    XorLaws(d, 0);
    XorLaws(Times(k, d), 0);
    XorLaws(dm, 0);
    XorLaws(Times(m, dm), 0);
    XorLaws(Xor(dm, Difference(fa, fb, n)), 0);
    XorLaws(Xor(Times(m, dm), Times(n, Difference(fa, fb, n))), 0);
  }

  /** Columns that differ in two places at most, and agree in as many of the two sums, are the same. */
  lemma ColumnUnique(a: seq<bv8>, b: seq<bv8>, m: nat, n: nat)
    requires AgreeBut(a, b, m, n) && |a| <= 20
    requires n < |a| ==> Sum(a) == Sum(b) && Weighted(a) == Weighted(b)
    requires m < |a| <= n ==> Sum(a) == Sum(b) || Weighted(a) == Weighted(b)
    ensures a == b
  {
    hide Times, Sum, Weighted, Xor;
    var dm, dn := Difference(a, b, m), Difference(a, b, n);
    SumsDiffer(a, b, m, n);
    XorLaws(Sum(a), Sum(b));
    XorLaws(Weighted(a), Weighted(b));
    XorLaws(dm, dn);
    XorLaws(Times(m, dm), Times(n, dn));
    TimesNonZero(m, dm);
    TimesNonZero(n, dn);
    if n < |a| {
      WeightsDiffer(m, n, dm);
      XorLaws(a[n], b[n]);
    }
    if m < |a| { XorLaws(a[m], b[m]); }
  }

  // ---- the code -----------------------------------------------------------

  function At(shard: Bytes, j: nat): byte {
    if j < |shard| then shard[j] else 0
  }

  function Column(data: seq<Bytes>, j: nat): seq<bv8> {
    seq(|data|, i requires 0 <= i < |data| => Sym(At(data[i], j)))
  }

  /** Parity shard 0 is the sum of the data, byte by byte, and shard 1 the weighted sum. */
  function ParityShard(q: nat, data: seq<Bytes>): Bytes {
    seq(if data == [] then 0 else |data[0]|, j requires j >= 0 =>
      Num(if q == 0 then Sum(Column(data, j)) else Weighted(Column(data, j))))
  }

  function FieldParity(p: nat, data: seq<Bytes>): seq<Bytes> {
    seq(p, q requires q >= 0 => ParityShard(q, data))
  }

  function WidthOf(slots: Slots): nat {
    if slots == [] then 0
    else if slots[0].Some? then |slots[0].value| else WidthOf(slots[1..])
  }

  lemma {:induction false} WidthIs(slots: Slots, s: nat)
    requires SlotsOfLength(slots, s) && 0 < Present(slots)
    ensures WidthOf(slots) == s
  {
    if !slots[0].Some? {
      assert slots == [slots[0]] + slots[1..];
      PresentConcat([slots[0]], slots[1..]);
      PresentOne(slots[0]);
      WidthIs(slots[1..], s);
    }
  }

  /** `data` could be what the slots come from. */
  ghost predicate IsSource(k: nat, p: nat, slots: Slots, data: seq<Bytes>) {
    |data| == k && AllOfLength(data, WidthOf(slots)) && Agrees(slots, data + FieldParity(p, data))
  }

  function Patched(slots: Slots): seq<Bytes> {
    seq(|slots|, i requires 0 <= i < |slots| => if slots[i].Some? then slots[i].value else Zeros(WidthOf(slots)))
  }

  /** The codeword the slots come from, if there is one. */
  ghost function FieldFill(k: nat, p: nat, slots: Slots): Option<seq<Bytes>> {
    if |slots| != k + p || Present(slots) < k then None
    else if exists data :: IsSource(k, p, slots, data) then
      var data :| IsSource(k, p, slots, data);
      Some(data + FieldParity(p, data))
    else Some(Patched(slots))
  }

  ghost const FIELD_CODE := Code((p: nat, data: seq<Bytes>) => FieldParity(p, data),
                                 (k: nat, p: nat, slots: Slots) => FieldFill(k, p, slots))

  // ---- any K shards determine the word ------------------------------------

  /** At most two positions are empty; `m` and `n` cover them, and lie outside when there are fewer. */
  lemma {:induction false} Gaps(slots: Slots) returns (m: nat, n: nat)
    requires Absent(slots) <= 2
    ensures m < n && forall i :: 0 <= i < |slots| && slots[i].None? ==> i == m || i == n
    ensures Absent(slots) <= 1 ==> n >= |slots|
    ensures Absent(slots) == 0 ==> m >= |slots|
    ensures Absent(slots) == 2 ==> n < |slots|
    ensures Absent(slots) >= 1 ==> m < |slots|
  {
    if slots == [] {
      m, n := 0, 1;
    } else {
      var last := |slots| - 1;
      var front := slots[..last];
      m, n := Gaps(front);
      if slots[last].None? {
        if Absent(front) == 0 { m, n := last, last + 1; } else { n := last; }
      } else if Absent(front) == 0 {
        m, n := last + 1, last + 2;
      } else if Absent(front) == 1 {
        n := last + 1;
      }
    }
  }

  lemma SourcesAgree(k: nat, p: nat, slots: Slots, x: seq<Bytes>, y: seq<Bytes>, s: nat)
    requires 0 < k <= 20 && 1 <= p <= 2 && |slots| == k + p && k <= Present(slots)
    requires |x| == k && AllOfLength(x, s) && Agrees(slots, x + FieldParity(p, x))
    requires |y| == k && AllOfLength(y, s) && Agrees(slots, y + FieldParity(p, y))
    ensures x == y
  {
    hide Sum, Weighted, Present, Absent, Sym, Num;
    PresentPlusAbsent(slots);
    var m, n := Gaps(slots);
    forall i | 0 <= i < k
      ensures x[i] == y[i]
    {
      forall j | 0 <= j < s
        ensures x[i][j] == y[i][j]
      {
        ColumnsAgree(k, p, slots, x, y, s, m, n, j);
        assert Column(x, j)[i] == Sym(x[i][j]) && Column(y, j)[i] == Sym(y[i][j]);
        SymBack(x[i][j]);
        SymBack(y[i][j]);
      }
    }
  }

  lemma ColumnsAgree(k: nat, p: nat, slots: Slots, x: seq<Bytes>, y: seq<Bytes>, s: nat, m: nat, n: nat, j: nat)
    requires 0 < k <= 20 && 1 <= p <= 2 && |slots| == k + p && j < s
    requires |x| == k && AllOfLength(x, s) && Agrees(slots, x + FieldParity(p, x))
    requires |y| == k && AllOfLength(y, s) && Agrees(slots, y + FieldParity(p, y))
    requires m < n && (forall i :: 0 <= i < |slots| && slots[i].None? ==> i == m || i == n) && (p == 1 ==> n >= |slots|)
    ensures Column(x, j) == Column(y, j)
  {
    hide Sum, Weighted, Sym, Num;
    var wx, wy := x + FieldParity(p, x), y + FieldParity(p, y);
    var a, b := Column(x, j), Column(y, j);
    forall i | 0 <= i < k && i != m && i != n
      ensures a[i] == b[i]
    {
      assert slots[i].Some? && x[i] == wx[i] == wy[i] == y[i];
    }
    if slots[k].Some? {
      assert ParityShard(0, x) == wx[k] == wy[k] == ParityShard(0, y);
      assert Num(Sum(a)) == ParityShard(0, x)[j] && Num(Sum(b)) == ParityShard(0, y)[j];
      NumBack(Sum(a));
      NumBack(Sum(b));
    }
    if p == 2 && slots[k + 1].Some? {
      assert ParityShard(1, x) == wx[k + 1] == wy[k + 1] == ParityShard(1, y);
      assert Num(Weighted(a)) == ParityShard(1, x)[j] && Num(Weighted(b)) == ParityShard(1, y)[j];
      NumBack(Weighted(a));
      NumBack(Weighted(b));
    }
    ColumnUnique(a, b, m, n);
  }

  lemma FillChooses(k: nat, p: nat, slots: Slots, data: seq<Bytes>) returns (chosen: seq<Bytes>)
    requires IsSource(k, p, slots, data) && k <= Present(slots) && |slots| == k + p
    ensures IsSource(k, p, slots, chosen) && FieldFill(k, p, slots) == Some(chosen + FieldParity(p, chosen))
  {
    hide FieldParity, Present;
    chosen := FieldFill(k, p, slots).value[..k];
  }

  lemma FieldCodeShaped(k: nat, p: nat)
    requires 0 < k && 0 < p
    ensures ParityShape(FIELD_CODE, k, p) && FillShape(FIELD_CODE, k, p)
  {
    hide ParityShard, Present;
    forall data: seq<Bytes>, s: nat | |data| == k && AllOfLength(data, s)
      ensures |FieldParity(p, data)| == p && AllOfLength(FieldParity(p, data), s)
    {
      ParityWidth(p, data, s);
    }
    forall slots: Slots, s: nat | |slots| == k + p && SlotsOfLength(slots, s)
      ensures FieldFill(k, p, slots).Some? <==> k <= Present(slots)
      ensures FieldFill(k, p, slots).Some? ==>
                AllOfLength(FieldFill(k, p, slots).value, s) && Agrees(slots, FieldFill(k, p, slots).value)
    {
      if k <= Present(slots) {
        WidthIs(slots, s);
        if data :| IsSource(k, p, slots, data) {
          var chosen := FillChooses(k, p, slots, data);
          ParityWidth(p, chosen, s);
        }
      }
    }
  }

  lemma ParityWidth(p: nat, data: seq<Bytes>, s: nat)
    requires data != [] && AllOfLength(data, s)
    ensures |FieldParity(p, data)| == p && AllOfLength(FieldParity(p, data), s)
  {
    hide Sum, Weighted, Num;
  }

  /** The hypotheses on the code can be met, with one or two parity shards, for every group size any
      overhead leads to. */
  lemma FieldCodeIsMds(k: nat, p: nat)
    requires 0 < k <= 20 && 1 <= p <= 2
    ensures Shaped(FIELD_CODE) && AnyKDetermine(FIELD_CODE, k, p)
  {
    hide FieldParity, Present, FieldFill;
    forall k: nat, p: nat | CodeSize(k, p)
      ensures ParityShape(FIELD_CODE, k, p) && FillShape(FIELD_CODE, k, p)
    {
      FieldCodeShaped(k, p);
    }
    forall data: seq<Bytes>, slots: Slots, s: nat |
      |data| == k && AllOfLength(data, s) && Agrees(slots, Codeword(FIELD_CODE, p, data)) && k <= Present(slots)
      ensures FieldFill(k, p, slots) == Some(Codeword(FIELD_CODE, p, data))
    {
      FillFinds(k, p, slots, data, s);
    }
  }

  lemma FillFinds(k: nat, p: nat, slots: Slots, data: seq<Bytes>, s: nat)
    requires 0 < k <= 20 && 1 <= p <= 2
    requires |data| == k && AllOfLength(data, s) && Agrees(slots, data + FieldParity(p, data)) && k <= Present(slots)
    ensures FieldFill(k, p, slots) == Some(data + FieldParity(p, data))
  {
    hide FieldParity, Present;
    ParityWidth(p, data, s);
    SlotsWide(slots, data + FieldParity(p, data), s);
    WidthIs(slots, s);
    assert IsSource(k, p, slots, data);
    var chosen := FillChooses(k, p, slots, data);
    SourcesAgree(k, p, slots, chosen, data, s);
  }

  lemma SlotsWide(slots: Slots, word: seq<Bytes>, s: nat)
    requires Agrees(slots, word) && AllOfLength(word, s)
    ensures SlotsOfLength(slots, s)
  {
    forall i | 0 <= i < |slots| && slots[i].Some?
      ensures |slots[i].value| == s
    {
      assert slots[i].value == word[i];
    }
  }
}
