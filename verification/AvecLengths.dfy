/** How long parity payloads get, and the cap the sidecar reader puts on them. */
module AvecLengths {
  import opened Wrappers
  import opened ByteSeqs
  import opened Shards
  import opened ErasureCode
  import opened EcPayloads
  import opened ErrorCorrection

  /** The payload length for `total` bytes in groups of `k` and `p`. Nothing for an empty stream. */
  function LengthFor(k: nat, p: nat, total: nat): nat
    requires k > 0
  {
    if total == 0 then 0 else GeometryFor(k, p, total).PayloadLen()
  }

  /** The payload length for `total` bytes at `pct` percent. */
  function AvecLen(total: nat, pct: nat): nat {
    var (k, p) := GridFor(pct);
    LengthFor(k, p, total)
  }

  /** The same by 64-bit checked arithmetic. */
  function AvecLenChecked(total: nat, pct: nat): Option<nat> {
    var (k, p) := GridFor(pct);
    if total == 0 then Some(0) else ExpectedLen(GeometryFor(k, p, total))
  }

  /** The most parity the reader accepts for a window. */
  function Cap(total: nat): nat { AvecLen(total, MAX_PCT) }

  // ---- the grid at each level ---------------------------------------------

  lemma GridLevels(pct: nat)
    ensures var (k, p) := GridFor(pct);
            && (pct < 10 ==> p == 1 && 11 <= k <= 20)
            && (10 <= pct <= 44 ==> p == 2 && 5 <= k <= 20)
            && (45 <= pct ==> p == 2 && k == 4)
  {
    var c := Clamp(pct, MIN_PCT, MAX_PCT);
    if c < 10 {
      DivBetween(100 + c / 2, c, 11, 20);
    } else if c <= 44 {
      DivBetween(200 + c / 2, c, 5, 20);
    } else {
      DivBetween(200 + c / 2, c, 4, 4);
    }
  }

  // ---- shard counts by size -----------------------------------------------

  lemma CeilIs(n: nat, d: nat, q: nat)
    requires 0 < d && n <= q * d < n + d
    ensures CeilDiv(n, d) == q
  {
    hide CeilDiv;
    var c := CeilDiv(n, d);
    assert n <= c * d < n + d by { CeilBounds(n, d); }
    LessMul(c, q, d);
    LessMul(q, c, d);
  }

  lemma CeilAtMost(n: nat, d: nat, q: nat)
    requires 0 < d && n <= q * d
    ensures CeilDiv(n, d) <= q
  {
    hide CeilDiv;
    var c := CeilDiv(n, d);
    assert n <= c * d < n + d by { CeilBounds(n, d); }
    LessMul(q, c, d);
  }

  /** Streams that fit one group of shards no larger than the maximum. */
  lemma OneGroup(k: nat, p: nat, total: nat)
    requires 2 <= k && 0 < total <= k * MAX_SHARD
    ensures var geo := GeometryFor(k, p, total);
            && geo.s == Max(MIN_SHARD, CeilDiv(total, k)) <= MAX_SHARD
            && total <= geo.s * k
            && 0 < geo.DataShards() <= k && geo.Groups() == 1
            && LengthFor(k, p, total) == PAYLOAD_HEADER_LEN + CKSUM_LEN * (geo.DataShards() + p) + p * geo.s
  {
    var geo := GeometryFor(k, p, total);
    var c := CeilDiv(total, k);
    assert total <= c * k by { CeilBounds(total, k); }
    CeilAtMost(total, k, MAX_SHARD);
    assert c * k <= geo.s * k;
    var n := geo.DataShards();
    assert geo.s * k == k * geo.s;
    CeilAtMost(total, geo.s, k);
    assert 0 < n by { CeilBounds(total, geo.s); }
    CeilIs(n, k, 1);
  }

  /** Larger streams use shards of the maximum size. */
  lemma ManyGroups(k: nat, p: nat, total: nat)
    requires 2 <= k && k * MAX_SHARD < total
    ensures var geo := GeometryFor(k, p, total);
            && geo.s == MAX_SHARD && geo.DataShards() == CeilDiv(total, MAX_SHARD)
            && geo.Groups() == CeilDiv(CeilDiv(total, MAX_SHARD), k)
  {
    hide CeilDiv;
    var c := CeilDiv(total, k);
    assert total <= c * k by { CeilBounds(total, k); }
    assert c <= MAX_SHARD ==> c * k <= MAX_SHARD * k;
  }

  // ---- no overflow --------------------------------------------------------

  /** No stream of 64-bit length overflows the payload length, at any level. */
  lemma AvecLenFits(total: nat, pct: nat)
    requires total < U64_LIMIT
    ensures AvecLen(total, pct) < U64_LIMIT && AvecLenChecked(total, pct) == Some(AvecLen(total, pct))
  {
    hide GridFor, Geometry.Groups, Geometry.DataShards, CeilDiv;
    GridLevels(pct);
    var (k, p) := GridFor(pct);
    if total > 0 {
      LengthFits(k, p, total);
      ExpectedLenExact(GeometryFor(k, p, total));
    }
  }

  lemma LengthFits(k: nat, p: nat, total: nat)
    requires 4 <= k <= 20 && p <= 2 && 0 < total < U64_LIMIT
    ensures LengthFor(k, p, total) < U64_LIMIT
  {
    hide CeilDiv, Geometry.Groups, Geometry.DataShards;
    var geo := GeometryFor(k, p, total);
    if total <= k * MAX_SHARD {
      OneGroup(k, p, total);
      assert p * geo.s <= 2 * MAX_SHARD;
    } else {
      ManyGroups(k, p, total);
      CeilAtMost(total, MAX_SHARD, 0x1000_0000_0000);
      var n := geo.DataShards();
      assert n <= 0x400_0000_0000 * 4 <= 0x400_0000_0000 * k;
      CeilAtMost(n, k, 0x400_0000_0000);
      assert geo.Groups() * p <= 0x800_0000_0000;
      assert geo.Groups() * p * MAX_SHARD <= 0x800_0000_0000 * MAX_SHARD;
    }
  }

  // ---- the cap ------------------------------------------------------------

  lemma SmallLength(k: nat, p: nat, total: nat)
    requires 4 <= k && 0 < total <= 4 * MIN_SHARD
    ensures LengthFor(k, p, total) ==
            PAYLOAD_HEADER_LEN + CKSUM_LEN * (CeilDiv(total, MIN_SHARD) + p) + p * MIN_SHARD
  {
    hide CeilDiv, Geometry.Groups, Geometry.DataShards;
    assert 4 * MIN_SHARD <= k * MIN_SHARD <= k * MAX_SHARD;
    OneGroup(k, p, total);
    assert MIN_SHARD * k == k * MIN_SHARD;
    CeilAtMost(total, k, MIN_SHARD);
    ShardsAre(GeometryFor(k, p, total));
  }

  lemma ShardsAre(geo: Geometry)
    requires 0 < geo.s
    ensures geo.DataShards() == CeilDiv(geo.total, geo.s)
  {
  }

  /** The cap for a window of one large group. */
  lemma MiddleCap(total: nat)
    requires 4 * MIN_SHARD < total <= 4 * MAX_SHARD
    ensures Cap(total) == 128 + 2 * CeilDiv(total, 4)
  {
    hide Geometry.Groups, Geometry.DataShards, GridFor;
    GridLevels(MAX_PCT);
    OneGroup(4, 2, total);
    var geo := GeometryFor(4, 2, total);
    CeilIs(total, geo.s, 4);
    ShardsAre(geo);
  }

  /** In that range a level of two parity shards exceeds the cap just for the lengths a few bytes
      over four minimal shards. */
  lemma MiddleTwo(k: nat, total: nat)
    requires 5 <= k <= 20 && 4 * MIN_SHARD < total <= 4 * MAX_SHARD
    ensures LengthFor(k, 2, total) > 128 + 2 * CeilDiv(total, 4) <==> total <= 4 * MIN_SHARD + 28
  {
    hide Geometry.Groups, Geometry.DataShards, CeilDiv;
    MulMono(4, k, MAX_SHARD);
    OneGroup(k, 2, total);
    var geo := GeometryFor(k, 2, total);
    var n, c := geo.DataShards(), CeilDiv(total, k);
    ShardsAre(geo);
    if c <= MIN_SHARD {
      FiveShards(total);
      assert total <= 4 * MIN_SHARD + 28 ==> c <= MIN_SHARD;
    } else {
      WideShards(k, total, c);
    }
  }

  lemma FiveShards(total: nat)
    requires 4 * MIN_SHARD < total
    ensures CKSUM_LEN * CeilDiv(total, MIN_SHARD) + 2 * MIN_SHARD > 64 + 2 * CeilDiv(total, 4)
            <==> total <= 4 * MIN_SHARD + 28
  {
  }

  /** Few shards, each larger than the minimum, cost less than four. */
  lemma WideShards(k: nat, total: nat, c: nat)
    requires 5 <= k <= 20 && c == CeilDiv(total, k) && MIN_SHARD < c
    ensures CKSUM_LEN * k + 2 * c <= 64 + 2 * CeilDiv(total, 4) && 4 * MIN_SHARD + 28 < total
  {
    hide CeilDiv;
    var m := CeilDiv(total, 4);
    assert c * k < total + k by { CeilBounds(total, k); }
    assert total <= m * 4 by { CeilBounds(total, 4); }
    MulMono(MIN_SHARD + 1, c, k - 4);
    assert c * (k - 4) == c * k - 4 * c;
    MulMono(5, k, c);
  }

  lemma MiddleOne(k: nat, total: nat)
    requires 5 <= k <= 20 && 4 * MIN_SHARD < total <= 4 * MAX_SHARD
    ensures LengthFor(k, 1, total) <= 128 + 2 * CeilDiv(total, 4)
  {
    hide Geometry.Groups, Geometry.DataShards, CeilDiv;
    MulMono(4, k, MAX_SHARD);
    OneGroup(k, 1, total);
    var m := CeilDiv(total, 4);
    assert total <= m * 4 by { CeilBounds(total, 4); }
    MulMono(4, k, m);
    CeilAtMost(total, k, m);
  }

  lemma LargeLength(k: nat, p: nat, total: nat)
    requires 5 <= k <= 20 && 1 <= p <= 2 && 4 * MAX_SHARD < total
    ensures LengthFor(k, p, total) <= LengthFor(4, 2, total)
  {
    hide Geometry.Groups, Geometry.DataShards, CeilDiv;
    ManyGroups(4, 2, total);
    var n := CeilDiv(total, MAX_SHARD);
    var g4 := CeilDiv(n, 4);
    assert n <= g4 * 4 by { CeilBounds(n, 4); }
    assert total <= n * MAX_SHARD by { CeilBounds(total, MAX_SHARD); }
    if total <= k * MAX_SHARD {
      OneGroup(k, p, total);
      assert p * GeometryFor(k, p, total).s <= 2 * MAX_SHARD;
    } else {
      ManyGroups(k, p, total);
      assert g4 * 4 <= g4 * k;
      CeilAtMost(n, k, g4);
      assert CeilDiv(n, k) * p <= g4 * p <= g4 * 2;
      assert CeilDiv(n, k) * p * MAX_SHARD <= g4 * 2 * MAX_SHARD;
    }
  }

  /** The lengths for which a payload made at this level is too long for the reader. */
  predicate TooLongForReader(total: nat, pct: nat) {
    10 <= pct <= 44 && 4 * MIN_SHARD < total <= 4 * MIN_SHARD + 28
  }

  /** What the encoder writes is within the cap the reader enforces, except for windows of
      16385 to 16412 bytes at 10 to 44 percent, where it never is. */
  lemma WithinCapExactly(total: nat, pct: nat)
    ensures AvecLen(total, pct) <= Cap(total) <==> !TooLongForReader(total, pct)
  {
    hide GridFor, LengthFor, CeilDiv;
    GridLevels(pct);
    GridLevels(MAX_PCT);
    var (k, p) := GridFor(pct);
    if total == 0 {
      EmptyLength(k, p);
      EmptyLength(4, 2);
    } else if pct >= 45 {
    } else if total <= 4 * MIN_SHARD {
      SmallLength(k, p, total);
      SmallLength(4, 2, total);
      assert p * MIN_SHARD <= 2 * MIN_SHARD;
    } else if total <= 4 * MAX_SHARD {
      MiddleCap(total);
      if p == 1 {
        MiddleOne(k, total);
      } else {
        MiddleTwo(k, total);
      }
    } else {
      LargeLength(k, p, total);
    }
  }

  lemma EmptyLength(k: nat, p: nat)
    requires k > 0
    ensures LengthFor(k, p, 0) == 0
  {
  }

  /** The first length that goes wrong, at 15 percent. */
  lemma ShortestTooLong()
    ensures AvecLen(16385, 15) == 8336 && Cap(16385) == 8322
  {
    assert GridFor(15) == (13, 2);
    OneGroup(13, 2, 16385);
    ShardsAre(GeometryFor(13, 2, 16385));
    MiddleCap(16385);
  }

  /** The closed form is the length of the payload the encoder hands out. */
  lemma ProtectLength(e: Engine, k: nat, p: nat, d: Bytes)
    requires EngineOk(e) && CodeSize(k, p) && LengthFor(k, p, |d|) < U64_LIMIT && |d| < U64_LIMIT
    ensures |Protect(e, k, p, d)| == LengthFor(k, p, |d|)
  {
    hide Geometry.Groups, Geometry.DataShards, Protection, Serialize, WellFormed;
    if d != [] {
      ProtectionWellFormed(e, GeometryFor(k, p, |d|), d);
      SerializedLength(Protection(e, GeometryFor(k, p, |d|), d));
      ProtectionGeometry(e, GeometryFor(k, p, |d|), d);
    }
  }
}
