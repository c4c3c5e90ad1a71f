/** Parity over a byte stream: what it is, and what repairing with it does. */
module ErrorCorrection {
  import opened Wrappers
  import opened ByteSeqs
  import opened ErasureCode
  import opened Shards
  import opened EcPayloads

  const MIN_SHARD: nat := 4096
  const MAX_SHARD: nat := 0x10_0000
  const MIN_PCT: nat := 5
  const MAX_PCT: nat := 50

  function Clamp(x: int, lo: int, hi: int): int
    requires lo <= hi
  {
    if x < lo then lo else if x > hi then hi else x
  }

  /** The group that comes nearest to an overhead of `pct` percent. */
  function GridFor(pct: nat): (nat, nat) {
    var c := Clamp(pct, MIN_PCT, MAX_PCT);
    var p := if c < 10 then 1 else 2;
    (Max((p * 100 + c / 2) / c, 2), p)
  }

  /** The grid for a stream of `total` bytes. */
  function GeometryFor(k: nat, p: nat, total: nat): Geometry
    requires k > 0
  {
    Geometry(k, p, Clamp(CeilDiv(total, k), MIN_SHARD, MAX_SHARD), total)
  }

  /** The erasure code and the shard checksum. */
  datatype Engine = Engine(code: Code, checksum: Bytes -> Bytes)

  ghost predicate EngineOk(e: Engine) {
    Shaped(e.code) && forall x :: |e.checksum(x)| == CKSUM_LEN
  }

  /** Every level gives a group the erasure code accepts, with an overhead between its neighbours'. */
  lemma GridBounds(pct: nat)
    ensures var (k, p) := GridFor(pct); CodeSize(k, p) && 4 <= k <= 20 && 1 <= p <= 2
  {
    var c := Clamp(pct, MIN_PCT, MAX_PCT);
    if c < 10 {
      DivBetween(100 + c / 2, c, 11, 20);
    } else {
      DivBetween(200 + c / 2, c, 4, 20);
    }
  }

  /** How far `p` parity shards for `k` data shards are from `c` percent, scaled by `k`. */
  function Miss(k: nat, p: nat, c: nat): nat {
    if 100 * p >= k * c then 100 * p - k * c else k * c - 100 * p
  }

  /** The number of data shards is the one that comes nearest to the level asked for. */
  lemma GridNearest(pct: nat, other: nat)
    ensures var (k, p) := GridFor(pct);
            var c := Clamp(pct, MIN_PCT, MAX_PCT);
            Miss(k, p, c) <= Miss(other, p, c)
  {
    GridBounds(pct);
    var (k, p) := GridFor(pct);
    var c := Clamp(pct, MIN_PCT, MAX_PCT);
    var x := 100 * p + c / 2;
    assert k == x / c && x == k * c + x % c;
    LessMul(k, other, c);
    LessMul(other, k, c);
  }

  lemma DivBetween(x: nat, c: nat, lo: nat, hi: nat)
    requires c > 0 && lo * c <= x < (hi + 1) * c
    ensures lo <= x / c <= hi
  {
    var q := x / c;
    assert x == q * c + x % c;
    LessMul(q, lo, c);
    LessMul(hi, q, c);
    assert (hi + 1) * c == hi * c + c;
  }

  // ---- the parity of a stream ---------------------------------------------

  /** The `k` data shards of group `g`. */
  function GroupData(k: nat, s: nat, d: Bytes, g: nat): seq<Bytes> {
    seq(k, local requires 0 <= local < k => ShardAt(d, s, Member(k, g, local)))
  }

  function ParityOf(e: Engine, geo: Geometry, d: Bytes, g: nat): seq<Bytes> {
    e.code.parity(geo.p, GroupData(geo.k, geo.s, d, g))
  }

  /** The parity shards of the first `groups` groups. */
  function ParityUpTo(e: Engine, geo: Geometry, d: Bytes, groups: nat): seq<Bytes> {
    if groups == 0 then [] else ParityUpTo(e, geo, d, groups - 1) + ParityOf(e, geo, d, groups - 1)
  }

  function Checksums(e: Engine, shards: seq<Bytes>): seq<Bytes> {
    seq(|shards|, i requires 0 <= i < |shards| => e.checksum(shards[i]))
  }

  function DataChecksums(e: Engine, geo: Geometry, d: Bytes, n: nat): seq<Bytes> {
    seq(n, i requires i >= 0 => e.checksum(ShardAt(d, geo.s, i)))
  }

  /** The payload that protects `d`. */
  function Protection(e: Engine, geo: Geometry, d: Bytes): Payload {
    var parity := ParityUpTo(e, geo, d, geo.Groups());
    Payload(geo, DataChecksums(e, geo, d, geo.DataShards()), Checksums(e, parity), Flatten(parity))
  }

  /** Parity shard `pp` of group `g`. */
  function OriginalParity(e: Engine, geo: Geometry, d: Bytes, g: nat, pp: nat): Bytes {
    if pp < |ParityOf(e, geo, d, g)| then ParityOf(e, geo, d, g)[pp] else []
  }

  /** What the encoder hands out: nothing for an empty stream. */
  function Protect(e: Engine, k: nat, p: nat, d: Bytes): Bytes
    requires k > 0
  {
    if d == [] then [] else Serialize(Protection(e, GeometryFor(k, p, |d|), d))
  }

  /** Parity shard `i` of the payload, if it is all there. */
  function StoredParity(pl: Payload, i: nat): Option<Bytes> {
    var start := i * pl.geo.s;
    if start + pl.geo.s <= |pl.parityData| then Some(pl.parityData[start..start + pl.geo.s]) else None
  }

  lemma GroupDataShape(k: nat, s: nat, d: Bytes, g: nat)
    ensures |GroupData(k, s, d, g)| == k && AllOfLength(GroupData(k, s, d, g), s)
  {
  }

  lemma ParityOfShape(e: Engine, geo: Geometry, d: Bytes, g: nat)
    requires Shaped(e.code) && CodeSize(geo.k, geo.p)
    ensures |ParityOf(e, geo, d, g)| == geo.p && AllOfLength(ParityOf(e, geo, d, g), geo.s)
  {
    hide GroupData, AllOfLength;
    GroupDataShape(geo.k, geo.s, d, g);
    assert ParityShape(e.code, geo.k, geo.p);
  }

  lemma {:induction false} FlattenUniform(shards: seq<Bytes>, s: nat, i: nat)
    requires AllOfLength(shards, s)
    ensures |Flatten(shards)| == |shards| * s
    ensures i < |shards| ==> i * s + s <= |shards| * s && Flatten(shards)[i * s..i * s + s] == shards[i]
    decreases |shards|
  {
    if shards != [] {
      var rest := shards[1..];
      assert |shards| * s == s + |rest| * s;
      if i == 0 {
        FlattenUniform(rest, s, 0);
      } else {
        FlattenUniform(rest, s, i - 1);
        if i < |shards| {
          UniformTail(shards[0], Flatten(rest), s, i);
        }
      }
    }
  }

  lemma UniformTail(head: Bytes, tail: Bytes, s: nat, i: nat)
    requires |head| == s && i > 0 && (i - 1) * s + s <= |tail|
    ensures i * s + s <= |head + tail|
    ensures (head + tail)[i * s..i * s + s] == tail[(i - 1) * s..(i - 1) * s + s]
  {
  }

  lemma {:induction false} ParityUpToAt(e: Engine, geo: Geometry, d: Bytes, groups: nat)
    requires Shaped(e.code) && CodeSize(geo.k, geo.p)
    ensures |ParityUpTo(e, geo, d, groups)| == groups * geo.p
    ensures AllOfLength(ParityUpTo(e, geo, d, groups), geo.s)
  {
    if groups > 0 {
      ParityUpToAt(e, geo, d, groups - 1);
      ParityOfShape(e, geo, d, groups - 1);
      assert groups * geo.p == (groups - 1) * geo.p + geo.p;
    }
  }

  /** Parity shard `g * p + pp` is shard `pp` of group `g`'s parity. */
  lemma {:induction false} ParityIndex(e: Engine, geo: Geometry, d: Bytes, groups: nat, g: nat, pp: nat)
    requires Shaped(e.code) && CodeSize(geo.k, geo.p) && g < groups && pp < geo.p
    ensures |ParityOf(e, geo, d, g)| == geo.p
    ensures Member(geo.p, g, pp) < |ParityUpTo(e, geo, d, groups)| == groups * geo.p
    ensures ParityUpTo(e, geo, d, groups)[Member(geo.p, g, pp)] == ParityOf(e, geo, d, g)[pp]
    decreases groups
  {
    hide ParityOf;
    ParityUpToAt(e, geo, d, groups);
    ParityUpToAt(e, geo, d, groups - 1);
    ParityOfShape(e, geo, d, groups - 1);
    assert groups * geo.p == (groups - 1) * geo.p + geo.p;
    if g < groups - 1 {
      ParityIndex(e, geo, d, groups - 1, g, pp);
    }
  }

  /** The encoder's payload is well formed, so it parses back; its parity shards are where
      reconstruction looks for them. */
  lemma ProtectionWellFormed(e: Engine, geo: Geometry, d: Bytes)
    requires EngineOk(e) && geo.Valid() && CodeSize(geo.k, geo.p) && geo.total == |d|
    requires geo.PayloadLen() < U64_LIMIT
    ensures WellFormed(Protection(e, geo, d))
  {
    hide ParityUpTo, Geometry.Groups, Geometry.DataShards, Flatten, AllWide;
    var parity := ParityUpTo(e, geo, d, geo.Groups());
    ParityUpToAt(e, geo, d, geo.Groups());
    ChecksumsWide(e, geo, d, geo.DataShards(), parity);
    FlattenUniform(parity, geo.s, 0);
  }

  lemma ChecksumsWide(e: Engine, geo: Geometry, d: Bytes, n: nat, shards: seq<Bytes>)
    requires EngineOk(e)
    ensures AllWide(DataChecksums(e, geo, d, n)) && AllWide(Checksums(e, shards))
  {
    hide ShardAt, Member;
    forall i | 0 <= i < n
      ensures |DataChecksums(e, geo, d, n)[i]| == CKSUM_LEN
    {
      var shard := ShardAt(d, geo.s, i);
      assert |e.checksum(shard)| == CKSUM_LEN;
    }
  }

  lemma ProtectionGeometry(e: Engine, geo: Geometry, d: Bytes)
    ensures Protection(e, geo, d).geo == geo
  {
  }

  lemma ProtectionParity(e: Engine, geo: Geometry, d: Bytes, g: nat, pp: nat)
    requires EngineOk(e) && geo.Valid() && CodeSize(geo.k, geo.p)
    requires g < geo.Groups() && pp < geo.p
    ensures StoredParity(Protection(e, geo, d), Member(geo.p, g, pp)) == Some(OriginalParity(e, geo, d, g, pp))
  {
    var parity := ParityUpTo(e, geo, d, geo.Groups());
    ParityIndex(e, geo, d, geo.Groups(), g, pp);
    ParityUpToAt(e, geo, d, geo.Groups());
    FlattenUniform(parity, geo.s, Member(geo.p, g, pp));
  }

  lemma FlattenNothing(e: Engine)
    ensures Checksums(e, []) == [] && Flatten<byte>([]) == []
  {
  }

  lemma ParityStep(e: Engine, geo: Geometry, d: Bytes, g: nat)
    ensures var before, after := ParityUpTo(e, geo, d, g), ParityUpTo(e, geo, d, g + 1);
            && Flatten(after) == Flatten(before) + Flatten(ParityOf(e, geo, d, g))
            && Checksums(e, after) == Checksums(e, before) + Checksums(e, ParityOf(e, geo, d, g))
  {
    FlattenConcat(ParityUpTo(e, geo, d, g), ParityOf(e, geo, d, g));
  }

  /** Computes the payload for the concatenation of `blocks`. */
  method ComputeShards(e: Engine, blocks: seq<Bytes>, k: nat, p: nat)
    returns (payload: Bytes, shards: nat, protected: nat)
    requires EngineOk(e) && CodeSize(k, p)
    ensures payload == Protect(e, k, p, Flatten(blocks)) && protected == |Flatten(blocks)|
    ensures var geo := GeometryFor(k, p, protected);
            shards == if protected == 0 then 0 else geo.DataShards() + geo.ParityShards()
  {
    hide Serialize, Protection, CeilDiv, Flatten;
    var d := Concatenate(blocks);
    if d == [] {
      return [], 0, 0;
    }
    var geo := GeometryFor(k, p, |d|);
    var pl := EncodeGroups(e, geo, d);
    payload := ToBytes(pl);
    shards, protected := geo.DataShards() + geo.ParityShards(), |d|;
  }

  method Concatenate(blocks: seq<Bytes>) returns (d: Bytes)
    ensures d == Flatten(blocks)
  {
    d := [];
    for i := 0 to |blocks|
      invariant d == Flatten(blocks[..i])
    {
      FlattenSplit(blocks, i);
      d := d + blocks[i];
    }
    assert blocks[..|blocks|] == blocks;
  }

  /** Checksums every data shard, then encodes group by group. */
  method EncodeGroups(e: Engine, geo: Geometry, d: Bytes) returns (pl: Payload)
    requires geo.k > 0 && geo.s > 0 && geo.total == |d|
    ensures pl == Protection(e, geo, d)
  {
    hide ShardAt, Member, ParityOf, CeilDiv, Checksums, Flatten;
    var count, groups := geo.DataShards(), geo.Groups();
    var dataSums := [];
    for i := 0 to count
      invariant dataSums == DataChecksums(e, geo, d, i)
    {
      dataSums := dataSums + [e.checksum(ShardAt(d, geo.s, i))];
    }
    var paritySums, parityData := [], [];
    FlattenNothing(e);
    for g := 0 to groups
      invariant paritySums == Checksums(e, ParityUpTo(e, geo, d, g))
      invariant parityData == Flatten(ParityUpTo(e, geo, d, g))
    {
      var parity := EncodeGroup(e, geo, d, count, g);
      ParityStep(e, geo, d, g);
      paritySums := paritySums + Checksums(e, parity);
      parityData := parityData + Flatten(parity);
    }
    pl := Payload(geo, dataSums, paritySums, parityData);
  }

  /** The parity of one group; slots past the last real shard stay zero. */
  method EncodeGroup(e: Engine, geo: Geometry, d: Bytes, count: nat, g: nat) returns (parity: seq<Bytes>)
    requires geo.k > 0 && geo.s > 0 && count == CeilDiv(|d|, geo.s)
    ensures parity == ParityOf(e, geo, d, g)
  {
    hide ShardAt, Member;
    var data: seq<Bytes> := [];
    for local := 0 to geo.k
      invariant data == GroupData(geo.k, geo.s, d, g)[..local]
    {
      var gi := Member(geo.k, g, local);
      if gi < count {
        data := data + [ShardAt(d, geo.s, gi)];
      } else {
        VirtualShardIsZero(d, geo.s, gi);
        data := data + [Zeros(geo.s)];
      }
    }
    assert data == GroupData(geo.k, geo.s, d, g);
    parity := e.code.parity(geo.p, data);
  }
}
