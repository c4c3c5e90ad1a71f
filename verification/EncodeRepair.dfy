/** Encoding, damaging and repairing: the round trip of the parity payload. */
module EncodeRepair {
  import opened Wrappers
  import opened ByteSeqs
  import opened ErasureCode
  import opened Shards
  import opened EcPayloads
  import opened ErrorCorrection
  import opened Reconstruction
  import opened ParityRepair

  /** Untouched parity all survives. */
  lemma FreshParitySurvives(e: Engine, geo: Geometry, d: Bytes, g: nat)
    requires EngineOk(e) && geo.Valid() && CodeSize(geo.k, geo.p) && g < geo.Groups()
    ensures Surviving(e, Protection(e, geo, d), g) == geo.p
  {
    hide ParityOf, OriginalParity, ParityUpTo, Member, StoredParity, Flatten, DataChecksums, Geometry.DataShards,
      Geometry.Valid, EngineOk;
    var pl := Protection(e, geo, d);
    forall pp: nat | pp < geo.p
      ensures ParitySlots(e, pl, g)[pp].Some?
    {
      ParitySlotFresh(e, geo, d, g, pp);
    }
    PresentPlusAbsent(ParitySlots(e, pl, g));
    NoneAbsent(ParitySlots(e, pl, g));
  }

  lemma ParitySlotFresh(e: Engine, geo: Geometry, d: Bytes, g: nat, pp: nat)
    requires EngineOk(e) && geo.Valid() && CodeSize(geo.k, geo.p) && g < geo.Groups() && pp < geo.p
    ensures ParitySlot(e, Protection(e, geo, d), Member(geo.p, g, pp)).Some?
  {
    hide ParityOf, ParityUpTo, Member, StoredParity, Flatten, DataChecksums, Geometry.DataShards, Geometry.Groups;
    ProtectionParity(e, geo, d, g, pp);
    ParityIndex(e, geo, d, geo.Groups(), g, pp);
  }

  /** What the encoder hands out is accepted for any stream of the same length. */
  lemma FreshPayloadAccepted(e: Engine, k: nat, p: nat, original: Bytes)
    requires EngineOk(e) && CodeSize(k, p) && 0 < |original| < U64_LIMIT
    requires GeometryFor(k, p, |original|).PayloadLen() < U64_LIMIT
    ensures var geo := GeometryFor(k, p, |original|);
            && geo.Valid() && geo.k == k && geo.p == p && geo.total == |original|
            && Protect(e, k, p, original) != []
            && Accepted(Protect(e, k, p, original), |original|) == Ok(Protection(e, geo, original))
            && Usable(Protection(e, geo, original))
  {
    hide Geometry.Groups, Geometry.DataShards, ParityUpTo, DataChecksums, Serialize, Parse, CeilDiv, Flatten;
    var geo := GeometryFor(k, p, |original|);
    ProtectionWellFormed(e, geo, original);
    ParseSerialize(Protection(e, geo, original));
    SerializedLength(Protection(e, geo, original));
  }

  /** No data shard of `d` has the checksum of the original shard but other bytes. */
  ghost predicate ToldApart(e: Engine, geo: Geometry, d: Bytes, original: Bytes) {
    forall i: nat :: i < geo.DataShards() ==>
      (e.checksum(ShardAt(d, geo.s, i)) == e.checksum(ShardAt(original, geo.s, i)) ==>
         ShardAt(d, geo.s, i) == ShardAt(original, geo.s, i))
  }

  /** Damage of at most `p` data shards a group is within the budget of intact parity. */
  lemma FreshBudget(e: Engine, k: nat, p: nat, original: Bytes, d: Bytes)
    requires EngineOk(e) && CodeSize(k, p)
    requires 0 < |d| == |original| < U64_LIMIT && GeometryFor(k, p, |original|).PayloadLen() < U64_LIMIT
    requires var geo := GeometryFor(k, p, |original|);
             && ToldApart(e, geo, d, original)
             && forall g: nat :: g < geo.Groups() ==> Damaged(e, Protection(e, geo, original), d, g) <= p
    ensures var geo := GeometryFor(k, p, |original|);
            var pl := Protection(e, geo, original);
            && Protect(e, k, p, original) != [] && Accepted(Protect(e, k, p, original), |original|) == Ok(pl)
            && Usable(pl) && pl.geo == geo && geo.k == k && geo.p == p && Truthful(e, pl, d, original)
            && Mendable(e, pl, d, original)
  {
    hide WithinBudget, Mendable, GroupIndex, Slice, Geometry.Groups, Geometry.DataShards, ShardAt, Damaged, Surviving, EngineOk, Accepted, Protect, Protection, Usable,
      GeometryFor;
    var geo := GeometryFor(k, p, |original|);
    FreshPayloadAccepted(e, k, p, original);
    ProtectionGeometry(e, geo, original);
    IntactParityIsTruthful(e, geo, d, original);
    forall g: nat | g < geo.Groups()
      ensures WithinBudget(e, Protection(e, geo, original), d, g)
    {
      FreshParitySurvives(e, geo, original, g);
      WithinIf(e, Protection(e, geo, original), d, g, p);
    }
    AllWithinMend(e, Protection(e, geo, original), d, original);
  }

  lemma WithinIf(e: Engine, pl: Payload, d: Bytes, g: nat, p: nat)
    requires Damaged(e, pl, d, g) <= p == Surviving(e, pl, g)
    ensures WithinBudget(e, pl, d, g)
  {
  }

  /** Encode, damage, repair: with the payload intact and no two shards in play sharing a checksum, any
      damage of at most `p` data shards a group is undone. */
  lemma EncodeDamageRepair(e: Engine, k: nat, p: nat, original: Bytes, d: Bytes, d1: Bytes, r: Result<nat, EcError>)
    requires EngineOk(e) && CodeSize(k, p) && AnyKDetermine(e.code, k, p)
    requires |d| == |original| < U64_LIMIT && GeometryFor(k, p, |original|).PayloadLen() < U64_LIMIT
    requires ToldApart(e, GeometryFor(k, p, |original|), d, original)
    requires var geo := GeometryFor(k, p, |original|);
             forall g: nat :: g < geo.Groups() ==> Damaged(e, Protection(e, geo, original), d, g) <= p
    requires RepairOutcome(e, Protect(e, k, p, original), d, d1, r)
    ensures r.Ok? && d1 == original
  {
    hide Geometry.Groups, Geometry.DataShards, ToldApart, Damaged, EngineOk, AnyKDetermine, Repaired, Recovered, Accepted,
      Protect, Protection, Usable, GeometryFor, Truthful, Mendable;
    if original == [] {
      NothingProtected(e, k, p);
    } else {
      FreshBudget(e, k, p, original, d);
      RepairRestores(e, Protection(e, GeometryFor(k, p, |original|), original), d, original, d1);
    }
  }

  lemma NothingProtected(e: Engine, k: nat, p: nat)
    requires k > 0
    ensures Protect(e, k, p, []) == []
  {
  }

  // ---- one damaged byte ---------------------------------------------------

  /** A byte lies in one shard. */
  lemma OneByteOneShard(original: Bytes, d: Bytes, s: nat, j: nat)
    requires 0 < s && |d| == |original| && forall i :: 0 <= i < |d| && i != j ==> d[i] == original[i]
    ensures forall i: nat :: i != j / s ==> ShardAt(d, s, i) == ShardAt(original, s, i)
  {
    forall i: nat | i != j / s
      ensures Slice(d, s, i) == Slice(original, s, i)
    {
      var lo, hi := Min(i * s, |d|), Min(i * s + s, |d|);
      if lo <= j < hi {
        DivUnique(j, s, i, j - i * s);
      }
      assert forall x :: lo <= x < hi ==> d[x] == original[x];
    }
  }

  lemma {:induction false} AbsentAtMostOne(slots: Slots, m: int)
    requires forall i :: 0 <= i < |slots| && i != m ==> slots[i].Some?
    ensures Absent(slots) <= 1 && (m >= |slots| ==> Absent(slots) == 0)
  {
    if slots != [] {
      AbsentAtMostOne(slots[..|slots| - 1], m);
    }
  }

  /** So one damaged byte damages one shard at most, in whatever group. */
  lemma OneByteDamage(e: Engine, geo: Geometry, original: Bytes, d: Bytes, j: nat, g: nat)
    requires 0 < geo.s && |d| == |original| && forall i :: 0 <= i < |d| && i != j ==> d[i] == original[i]
    ensures Damaged(e, Protection(e, geo, original), d, g) <= 1
  {
    hide ParityUpTo, Flatten, Geometry.DataShards, ShardAt, Absent;
    OneByteOneShard(original, d, geo.s, j);
    var pl := Protection(e, geo, original);
    AbsentAtMostOne(DataSlots(e, pl, d, g), j / geo.s - g * geo.k);
  }
}
