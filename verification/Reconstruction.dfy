/** Repairing a byte stream with a parity payload, and scanning it for damage. */
module Reconstruction {
  import opened Wrappers
  import opened ByteSeqs
  import opened ErasureCode
  import opened Shards
  import opened EcPayloads
  import opened ErrorCorrection

  // ---- what is damaged ----------------------------------------------------

  /** Data shard `i`, if its checksum matches. Slots past the stream are zero and always present. */
  function DataSlot(e: Engine, pl: Payload, d: Bytes, i: nat): Option<Bytes> {
    if i >= |pl.dataSums| then Some(Zeros(pl.geo.s))
    else if e.checksum(ShardAt(d, pl.geo.s, i)) == pl.dataSums[i] then Some(ShardAt(d, pl.geo.s, i))
    else None
  }

  function ParitySlot(e: Engine, pl: Payload, i: nat): Option<Bytes> {
    var par := StoredParity(pl, i);
    if par.Some? && i < |pl.paritySums| && e.checksum(par.value) == pl.paritySums[i] then par else None
  }

  function DataSlots(e: Engine, pl: Payload, d: Bytes, g: nat): Slots {
    seq(pl.geo.k, local requires 0 <= local < pl.geo.k => DataSlot(e, pl, d, Member(pl.geo.k, g, local)))
  }

  function ParitySlots(e: Engine, pl: Payload, g: nat): Slots {
    seq(pl.geo.p, pp requires 0 <= pp < pl.geo.p => ParitySlot(e, pl, Member(pl.geo.p, g, pp)))
  }

  function GroupSlots(e: Engine, pl: Payload, d: Bytes, g: nat): Slots {
    DataSlots(e, pl, d, g) + ParitySlots(e, pl, g)
  }

  /** Data shards of group `g` whose checksums do not match. */
  function Damaged(e: Engine, pl: Payload, d: Bytes, g: nat): nat { Absent(DataSlots(e, pl, d, g)) }

  /** Parity shards of group `g` whose checksums match. */
  function Surviving(e: Engine, pl: Payload, g: nat): nat { Present(ParitySlots(e, pl, g)) }

  predicate WithinBudget(e: Engine, pl: Payload, d: Bytes, g: nat) {
    Damaged(e, pl, d, g) <= Surviving(e, pl, g)
  }

  /** A payload that parses and whose group size the erasure code accepts. */
  predicate Usable(pl: Payload) {
    WellFormed(pl) && CodeSize(pl.geo.k, pl.geo.p)
  }

  lemma UsableFacts(pl: Payload)
    requires Usable(pl)
    ensures 0 < pl.geo.k && 0 < pl.geo.p && 0 < pl.geo.s && CodeSize(pl.geo.k, pl.geo.p) && pl.geo.Valid()
    ensures |pl.dataSums| == pl.geo.DataShards() && |pl.paritySums| == pl.geo.ParityShards()
    ensures |pl.parityData| == pl.geo.ParityShards() * pl.geo.s
  {
  }

  lemma DataSlotsShape(e: Engine, pl: Payload, d: Bytes, g: nat)
    ensures |DataSlots(e, pl, d, g)| == pl.geo.k && SlotsOfLength(DataSlots(e, pl, d, g), pl.geo.s)
  {
  }

  lemma ParitySlotsShape(e: Engine, pl: Payload, g: nat)
    ensures |ParitySlots(e, pl, g)| == pl.geo.p && SlotsOfLength(ParitySlots(e, pl, g), pl.geo.s)
  {
  }

  lemma SlotsShape(e: Engine, pl: Payload, d: Bytes, g: nat)
    ensures |DataSlots(e, pl, d, g)| == pl.geo.k && |ParitySlots(e, pl, g)| == pl.geo.p
    ensures SlotsOfLength(GroupSlots(e, pl, d, g), pl.geo.s)
    ensures Present(GroupSlots(e, pl, d, g)) == pl.geo.k - Damaged(e, pl, d, g) + Surviving(e, pl, g)
  {
    hide DataSlots, ParitySlots, Present, Absent;
    DataSlotsShape(e, pl, d, g);
    ParitySlotsShape(e, pl, g);
    PresentConcat(DataSlots(e, pl, d, g), ParitySlots(e, pl, g));
    PresentPlusAbsent(DataSlots(e, pl, d, g));
  }

  // ---- damage, counted on the bytes ---------------------------------------

  /** The places of group `g` whose data shard does not hash to its recorded checksum. */
  function Mismatched(e: Engine, pl: Payload, d: Bytes, g: nat): set<nat> {
    set local: nat | local < pl.geo.k && Member(pl.geo.k, g, local) < |pl.dataSums|
                     && e.checksum(ShardAt(d, pl.geo.s, Member(pl.geo.k, g, local))) != pl.dataSums[Member(pl.geo.k, g, local)]
  }

  /** The stored parity shard `i` is all there and hashes to its recorded checksum. */
  predicate ParityMatches(e: Engine, pl: Payload, i: nat) {
    && i * pl.geo.s + pl.geo.s <= |pl.parityData| && i < |pl.paritySums|
    && e.checksum(pl.parityData[i * pl.geo.s..i * pl.geo.s + pl.geo.s]) == pl.paritySums[i]
  }

  lemma SlotOfMatching(e: Engine, pl: Payload, i: nat)
    ensures ParitySlot(e, pl, i).Some? <==> ParityMatches(e, pl, i)
    ensures ParityMatches(e, pl, i) ==>
              var shard := pl.parityData[i * pl.geo.s..i * pl.geo.s + pl.geo.s];
              ParitySlot(e, pl, i) == Some(shard) && StoredParity(pl, i) == Some(shard)
  {
  }

  /** The places of group `g` whose parity shard matches. */
  function Matching(e: Engine, pl: Payload, g: nat): set<nat> {
    set pp: nat | pp < pl.geo.p && ParityMatches(e, pl, Member(pl.geo.p, g, pp))
  }

  /** A group is within budget exactly when no more of its data shards mismatch than of its parity shards match. */
  lemma BudgetMeans(e: Engine, pl: Payload, d: Bytes, g: nat)
    ensures Damaged(e, pl, d, g) == |Mismatched(e, pl, d, g)| && Surviving(e, pl, g) == |Matching(e, pl, g)|
    ensures WithinBudget(e, pl, d, g) <==> |Mismatched(e, pl, d, g)| <= |Matching(e, pl, g)|
  {
    hide ShardAt, Member, Absent, Present;
    var data, parity := DataSlots(e, pl, d, g), ParitySlots(e, pl, g);
    AbsentAt(data);
    PresentAt(parity);
    assert Mismatched(e, pl, d, g) == set i: nat | i < |data| && data[i].None?;
    assert Matching(e, pl, g) == set i: nat | i < |parity| && parity[i].Some?;
  }

  lemma {:induction false} AbsentAt(slots: Slots)
    ensures Absent(slots) == |set i: nat | i < |slots| && slots[i].None?|
  {
    if slots != [] {
      var n := |slots| - 1;
      AbsentAt(slots[..n]);
      var front := set i: nat | i < n && slots[..n][i].None?;
      var all := set i: nat | i < |slots| && slots[i].None?;
      assert all == if slots[n].None? then front + {n} else front;
    }
  }

  lemma {:induction false} PresentAt(slots: Slots)
    ensures Present(slots) == |set i: nat | i < |slots| && slots[i].Some?|
  {
    if slots != [] {
      var n := |slots| - 1;
      PresentAt(slots[..n]);
      var front := set i: nat | i < n && slots[..n][i].Some?;
      var all := set i: nat | i < |slots| && slots[i].Some?;
      assert all == if slots[n].Some? then front + {n} else front;
    }
  }

  // ---- what repair writes -------------------------------------------------

  function Take(x: Bytes, n: nat): Bytes {
    if n <= |x| then x[..n] else x
  }

  function Fill(e: Engine, pl: Payload, d: Bytes, g: nat): Option<seq<Bytes>> {
    e.code.fill(pl.geo.k, pl.geo.p, GroupSlots(e, pl, d, g))
  }

  /** The data shards of group `g` after repair. */
  function RepairedGroup(e: Engine, pl: Payload, d: Bytes, g: nat): seq<Bytes> {
    var filled := Fill(e, pl, d, g);
    if Damaged(e, pl, d, g) == 0 || filled.None? then GroupData(pl.geo.k, pl.geo.s, d, g) else filled.value
  }

  function RepairedShard(e: Engine, pl: Payload, d: Bytes, i: nat): Bytes {
    var group := RepairedGroup(e, pl, d, GroupIndex(pl.geo.k, i));
    var local := Place(pl.geo.k, i);
    if local < |group| then group[local] else []
  }

  /** Shard `i` after repair, without padding. */
  function RepairedSlice(e: Engine, pl: Payload, d: Bytes, i: nat): Bytes {
    Take(RepairedShard(e, pl, d, i), |Slice(d, pl.geo.s, i)|)
  }

  /** `d1` is `d` with the shards of its first `groups` groups repaired. */
  ghost predicate RepairedUpTo(e: Engine, pl: Payload, d: Bytes, groups: nat, d1: Bytes) {
    && |d1| == |d|
    && forall i: nat :: i < pl.geo.DataShards() ==>
         Slice(d1, pl.geo.s, i) ==
         if i < Member(pl.geo.k, groups, 0) then RepairedSlice(e, pl, d, i) else Slice(d, pl.geo.s, i)
  }

  ghost predicate Repaired(e: Engine, pl: Payload, d: Bytes, d1: Bytes) {
    && |d1| == |d|
    && forall i: nat :: i < pl.geo.DataShards() ==> Slice(d1, pl.geo.s, i) == RepairedSlice(e, pl, d, i)
  }

  /** The damaged shards of the first `groups` groups that are within budget. */
  function Recovered(e: Engine, pl: Payload, d: Bytes, groups: nat): nat {
    if groups == 0 then 0
    else
      Recovered(e, pl, d, groups - 1)
      + if WithinBudget(e, pl, d, groups - 1) then Damaged(e, pl, d, groups - 1) else 0
  }

  /** A group can be filled exactly when it is within budget. */
  lemma FillIffWithinBudget(e: Engine, pl: Payload, d: Bytes, g: nat)
    requires EngineOk(e) && CodeSize(pl.geo.k, pl.geo.p)
    ensures var filled := Fill(e, pl, d, g);
            && (filled.Some? <==> WithinBudget(e, pl, d, g))
            && (filled.Some? ==> AllOfLength(filled.value, pl.geo.s) && Agrees(GroupSlots(e, pl, d, g), filled.value))
  {
    hide DataSlots, ParitySlots, Present, Absent;
    SlotsShape(e, pl, d, g);
    assert FillShape(e.code, pl.geo.k, pl.geo.p);
  }

  lemma DataSlotIn(e: Engine, pl: Payload, d: Bytes, g: nat, local: nat)
    requires local < pl.geo.k
    ensures |GroupSlots(e, pl, d, g)| == pl.geo.k + pl.geo.p
    ensures GroupSlots(e, pl, d, g)[local] == DataSlot(e, pl, d, Member(pl.geo.k, g, local))
    ensures |GroupData(pl.geo.k, pl.geo.s, d, g)| == pl.geo.k
    ensures GroupData(pl.geo.k, pl.geo.s, d, g)[local] == ShardAt(d, pl.geo.s, Member(pl.geo.k, g, local))
  {
  }

  /** A present data slot holds the shard as it is. */
  lemma DataSlotIsShard(e: Engine, pl: Payload, d: Bytes, i: nat)
    requires 0 < pl.geo.s && |pl.dataSums| == pl.geo.DataShards() && |d| == pl.geo.total
    ensures DataSlot(e, pl, d, i).Some? ==> DataSlot(e, pl, d, i) == Some(ShardAt(d, pl.geo.s, i))
  {
    hide ShardAt, Slice;
    if i >= |pl.dataSums| {
      VirtualShardIsZero(d, pl.geo.s, i);
    }
  }

  /** Shard `local` of group `g` after repair, by cases. */
  lemma RepairedCases(e: Engine, pl: Payload, d: Bytes, g: nat, local: nat)
    requires EngineOk(e) && Usable(pl) && local < pl.geo.k && |d| == pl.geo.total
    ensures var i := Member(pl.geo.k, g, local);
            var filled := Fill(e, pl, d, g);
            && |RepairedShard(e, pl, d, i)| == pl.geo.s
            && (!WithinBudget(e, pl, d, g) || DataSlot(e, pl, d, i).Some? ==>
                 RepairedShard(e, pl, d, i) == ShardAt(d, pl.geo.s, i))
            && (WithinBudget(e, pl, d, g) && 0 < Damaged(e, pl, d, g) ==>
                 filled.Some? && local < |filled.value| && RepairedShard(e, pl, d, i) == filled.value[local])
  {
    hide GroupSlots, DataSlots, ParitySlots, Present, Absent, ShardAt, Slice, GroupData, DataSlot, Usable, Member,
      WithinBudget, Damaged, Fill;
    var i := Member(pl.geo.k, g, local);
    UsableFacts(pl);
    GroupOf(pl.geo.k, g, local);
    FillIffWithinBudget(e, pl, d, g);
    DataSlotIn(e, pl, d, g, local);
    DataSlotIsShard(e, pl, d, i);
    ShardLength(d, pl.geo.s, i);
  }

  /** The mismatched data shards of the groups in which parity can make up for them. */
  function MadeUpFor(e: Engine, pl: Payload, d: Bytes, groups: nat): nat {
    if groups == 0 then 0
    else
      var g := groups - 1;
      var lost := |Mismatched(e, pl, d, g)|;
      MadeUpFor(e, pl, d, g) + if lost <= |Matching(e, pl, g)| then lost else 0
  }

  /** Those are the shards a repair reports. */
  lemma {:induction false} RecoveredCounts(e: Engine, pl: Payload, d: Bytes, groups: nat)
    ensures Recovered(e, pl, d, groups) == MadeUpFor(e, pl, d, groups)
  {
    hide Damaged, Surviving, WithinBudget, Mismatched, Matching;
    if groups > 0 {
      RecoveredCounts(e, pl, d, groups - 1);
      BudgetMeans(e, pl, d, groups - 1);
    }
  }

  // ---- what repair achieves -----------------------------------------------

  /** Repair never alters a shard whose checksum matches, nor any shard of a group that is over
      its budget. */
  lemma MatchingShardsKept(e: Engine, pl: Payload, d: Bytes, d1: Bytes, i: nat)
    requires EngineOk(e) && Usable(pl) && |d| == pl.geo.total && Repaired(e, pl, d, d1)
    requires i < pl.geo.DataShards()
    requires DataSlot(e, pl, d, i).Some? || !WithinBudget(e, pl, d, GroupIndex(pl.geo.k, i))
    ensures Slice(d1, pl.geo.s, i) == Slice(d, pl.geo.s, i)
  {
    hide ShardAt, Slice, RepairedShard, WithinBudget, Damaged, DataSlot, Usable, Fill, GroupIndex, Place,
      Geometry.DataShards, Member, EngineOk;
    UsableFacts(pl);
    InGroup(pl.geo.k, i);
    RepairedCases(e, pl, d, GroupIndex(pl.geo.k, i), Place(pl.geo.k, i));
    ShardLength(d, pl.geo.s, i);
  }

  /** A matching checksum means an original shard, of the data or of its parity. */
  ghost predicate Truthful(e: Engine, pl: Payload, d: Bytes, original: Bytes) {
    && |d| == |original| == pl.geo.total
    && (forall i: nat :: i < pl.geo.DataShards() && i < |pl.dataSums| && e.checksum(ShardAt(d, pl.geo.s, i)) == pl.dataSums[i] ==>
         Slice(d, pl.geo.s, i) == Slice(original, pl.geo.s, i))
    && (forall g: nat, pp: nat :: g < pl.geo.Groups() && pp < pl.geo.p ==>
         TruthfulParity(e, pl, original, g, pp))
  }

  predicate TruthfulParity(e: Engine, pl: Payload, original: Bytes, g: nat, pp: nat) {
    var i := Member(pl.geo.p, g, pp);
    ParityMatches(e, pl, i) ==> pl.parityData[i * pl.geo.s..i * pl.geo.s + pl.geo.s] == OriginalParity(e, pl.geo, original, g, pp)
  }

  lemma OriginalShard(e: Engine, pl: Payload, d: Bytes, original: Bytes, i: nat)
    requires Usable(pl) && Truthful(e, pl, d, original) && DataSlot(e, pl, d, i).Some?
    ensures DataSlot(e, pl, d, i).value == ShardAt(original, pl.geo.s, i)
  {
    hide ParitySlot, ShardAt, Slice, TruthfulParity, Usable;
    UsableFacts(pl);
    DataSlotIsShard(e, pl, d, i);
    if i >= |pl.dataSums| {
      VirtualShardIsZero(original, pl.geo.s, i);
    } else {
      SameShard(d, original, pl.geo.s, i);
    }
  }

  lemma DataSlotsOfOriginal(e: Engine, pl: Payload, d: Bytes, original: Bytes, g: nat)
    requires Usable(pl) && Truthful(e, pl, d, original)
    ensures Agrees(DataSlots(e, pl, d, g), GroupData(pl.geo.k, pl.geo.s, original, g))
  {
    hide ShardAt, DataSlot, Member, Usable, Truthful;
    forall i | 0 <= i < pl.geo.k && DataSlots(e, pl, d, g)[i].Some?
      ensures DataSlots(e, pl, d, g)[i].value == GroupData(pl.geo.k, pl.geo.s, original, g)[i]
    {
      OriginalShard(e, pl, d, original, Member(pl.geo.k, g, i));
    }
  }

  lemma ParitySlotsOfOriginal(e: Engine, pl: Payload, d: Bytes, original: Bytes, g: nat)
    requires EngineOk(e) && CodeSize(pl.geo.k, pl.geo.p) && Truthful(e, pl, d, original) && g < pl.geo.Groups()
    ensures Agrees(ParitySlots(e, pl, g), ParityOf(e, pl.geo, original, g))
  {
    hide ParitySlot, Member, ParityOf, EngineOk;
    assert Shaped(e.code) by { EngineCodeShaped(e); }
    ParityOfShape(e, pl.geo, original, g);
    forall pp: nat | pp < pl.geo.p && ParitySlots(e, pl, g)[pp].Some?
      ensures ParitySlots(e, pl, g)[pp].value == ParityOf(e, pl.geo, original, g)[pp]
    {
      assert TruthfulParity(e, pl, original, g, pp);
      SlotOfMatching(e, pl, Member(pl.geo.p, g, pp));
    }
  }

  lemma EngineCodeShaped(e: Engine)
    requires EngineOk(e)
    ensures Shaped(e.code)
  {
  }

  lemma AgreesConcat(a: Slots, b: Slots, x: seq<Bytes>, y: seq<Bytes>)
    requires Agrees(a, x) && Agrees(b, y)
    ensures Agrees(a + b, x + y)
  {
  }

  /** The slots of a group are shards of the original codeword. */
  lemma SlotsOfOriginal(e: Engine, pl: Payload, d: Bytes, original: Bytes, g: nat)
    requires EngineOk(e) && Usable(pl) && Truthful(e, pl, d, original) && g < pl.geo.Groups()
    ensures Agrees(GroupSlots(e, pl, d, g), Codeword(e.code, pl.geo.p, GroupData(pl.geo.k, pl.geo.s, original, g)))
  {
    hide Agrees, Truthful, DataSlots, ParitySlots, EngineOk, GroupData, Geometry.Groups, WellFormed;
    DataSlotsOfOriginal(e, pl, d, original, g);
    ParitySlotsOfOriginal(e, pl, d, original, g);
    AgreesConcat(DataSlots(e, pl, d, g), ParitySlots(e, pl, g),
                 GroupData(pl.geo.k, pl.geo.s, original, g), ParityOf(e, pl.geo, original, g));
  }

  /** Within budget, the fill of a group is the original codeword. */
  lemma FillIsOriginal(e: Engine, pl: Payload, d: Bytes, original: Bytes, g: nat)
    requires EngineOk(e) && Usable(pl) && AnyKDetermine(e.code, pl.geo.k, pl.geo.p)
    requires Truthful(e, pl, d, original) && g < pl.geo.Groups() && WithinBudget(e, pl, d, g)
    ensures Fill(e, pl, d, g) == Some(Codeword(e.code, pl.geo.p, GroupData(pl.geo.k, pl.geo.s, original, g)))
  {
    hide Agrees, Truthful, GroupSlots, EngineOk, GroupData, Geometry.Groups, WellFormed, Damaged, Surviving,
      Present, AllOfLength, Codeword;
    SlotsOfOriginal(e, pl, d, original, g);
    GroupDataShape(pl.geo.k, pl.geo.s, original, g);
    SlotsShape(e, pl, d, g);
    var data := GroupData(pl.geo.k, pl.geo.s, original, g);
    assert Agrees(GroupSlots(e, pl, d, g), Codeword(e.code, pl.geo.p, data));
  }

  lemma UndamagedSlot(e: Engine, pl: Payload, d: Bytes, g: nat, local: nat)
    requires local < pl.geo.k && Damaged(e, pl, d, g) == 0
    ensures DataSlot(e, pl, d, Member(pl.geo.k, g, local)).Some?
  {
    hide DataSlot, Member;
    NoneAbsent(DataSlots(e, pl, d, g));
    assert DataSlots(e, pl, d, g)[local].Some?;
  }

  lemma GroupInRange(geo: Geometry, i: nat)
    requires i < geo.DataShards() && 0 < geo.k
    ensures GroupIndex(geo.k, i) < geo.Groups()
  {
  }

  /** Within budget, a repaired shard is the original shard. */
  lemma ShardRestored(e: Engine, pl: Payload, d: Bytes, original: Bytes, g: nat, local: nat)
    requires EngineOk(e) && Usable(pl) && AnyKDetermine(e.code, pl.geo.k, pl.geo.p)
    requires Truthful(e, pl, d, original)
    requires g < pl.geo.Groups() && local < pl.geo.k && WithinBudget(e, pl, d, g)
    ensures RepairedShard(e, pl, d, Member(pl.geo.k, g, local)) == ShardAt(original, pl.geo.s, Member(pl.geo.k, g, local))
  {
    hide ShardAt, Slice, RepairedShard, DataSlots, ParitySlots, GroupData, DataSlot, Damaged, Surviving, Fill,
      Usable, Member, EngineOk, AnyKDetermine, Geometry.Groups, WithinBudget, GroupSlots;
    var i := Member(pl.geo.k, g, local);
    assert |d| == pl.geo.total;
    hide Truthful;
    RepairedCases(e, pl, d, g, local);
    if Damaged(e, pl, d, g) == 0 {
      UndamagedSlot(e, pl, d, g, local);
      UsableFacts(pl);
      OriginalShard(e, pl, d, original, i);
      DataSlotIsShard(e, pl, d, i);
    } else {
      FillIsOriginal(e, pl, d, original, g);
      DataSlotIn(e, pl, original, g, local);
    }
  }

  /** Every data shard that differs from the original is in a group that is within its budget. */
  ghost predicate Mendable(e: Engine, pl: Payload, d: Bytes, original: Bytes) {
    forall i: nat :: i < pl.geo.DataShards() && Slice(d, pl.geo.s, i) != Slice(original, pl.geo.s, i) ==>
      WithinBudget(e, pl, d, GroupIndex(pl.geo.k, i))
  }

  lemma AllWithinMend(e: Engine, pl: Payload, d: Bytes, original: Bytes)
    requires 0 < pl.geo.k && forall g: nat :: g < pl.geo.Groups() ==> WithinBudget(e, pl, d, g)
    ensures Mendable(e, pl, d, original)
  {
    hide WithinBudget, Slice, Geometry.DataShards, Geometry.Groups, GroupIndex;
    forall i: nat | i < pl.geo.DataShards()
      ensures WithinBudget(e, pl, d, GroupIndex(pl.geo.k, i))
    {
      GroupInRange(pl.geo, i);
    }
  }

  /** Repair restores every group that is within its budget and leaves every other group alone. It restores
      the stream exactly when no group over its budget holds a shard that differs from the original. */
  lemma RepairRestores(e: Engine, pl: Payload, d: Bytes, original: Bytes, d1: Bytes)
    requires EngineOk(e) && Usable(pl) && AnyKDetermine(e.code, pl.geo.k, pl.geo.p)
    requires Truthful(e, pl, d, original) && Repaired(e, pl, d, d1)
    ensures forall i: nat :: i < pl.geo.DataShards() ==>
              Slice(d1, pl.geo.s, i) ==
              if WithinBudget(e, pl, d, GroupIndex(pl.geo.k, i)) then Slice(original, pl.geo.s, i) else Slice(d, pl.geo.s, i)
    ensures d1 == original <==> Mendable(e, pl, d, original)
  {
    hide Slice, ShardAt, WithinBudget, AnyKDetermine, RepairedShard, EngineOk, DataSlot, TruthfulParity, Usable,
      Geometry.DataShards, Geometry.Groups, Member, GroupIndex, Place, Damaged, DataSlots, ParitySlots,
      OriginalParity;
    UsableFacts(pl);
    forall i: nat | i < pl.geo.DataShards()
      ensures GroupIndex(pl.geo.k, i) < pl.geo.Groups()
      ensures Slice(d1, pl.geo.s, i) ==
              if WithinBudget(e, pl, d, GroupIndex(pl.geo.k, i)) then Slice(original, pl.geo.s, i) else Slice(d, pl.geo.s, i)
    {
      GroupInRange(pl.geo, i);
      if WithinBudget(e, pl, d, GroupIndex(pl.geo.k, i)) {
        InGroup(pl.geo.k, i);
        ShardRestored(e, pl, d, original, GroupIndex(pl.geo.k, i), Place(pl.geo.k, i));
        ShardLength(original, pl.geo.s, i);
        SlicesAlike(d, original, pl.geo.s, i);
      } else {
        MatchingShardsKept(e, pl, d, d1, i);
      }
    }
    if Mendable(e, pl, d, original) {
      ShardsOfTotal(pl.geo);
      SlicesDetermine(d1, original, pl.geo.s);
    }
  }

  lemma ShardsOfTotal(geo: Geometry)
    requires 0 < geo.s
    ensures geo.DataShards() == CeilDiv(geo.total, geo.s)
  {
  }

  lemma SlicesAlike(a: Bytes, b: Bytes, s: nat, i: nat)
    requires |a| == |b|
    ensures |Slice(a, s, i)| == |Slice(b, s, i)|
  {
  }

  /** Undamaged parity of the original is truthful as soon as no two shards in play share a checksum. */
  lemma IntactParityIsTruthful(e: Engine, geo: Geometry, d: Bytes, original: Bytes)
    requires EngineOk(e) && geo.Valid() && CodeSize(geo.k, geo.p) && |d| == |original| == geo.total
    requires forall i: nat :: i < geo.DataShards() ==>
               e.checksum(ShardAt(d, geo.s, i)) == e.checksum(ShardAt(original, geo.s, i)) ==>
                 ShardAt(d, geo.s, i) == ShardAt(original, geo.s, i)
    ensures Truthful(e, Protection(e, geo, original), d, original)
  {
    hide ShardAt, Slice, Flatten, ParityUpTo, ParityOf, StoredParity, Geometry.DataShards, Geometry.Groups,
      OriginalParity, Member, EngineOk, Geometry.Valid;
    var pl := Protection(e, geo, original);
    forall i: nat | i < geo.DataShards() && DataSlot(e, pl, d, i).Some?
      ensures Slice(d, geo.s, i) == Slice(original, geo.s, i)
    {
      SameShard(d, original, geo.s, i);
    }
    forall g: nat, pp: nat | g < geo.Groups() && pp < geo.p
      ensures TruthfulParity(e, pl, original, g, pp)
    {
      ProtectionParity(e, geo, original, g, pp);
      SlotOfMatching(e, pl, Member(geo.p, g, pp));
    }
  }
}
