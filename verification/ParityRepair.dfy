/** The repair loop over damaged blocks, the read-only scan, and their agreement. */
module ParityRepair {
  import opened Wrappers
  import opened ByteSeqs
  import opened ErasureCode
  import opened Shards
  import opened EcPayloads
  import opened ErrorCorrection
  import opened Reconstruction

  // ---- repair -------------------------------------------------------------

  /** The payload, if it parses and was made for a stream of this length. */
  function ForStream(payload: Bytes, total: nat): Result<Payload, EcError> {
    var parsed := Parse(payload);
    if parsed.Err? then parsed
    else if total != parsed.value.geo.total then Err(StreamLength)
    else parsed
  }

  function Accepted(payload: Bytes, total: nat): Result<Payload, EcError> {
    var pl := ForStream(payload, total);
    if pl.Ok? && !CodeSize(pl.value.geo.k, pl.value.geo.p) then Err(CodeParameters) else pl
  }

  lemma ForStreamIsWellFormed(payload: Bytes, total: nat)
    requires ForStream(payload, total).Ok?
    ensures WellFormed(ForStream(payload, total).value) && ForStream(payload, total).value.geo.total == total
  {
    hide WellFormed, Serialize, Parse;
    SerializeParse(payload);
  }

  /** What a repair of `d` returns and leaves. Nothing is protected by an empty payload. */
  ghost predicate RepairOutcome(e: Engine, payload: Bytes, d: Bytes, d1: Bytes, r: Result<nat, EcError>) {
    if payload == [] then r == Ok(0) && d1 == d
    else
      match Accepted(payload, |d|)
      case Err(x) => r == Err(x) && d1 == d
      case Ok(pl) => Repaired(e, pl, d, d1) && r == Ok(Recovered(e, pl, d, pl.geo.Groups()))
  }

  /** Repair is a function of the payload and the damaged bytes. */
  lemma RepairUnique(e: Engine, payload: Bytes, d: Bytes, d1: Bytes, d2: Bytes, r1: Result<nat, EcError>, r2: Result<nat, EcError>)
    requires RepairOutcome(e, payload, d, d1, r1) && RepairOutcome(e, payload, d, d2, r2)
    ensures d1 == d2 && r1 == r2
  {
    hide Recovered, Slice, RepairedSlice, ForStream, WellFormed;
    if payload != [] && Accepted(payload, |d|).Ok? {
      var pl := Accepted(payload, |d|).value;
      ForStreamIsWellFormed(payload, |d|);
      UsableFacts(pl);
      ShardsOfTotal(pl.geo);
      SlicesDetermine(d1, d2, pl.geo.s);
    }
  }

  ghost predicate SameLengths(a: seq<Bytes>, b: seq<Bytes>) {
    |a| == |b| && forall i :: 0 <= i < |a| ==> |a[i]| == |b[i]|
  }

  lemma MemberSteps(k: nat, g: nat)
    ensures Member(k, g + 1, 0) == Member(k, g, 0) + k
    ensures forall j: nat :: Member(k, g, j) == Member(k, g, 0) + j
  {
  }

  /** Repairs `blocks` in place, group by group. */
  method Reconstruct(e: Engine, blocks: array<Bytes>, payload: Bytes) returns (r: Result<nat, EcError>)
    requires EngineOk(e)
    modifies blocks
    ensures SameLengths(blocks[..], old(blocks[..]))
    ensures RepairOutcome(e, payload, Flatten(old(blocks[..])), Flatten(blocks[..]), r)
    ensures r.Err? ==> blocks[..] == old(blocks[..])
  {
    hide Repaired, Recovered, Parse, EngineOk;
    if payload == [] {
      return Ok(0);
    }
    var d := Concatenate(blocks[..]);
    var parsed := FromBytes(payload);
    if parsed.Err? {
      return Err(parsed.error);
    }
    var pl := parsed.value;
    if |d| != pl.geo.total {
      return Err(StreamLength);
    }
    if !CodeSize(pl.geo.k, pl.geo.p) {
      return Err(CodeParameters);
    }
    ForStreamIsWellFormed(payload, |d|);
    hide WellFormed;
    var d1, recovered, changed := RepairGroups(e, pl, d);
    if changed {
      RepairedLength(e, pl, d, d1);
      Reslice(blocks, d1);
    }
    r := Ok(recovered);
  }

  lemma RepairedLength(e: Engine, pl: Payload, d: Bytes, d1: Bytes)
    requires Repaired(e, pl, d, d1)
    ensures |d1| == |d|
  {
  }

  method RepairGroups(e: Engine, pl: Payload, d: Bytes) returns (d1: Bytes, recovered: nat, changed: bool)
    requires EngineOk(e) && Usable(pl) && |d| == pl.geo.total
    ensures Repaired(e, pl, d, d1) && recovered == Recovered(e, pl, d, pl.geo.Groups())
    ensures !changed ==> d1 == d
  {
    hide Usable, EngineOk, RepairedUpTo, Repaired, WithinBudget, Damaged, GroupSlots, Geometry.Groups, Geometry.DataShards;
    d1, recovered, changed := d, 0, false;
    NothingRepaired(e, pl, d);
    for g := 0 to pl.geo.Groups()
      invariant RepairedUpTo(e, pl, d, g, d1) && |d1| == |d|
      invariant recovered == Recovered(e, pl, d, g)
      invariant !changed ==> d1 == d
    {
      var opt, erased := CollectSlots(e, pl, d1, g);
      SlotsUnchanged(e, pl, d, g, d1);
      GroupOutcome(e, pl, d, g);
      if erased == 0 {
        KeepGroup(e, pl, d, g, d1);
        continue;
      }
      var filled := e.code.fill(pl.geo.k, pl.geo.p, opt);
      if filled.None? {
        KeepGroup(e, pl, d, g, d1);
        continue;
      }
      ghost var before := d1;
      var wrote;
      d1, wrote := WriteGroup(pl.geo, d1, g, filled.value);
      RepairStep(e, pl, d, g, before, d1, filled.value);
      changed := changed || wrote;
      recovered := recovered + erased;
    }
    UsableFacts(pl);
    AllRepaired(e, pl, d, d1);
  }

  /** The slots of one group, and how many of its data shards are damaged. */
  method CollectSlots(e: Engine, pl: Payload, d: Bytes, g: nat) returns (opt: Slots, erased: nat)
    requires Usable(pl) && |d| == pl.geo.total
    ensures opt == GroupSlots(e, pl, d, g) && erased == Damaged(e, pl, d, g)
  {
    hide ShardAt, Member, Usable, StoredParity, Geometry.DataShards;
    UsableFacts(pl);
    opt, erased := [], 0;
    for local := 0 to pl.geo.k
      invariant opt == DataSlots(e, pl, d, g)[..local] && erased == Absent(opt)
    {
      var gi := Member(pl.geo.k, g, local);
      var slot: Option<Bytes>;
      if gi < pl.geo.DataShards() {
        var sh := ShardAt(d, pl.geo.s, gi);
        if e.checksum(sh) == pl.dataSums[gi] {
          slot := Some(sh);
        } else {
          slot := None;
          erased := erased + 1;
        }
      } else {
        slot := Some(Zeros(pl.geo.s));
      }
      assert (opt + [slot])[..|opt|] == opt;
      opt := opt + [slot];
    }
    assert opt == DataSlots(e, pl, d, g);
    for pp := 0 to pl.geo.p
      invariant opt == DataSlots(e, pl, d, g) + ParitySlots(e, pl, g)[..pp]
    {
      opt := opt + [ParitySlot(e, pl, Member(pl.geo.p, g, pp))];
    }
  }

  /** Writes the first `k` of `shards` over group `g`, leaving equal bytes alone. */
  method WriteGroup(geo: Geometry, d: Bytes, g: nat, shards: seq<Bytes>) returns (d1: Bytes, changed: bool)
    requires 0 < geo.s && geo.k <= |shards| && AllOfLength(shards, geo.s) && |d| == geo.total
    ensures |d1| == |d| && (!changed ==> d1 == d)
    ensures forall i: nat :: i < geo.DataShards() ==>
              Slice(d1, geo.s, i) ==
              if Member(geo.k, g, 0) <= i < Member(geo.k, g + 1, 0)
              then Take(shards[i - Member(geo.k, g, 0)], |Slice(d, geo.s, i)|) else Slice(d, geo.s, i)
  {
    hide Slice, PutShard, Member;
    d1, changed := d, false;
    MemberSteps(geo.k, g);
    var base := Member(geo.k, g, 0);
    for local := 0 to geo.k
      invariant |d1| == |d| && (!changed ==> d1 == d)
      invariant forall i: nat :: i < geo.DataShards() ==>
                  Slice(d1, geo.s, i) ==
                  if base <= i < base + local then Take(shards[i - base], |Slice(d, geo.s, i)|) else Slice(d, geo.s, i)
    {
      var gi := Member(geo.k, g, local);
      if gi < geo.DataShards() {
        var sh := shards[local];
        ShardLength(d1, geo.s, gi);
        PutShardAt(d1, geo.s, gi, sh);
        if Slice(d1, geo.s, gi) != sh[..|Slice(d1, geo.s, gi)|] {
          d1 := PutShard(d1, geo.s, gi, sh);
          changed := true;
        }
      }
    }
  }

  /** Copies the repaired stream back over the blocks, each keeping its length. */
  method Reslice(blocks: array<Bytes>, d: Bytes)
    requires |Flatten(blocks[..])| == |d|
    modifies blocks
    ensures SameLengths(blocks[..], old(blocks[..])) && Flatten(blocks[..]) == d
  {
    ghost var was := blocks[..];
    var pos := 0;
    for i := 0 to blocks.Length
      invariant 0 <= pos <= |d| && pos == |Flatten(was[..i])| && |Flatten(was)| == |d|
      invariant Flatten(blocks[..i]) == d[..pos]
      invariant blocks[i..] == was[i..] && SameLengths(blocks[..], was)
    {
      FlattenSplit(was, i);
      var len := |blocks[i]|;
      assert blocks[i] == was[i];
      ghost var done := blocks[..i];
      blocks[i] := d[pos..pos + len];
      assert blocks[..i + 1] == done + [d[pos..pos + len]];
      FlattenSnoc(done, d[pos..pos + len]);
      pos := pos + len;
    }
    assert was[..|was|] == was && blocks[..blocks.Length] == blocks[..];
    assert d[..|d|] == d;
  }

  // ---- the steps of repair ------------------------------------------------

  lemma NothingRepaired(e: Engine, pl: Payload, d: Bytes)
    ensures RepairedUpTo(e, pl, d, 0, d)
  {
  }

  lemma AllRepaired(e: Engine, pl: Payload, d: Bytes, d1: Bytes)
    requires 0 < pl.geo.k && RepairedUpTo(e, pl, d, pl.geo.Groups(), d1)
    ensures Repaired(e, pl, d, d1)
  {
    hide Slice, Geometry.DataShards, RepairedSlice;
    CeilBounds(pl.geo.DataShards(), pl.geo.k);
  }

  /** Groups already written do not change the slots of the groups to come. */
  lemma SlotsUnchanged(e: Engine, pl: Payload, d: Bytes, g: nat, d1: Bytes)
    requires Usable(pl) && |d| == pl.geo.total && RepairedUpTo(e, pl, d, g, d1)
    ensures GroupSlots(e, pl, d1, g) == GroupSlots(e, pl, d, g) && Damaged(e, pl, d1, g) == Damaged(e, pl, d, g)
  {
    hide Slice, ShardAt, RepairedSlice, Member, Usable;
    UsableFacts(pl);
    MemberSteps(pl.geo.k, g);
    forall local: nat | local < pl.geo.k
      ensures DataSlot(e, pl, d1, Member(pl.geo.k, g, local)) == DataSlot(e, pl, d, Member(pl.geo.k, g, local))
    {
      SameShard(d, d1, pl.geo.s, Member(pl.geo.k, g, local));
    }
    assert DataSlots(e, pl, d1, g) == DataSlots(e, pl, d, g);
  }

  lemma GroupOutcome(e: Engine, pl: Payload, d: Bytes, g: nat)
    requires EngineOk(e) && Usable(pl)
    ensures 0 < pl.geo.k && 0 < pl.geo.s
    ensures var filled := Fill(e, pl, d, g);
            && (filled.Some? <==> WithinBudget(e, pl, d, g))
            && (filled.Some? ==> |filled.value| == pl.geo.k + pl.geo.p && AllOfLength(filled.value, pl.geo.s))
  {
    hide Damaged, Surviving, EngineOk, DataSlots, ParitySlots, WellFormed, WithinBudget;
    UsableFacts(pl);
    FillIffWithinBudget(e, pl, d, g);
    SlotsShape(e, pl, d, g);
  }

  /** A group with no damage, or too much, keeps its bytes. */
  lemma KeepGroup(e: Engine, pl: Payload, d: Bytes, g: nat, d1: Bytes)
    requires EngineOk(e) && Usable(pl) && |d| == pl.geo.total && RepairedUpTo(e, pl, d, g, d1)
    requires Damaged(e, pl, d, g) == 0 || !WithinBudget(e, pl, d, g)
    ensures RepairedUpTo(e, pl, d, g + 1, d1)
  {
    hide Slice, ShardAt, RepairedShard, Member, Usable, Damaged, WithinBudget, EngineOk, DataSlot;
    MemberSteps(pl.geo.k, g);
    forall i: nat | Member(pl.geo.k, g, 0) <= i < Member(pl.geo.k, g + 1, 0)
      ensures RepairedSlice(e, pl, d, i) == Slice(d, pl.geo.s, i)
    {
      var local := i - Member(pl.geo.k, g, 0);
      if Damaged(e, pl, d, g) == 0 {
        UndamagedSlot(e, pl, d, g, local);
      }
      RepairedCases(e, pl, d, g, local);
      ShardLength(d, pl.geo.s, i);
    }
  }

  lemma RepairStep(e: Engine, pl: Payload, d: Bytes, g: nat, d1: Bytes, d2: Bytes, shards: seq<Bytes>)
    requires EngineOk(e) && Usable(pl) && |d| == |d2| == pl.geo.total && RepairedUpTo(e, pl, d, g, d1)
    requires 0 < Damaged(e, pl, d, g) && Fill(e, pl, d, g) == Some(shards) && pl.geo.k <= |shards|
    requires forall i: nat :: i < pl.geo.DataShards() ==>
               Slice(d2, pl.geo.s, i) ==
               if Member(pl.geo.k, g, 0) <= i < Member(pl.geo.k, g + 1, 0)
               then Take(shards[i - Member(pl.geo.k, g, 0)], |Slice(d1, pl.geo.s, i)|) else Slice(d1, pl.geo.s, i)
    ensures RepairedUpTo(e, pl, d, g + 1, d2)
  {
    hide Slice, ShardAt, RepairedShard, Member, Usable, Damaged, WithinBudget, EngineOk, DataSlot, Fill, Take,
      Geometry.DataShards;
    MemberSteps(pl.geo.k, g);
    forall i: nat | Member(pl.geo.k, g, 0) <= i < Member(pl.geo.k, g + 1, 0)
      ensures RepairedShard(e, pl, d, i) == shards[i - Member(pl.geo.k, g, 0)]
    {
      GroupOutcome(e, pl, d, g);
      RepairedCases(e, pl, d, g, i - Member(pl.geo.k, g, 0));
    }
  }

  // ---- scanning -----------------------------------------------------------

  function TotalDamaged(e: Engine, pl: Payload, d: Bytes, groups: nat): nat {
    if groups == 0 then 0 else TotalDamaged(e, pl, d, groups - 1) + Damaged(e, pl, d, groups - 1)
  }

  function TotalSurviving(e: Engine, pl: Payload, groups: nat): nat {
    if groups == 0 then 0 else TotalSurviving(e, pl, groups - 1) + Surviving(e, pl, groups - 1)
  }

  /** Groups over their budget, and the damaged shards in them. */
  function OverBudget(e: Engine, pl: Payload, d: Bytes, groups: nat): nat {
    if groups == 0 then 0
    else OverBudget(e, pl, d, groups - 1) + if WithinBudget(e, pl, d, groups - 1) then 0 else 1
  }

  function DamagedBeyond(e: Engine, pl: Payload, d: Bytes, groups: nat): nat {
    if groups == 0 then 0
    else
      DamagedBeyond(e, pl, d, groups - 1)
      + if WithinBudget(e, pl, d, groups - 1) then 0 else Damaged(e, pl, d, groups - 1)
  }

  /** Running totals over every stream scanned. */
  class ShardHealth {
    var totalData: nat
    var totalParity: nat
    var damagedData: nat
    var damagedParity: nat
    var groups: nat
    var unrecoverable: nat

    constructor ()
      ensures totalData == totalParity == damagedData == damagedParity == groups == unrecoverable == 0
    {
      totalData, totalParity, damagedData, damagedParity, groups, unrecoverable := 0, 0, 0, 0, 0, 0;
    }
  }

  /** Adds what a scan of one stream finds, and changes nothing else. */
  method Scan(e: Engine, blocks: seq<Bytes>, payload: Bytes, health: ShardHealth) returns (r: Result<(), EcError>)
    modifies health
    ensures var d := Flatten(blocks);
            var pl := ForStream(payload, |d|);
            if payload == [] || pl.Err? then
              && r == (if payload == [] then Ok(()) else Err(pl.error))
              && unchanged(health)
            else
              var groups := pl.value.geo.Groups();
              && r == Ok(())
              && health.totalData == old(health.totalData) + pl.value.geo.DataShards()
              && health.totalParity == old(health.totalParity) + pl.value.geo.ParityShards()
              && health.damagedData == old(health.damagedData) + TotalDamaged(e, pl.value, d, groups)
              && health.damagedParity + TotalSurviving(e, pl.value, groups)
                 == old(health.damagedParity) + pl.value.geo.ParityShards()
              && health.groups == old(health.groups) + groups
              && health.unrecoverable == old(health.unrecoverable) + OverBudget(e, pl.value, d, groups)
  {
    hide Parse, TotalDamaged, TotalSurviving, OverBudget;
    if payload == [] {
      return Ok(());
    }
    var parsed := FromBytes(payload);
    var d := Concatenate(blocks);
    if parsed.Err? {
      return Err(parsed.error);
    }
    var pl := parsed.value;
    if |d| != pl.geo.total {
      return Err(StreamLength);
    }
    ForStreamIsWellFormed(payload, |d|);
    ScanGroups(e, pl, d, health);
    r := Ok(());
  }

  method ScanGroups(e: Engine, pl: Payload, d: Bytes, health: ShardHealth)
    requires WellFormed(pl) && |d| == pl.geo.total
    modifies health
    ensures health.totalData == old(health.totalData) + pl.geo.DataShards()
    ensures health.totalParity == old(health.totalParity) + pl.geo.ParityShards()
    ensures health.damagedData == old(health.damagedData) + TotalDamaged(e, pl, d, pl.geo.Groups())
    ensures health.damagedParity + TotalSurviving(e, pl, pl.geo.Groups())
            == old(health.damagedParity) + pl.geo.ParityShards()
    ensures health.groups == old(health.groups) + pl.geo.Groups()
    ensures health.unrecoverable == old(health.unrecoverable) + OverBudget(e, pl, d, pl.geo.Groups())
  {
    hide WellFormed, Geometry.Groups, Geometry.DataShards, Damaged, Surviving, Member;
    var count := pl.geo.DataShards();
    NoMembers(pl.geo);
    for g := 0 to pl.geo.Groups()
      invariant health.totalData == old(health.totalData) + Min(count, Member(pl.geo.k, g, 0))
      invariant health.totalParity == old(health.totalParity) + Member(pl.geo.p, g, 0)
      invariant health.damagedData == old(health.damagedData) + TotalDamaged(e, pl, d, g)
      invariant health.damagedParity + TotalSurviving(e, pl, g) == old(health.damagedParity) + Member(pl.geo.p, g, 0)
      invariant health.groups == old(health.groups) + g
      invariant health.unrecoverable == old(health.unrecoverable) + OverBudget(e, pl, d, g)
    {
      MemberSteps(pl.geo.k, g);
      MemberSteps(pl.geo.p, g);
      var damaged := ScanData(e, pl, d, g, health);
      var surviving := ScanParity(e, pl, g, health);
      health.groups := health.groups + 1;
      if damaged > surviving {
        health.unrecoverable := health.unrecoverable + 1;
      }
    }
    WellFormedGroups(pl);
  }

  lemma NoMembers(geo: Geometry)
    ensures Member(geo.k, 0, 0) == 0 && Member(geo.p, 0, 0) == 0
  {
  }

  lemma WellFormedGroups(pl: Payload)
    requires WellFormed(pl)
    ensures pl.geo.DataShards() <= Member(pl.geo.k, pl.geo.Groups(), 0)
    ensures pl.geo.ParityShards() == Member(pl.geo.p, pl.geo.Groups(), 0)
  {
  }

  method ScanData(e: Engine, pl: Payload, d: Bytes, g: nat, health: ShardHealth) returns (damaged: nat)
    requires WellFormed(pl) && |d| == pl.geo.total
    modifies health
    ensures damaged == Damaged(e, pl, d, g)
    ensures health.damagedData == old(health.damagedData) + damaged
    ensures var (a, b) := (Min(pl.geo.DataShards(), Member(pl.geo.k, g, 0)),
                           Min(pl.geo.DataShards(), Member(pl.geo.k, g + 1, 0)));
            health.totalData == old(health.totalData) + b - a
    ensures health.totalParity == old(health.totalParity) && health.damagedParity == old(health.damagedParity)
    ensures health.groups == old(health.groups) && health.unrecoverable == old(health.unrecoverable)
  {
    hide Member, ShardAt, WellFormed, Geometry.DataShards;
    var count := pl.geo.DataShards();
    assert count == |pl.dataSums| by { WellFormedSizes(pl); }
    MemberSteps(pl.geo.k, g);
    var base := Member(pl.geo.k, g, 0);
    damaged := 0;
    for local := 0 to pl.geo.k
      invariant damaged == Absent(DataSlots(e, pl, d, g)[..local])
      invariant health.damagedData == old(health.damagedData) + damaged
      invariant health.totalData == old(health.totalData) + Min(count, base + local) - Min(count, base)
      invariant health.totalParity == old(health.totalParity) && health.damagedParity == old(health.damagedParity)
      invariant health.groups == old(health.groups) && health.unrecoverable == old(health.unrecoverable)
    {
      var slots := DataSlots(e, pl, d, g)[..local + 1];
      assert slots[..local] == DataSlots(e, pl, d, g)[..local];
      var gi := Member(pl.geo.k, g, local);
      if gi >= count {
        continue;
      }
      health.totalData := health.totalData + 1;
      if e.checksum(ShardAt(d, pl.geo.s, gi)) != pl.dataSums[gi] {
        damaged := damaged + 1;
        health.damagedData := health.damagedData + 1;
      }
    }
    assert DataSlots(e, pl, d, g)[..pl.geo.k] == DataSlots(e, pl, d, g);
  }

  lemma WellFormedSizes(pl: Payload)
    requires WellFormed(pl)
    ensures |pl.dataSums| == pl.geo.DataShards() && |pl.paritySums| == pl.geo.ParityShards()
    ensures |pl.parityData| == pl.geo.ParityShards() * pl.geo.s
  {
  }

  method ScanParity(e: Engine, pl: Payload, g: nat, health: ShardHealth) returns (surviving: nat)
    modifies health
    ensures surviving == Surviving(e, pl, g)
    ensures health.damagedParity + surviving == old(health.damagedParity) + pl.geo.p
    ensures health.totalParity == old(health.totalParity) + pl.geo.p
    ensures health.totalData == old(health.totalData) && health.damagedData == old(health.damagedData)
    ensures health.groups == old(health.groups) && health.unrecoverable == old(health.unrecoverable)
  {
    hide Member, ParitySlot;
    surviving := 0;
    for pp := 0 to pl.geo.p
      invariant surviving == Present(ParitySlots(e, pl, g)[..pp])
      invariant health.damagedParity + surviving == old(health.damagedParity) + pp
      invariant health.totalParity == old(health.totalParity) + pp
      invariant health.totalData == old(health.totalData) && health.damagedData == old(health.damagedData)
      invariant health.groups == old(health.groups) && health.unrecoverable == old(health.unrecoverable)
    {
      var slots := ParitySlots(e, pl, g)[..pp + 1];
      assert slots[..pp] == ParitySlots(e, pl, g)[..pp];
      health.totalParity := health.totalParity + 1;
      if ParitySlot(e, pl, Member(pl.geo.p, g, pp)).Some? {
        surviving := surviving + 1;
      } else {
        health.damagedParity := health.damagedParity + 1;
      }
    }
    assert ParitySlots(e, pl, g)[..pl.geo.p] == ParitySlots(e, pl, g);
  }

  // ---- scan and repair agree ----------------------------------------------

  /** The groups whose fill fails are the ones the scan counts as unrecoverable; the shards repair
      recovers and the damaged ones in those groups are all the damaged ones the scan counts. */
  lemma {:induction false} ScanAgrees(e: Engine, pl: Payload, d: Bytes, groups: nat)
    requires EngineOk(e) && Usable(pl)
    ensures |set g: nat | g < groups && Fill(e, pl, d, g).None?| == OverBudget(e, pl, d, groups)
    ensures Recovered(e, pl, d, groups) + DamagedBeyond(e, pl, d, groups) == TotalDamaged(e, pl, d, groups)
  {
    hide Damaged, WithinBudget, EngineOk, Fill, Usable;
    if groups > 0 {
      ScanAgrees(e, pl, d, groups - 1);
      GroupOutcome(e, pl, d, groups - 1);
      var before := set g: nat | g < groups - 1 && Fill(e, pl, d, g).None?;
      var after := set g: nat | g < groups && Fill(e, pl, d, g).None?;
      assert after == if Fill(e, pl, d, groups - 1).None? then before + {groups - 1} else before;
    }
  }

  /** With an intact checksum table, repair leaves no damaged shard in a group it recovers. */
  lemma GroupAfterRepair(e: Engine, pl: Payload, d: Bytes, original: Bytes, d1: Bytes, g: nat)
    requires EngineOk(e) && Usable(pl) && AnyKDetermine(e.code, pl.geo.k, pl.geo.p)
    requires Truthful(e, pl, d, original) && Repaired(e, pl, d, d1)
    requires pl.dataSums == DataChecksums(e, pl.geo, original, pl.geo.DataShards()) && g < pl.geo.Groups()
    ensures Damaged(e, pl, d1, g) == if WithinBudget(e, pl, d, g) then 0 else Damaged(e, pl, d, g)
  {
    hide Usable, ShardAt, Slice, Member, WithinBudget, AnyKDetermine, EngineOk, RepairedSlice, TruthfulParity,
      Geometry.DataShards, Geometry.Groups, GroupIndex, Place, Absent;
    UsableFacts(pl);
    RepairRestores(e, pl, d, original, d1);
    forall local: nat | local < pl.geo.k
      ensures var i := Member(pl.geo.k, g, local);
              if WithinBudget(e, pl, d, g) then DataSlot(e, pl, d1, i).Some?
              else DataSlot(e, pl, d1, i) == DataSlot(e, pl, d, i)
    {
      var i := Member(pl.geo.k, g, local);
      GroupOf(pl.geo.k, g, local);
      SameShard(d1, original, pl.geo.s, i);
      SameShard(d1, d, pl.geo.s, i);
    }
    if WithinBudget(e, pl, d, g) {
      NoneAbsent(DataSlots(e, pl, d1, g));
    } else {
      assert DataSlots(e, pl, d1, g) == DataSlots(e, pl, d, g);
    }
  }

  /** A scan after repair finds damaged data shards only in the groups repair had to skip. */
  lemma {:induction false} ScanAfterRepair(e: Engine, pl: Payload, d: Bytes, original: Bytes, d1: Bytes, groups: nat)
    requires EngineOk(e) && Usable(pl) && AnyKDetermine(e.code, pl.geo.k, pl.geo.p)
    requires Truthful(e, pl, d, original) && Repaired(e, pl, d, d1)
    requires pl.dataSums == DataChecksums(e, pl.geo, original, pl.geo.DataShards()) && groups <= pl.geo.Groups()
    ensures TotalDamaged(e, pl, d1, groups) == DamagedBeyond(e, pl, d, groups)
    ensures OverBudget(e, pl, d1, groups) == OverBudget(e, pl, d, groups)
  {
    hide Damaged, Surviving, Usable, EngineOk, AnyKDetermine, Truthful, Repaired, DataChecksums, Geometry.Groups,
      Geometry.DataShards;
    if groups > 0 {
      ScanAfterRepair(e, pl, d, original, d1, groups - 1);
      GroupAfterRepair(e, pl, d, original, d1, groups - 1);
    }
  }
}
