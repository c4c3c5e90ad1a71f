/** The loops that write, vote on, decode and open a sidecar, each equal to its function. */
module SidecarReaders {
  import opened Wrappers
  import opened ByteSeqs
  import opened Sidecars

  // ---- writing ------------------------------------------------------------

  lemma {:induction false} RecordsSnoc(segs: seq<Segment>, i: nat)
    requires i < |segs|
    ensures Records(segs[..i + 1]) == Records(segs[..i]) + Record(segs[i])
    ensures Avecs(segs[..i + 1]) == Avecs(segs[..i]) + segs[i].avec
  {
    hide Record;
    if i > 0 {
      RecordsSnoc(segs[1..], i - 1);
      assert segs[..i + 1][1..] == segs[1..][..i] && segs[..i][1..] == segs[1..][..i - 1];
    } else {
      assert segs[..1][1..] == [];
    }
  }

  method EncodeDirectory(sc: Sidecar) returns (dir: Bytes)
    ensures dir == Directory(sc)
  {
    hide Record;
    dir := Le(sc.total, 8) + sc.binding + sc.contentHash;
    for i := 0 to |sc.segments|
      invariant dir == Le(sc.total, 8) + sc.binding + sc.contentHash + Records(sc.segments[..i])
    {
      RecordsSnoc(sc.segments, i);
      dir := dir + Record(sc.segments[i]);
    }
    assert sc.segments[..|sc.segments|] == sc.segments;
  }

  method WriteSidecar(h: Hashes, sc: Sidecar) returns (out: Bytes)
    ensures out == SidecarBytes(h, sc)
  {
    hide Directory, Le, Record;
    var dir := EncodeDirectory(sc);
    out := SIDECAR_MAGIC + [SIDECAR_VERSION];
    ghost var prefix := out;
    for i := 0 to COPIES
      invariant out == prefix + Repeat(Le(|sc.segments|, 4), i)
    {
      out := out + Le(|sc.segments|, 4);
    }
    RepeatThrice(Le(|sc.segments|, 4));
    prefix := out;
    for i := 0 to COPIES
      invariant out == prefix + Repeat(dir + h.blake3(dir), i)
    {
      out := out + (dir + h.blake3(dir));
    }
    RepeatThrice(dir + h.blake3(dir));
    prefix := out;
    for i := 0 to |sc.segments|
      invariant out == prefix + Avecs(sc.segments[..i])
    {
      RecordsSnoc(sc.segments, i);
      out := out + sc.segments[i].avec;
    }
    assert sc.segments[..|sc.segments|] == sc.segments;
  }

  ghost function Repeat(b: Bytes, n: nat): Bytes {
    if n == 0 then [] else Repeat(b, n - 1) + b
  }

  lemma RepeatThrice(b: Bytes)
    ensures Repeat(b, 3) == Thrice(b)
  {
    assert Repeat(b, 1) == [] + b;
    assert Repeat(b, 2) == Repeat(b, 1) + b;
  }

  // ---- reading ------------------------------------------------------------

  /** Majority counts first, then the rest, without repeats. */
  method OrderCandidates(counts: seq<nat>) returns (order: seq<nat>)
    ensures order == CandidateCounts(counts)
  {
    order := [];
    for i := 0 to |counts|
      invariant order == AppendNew([], Frequent(counts[..i], counts))
    {
      var c := counts[i];
      assert counts[..i + 1][..i] == counts[..i];
      FrequentStep(counts, i);
      var seen := CountOccurrences(c, counts);
      if seen >= 2 && c !in order {
        order := order + [c];
      }
    }
    assert counts[..|counts|] == counts;
    ghost var majority := order;
    for i := 0 to |counts|
      invariant order == AppendNew(majority, counts[..i])
    {
      assert counts[..i + 1][..i] == counts[..i];
      if counts[i] !in order {
        order := order + [counts[i]];
      }
    }
  }

  lemma FrequentStep(counts: seq<nat>, i: nat)
    requires i < |counts|
    ensures var was, now := Frequent(counts[..i], counts), Frequent(counts[..i + 1], counts);
            && now == (if Occurrences(counts[i], counts) >= 2 then was + [counts[i]] else was)
            && AppendNew([], now) ==
               (if Occurrences(counts[i], counts) >= 2 && counts[i] !in AppendNew([], was)
                then AppendNew([], was) + [counts[i]] else AppendNew([], was))
  {
    var was, now := Frequent(counts[..i], counts), Frequent(counts[..i + 1], counts);
    assert counts[..i + 1][..i] == counts[..i];
    assert now == (if Occurrences(counts[i], counts) >= 2 then was + [counts[i]] else was);
    assert (was + [counts[i]])[..|was|] == was;
  }

  method CountOccurrences(x: nat, s: seq<nat>) returns (n: nat)
    ensures n == Occurrences(x, s)
  {
    n := 0;
    for i := 0 to |s|
      invariant n == Occurrences(x, s[..i])
    {
      assert s[..i + 1][..i] == s[..i];
      if s[i] == x {
        n := n + 1;
      }
    }
    assert s[..|s|] == s;
  }

  /** Takes the first copy whose checksum holds, or votes byte by byte. */
  method RecoverDirectory(h: Hashes, data: Bytes, l: Layout) returns (dir: Option<Bytes>)
    requires Fits(l, data)
    ensures dir == Recover(h, data, l)
  {
    hide Copy, StoredDigest, SelfConsistent;
    var copies: seq<Bytes> := [];
    for i := 0 to COPIES
      invariant copies == [Copy(data, l, 0), Copy(data, l, 1), Copy(data, l, 2)][..i]
      invariant forall j: nat :: j < i ==> !Passes(h, data, l, j)
    {
      var copy := Copy(data, l, i);
      if h.blake3(copy) == StoredDigest(data, l, i) {
        return Some(copy);
      }
      copies := copies + [copy];
    }
    var voted: Bytes := [];
    for b := 0 to l.dirLen
      invariant |voted| == b
      invariant forall j :: 0 <= j < b ==> voted[j] == Vote(copies[0][j], copies[1][j], copies[2][j])
    {
      var winner := VoteByte(copies, b);
      voted := voted + [winner];
    }
    assert voted == VoteAll(copies[0], copies[1], copies[2]);
    dir := if SelfConsistent(h, voted) then Some(voted) else None;
  }

  /** How many of the copies have `v` at position `b`. */
  function Having(copies: seq<Bytes>, b: nat, v: byte): nat
    requires forall i :: 0 <= i < |copies| ==> b < |copies[i]|
  {
    if copies == [] then 0
    else Having(copies[1..], b, v) + if copies[0][b] == v then 1 else 0
  }

  lemma HavingOfThree(copies: seq<Bytes>, b: nat, v: byte)
    requires |copies| == COPIES && forall i :: 0 <= i < |copies| ==> b < |copies[i]|
    ensures Having(copies, b, v) == (if copies[0][b] == v then 1 else 0)
                                    + (if copies[1][b] == v then 1 else 0) + if copies[2][b] == v then 1 else 0
  {
    assert Having(copies[1..], b, v) == Having(copies[1..][1..], b, v) + if copies[1][b] == v then 1 else 0;
    assert copies[1..][1..] == [copies[2]];
    assert Having([copies[2]], b, v) == Having([copies[2]][1..], b, v) + if copies[2][b] == v then 1 else 0;
  }

  /** The most frequent value at `b`, the earliest on a tie. */
  method VoteByte(copies: seq<Bytes>, b: nat) returns (best: byte)
    requires |copies| == COPIES && forall i :: 0 <= i < |copies| ==> b < |copies[i]|
    ensures best == Vote(copies[0][b], copies[1][b], copies[2][b])
    ensures Elected(best, copies[0][b], copies[1][b], copies[2][b])
  {
    best := copies[0][b];
    var bestCount: nat := 0;
    for i := 0 to |copies|
      invariant i == 0 ==> bestCount == 0
      invariant i == 1 ==> best == copies[0][b] && bestCount == Having(copies, b, best)
      invariant i >= 2 ==> bestCount == Having(copies, b, best)
      invariant i >= 2 ==> best == if Having(copies, b, copies[1][b]) > Having(copies, b, copies[0][b]) then copies[1][b] else copies[0][b]
      invariant i == 3 ==> best == Vote(copies[0][b], copies[1][b], copies[2][b])
    {
      var v := copies[i][b];
      HavingOfThree(copies, b, copies[0][b]);
      HavingOfThree(copies, b, copies[1][b]);
      HavingOfThree(copies, b, copies[2][b]);
      var count := CountHaving(copies, b, v);
      if count > bestCount {
        best, bestCount := v, count;
      }
    }
  }

  method CountHaving(copies: seq<Bytes>, b: nat, v: byte) returns (n: nat)
    requires forall i :: 0 <= i < |copies| ==> b < |copies[i]|
    ensures n == Having(copies, b, v)
  {
    n := 0;
    for i := 0 to |copies|
      invariant n + Having(copies[i..], b, v) == Having(copies, b, v)
    {
      assert copies[i..][1..] == copies[i + 1..];
      if copies[i][b] == v {
        n := n + 1;
      }
    }
  }

  /** Decodes and bounds-checks every record, keeping a running parity offset. */
  method ParseFields(dir: Bytes, l: Layout) returns (r: Result<Locator, SidecarError>)
    ensures r == ParseDirectory(dir, l)
  {
    hide Val;
    if |dir| != DIR_FIXED_LEN + RECORD_LEN * l.n {
      return Err(DirectoryLength);
    }
    var metas := DecodeLoop(dir[DIR_FIXED_LEN..], l.n, l.parityLen);
    if metas.Err? {
      return Err(metas.error);
    }
    r := Ok(Locator(dir[8..40], dir[40..72], Val(dir[0..8]), metas.value));
  }

  method DecodeLoop(b: Bytes, n: nat, parityLen: nat) returns (r: Result<seq<Meta>, SidecarError>)
    requires |b| == RECORD_LEN * n
    ensures r == DecodeRecords(b, 0, parityLen)
  {
    hide CheckRecord, DecodeRecord;
    var metas: seq<Meta> := [];
    var used: nat := 0;
    PrependNothing(DecodeRecords(b, 0, parityLen));
    assert b[0..] == b;
    for i := 0 to n
      invariant DecodeRecords(b, 0, parityLen) == Prepended(metas, DecodeRecords(b[RECORD_LEN * i..], used, parityLen))
    {
      var tail := b[RECORD_LEN * i..];
      assert tail[RECORD_LEN..] == b[RECORD_LEN * (i + 1)..];
      var meta := DecodeRecord(tail, used);
      var bad := CheckRecord(meta, parityLen);
      if bad.Some? {
        return Err(bad.value);
      }
      PrependOne(metas, meta, DecodeRecords(tail[RECORD_LEN..], used + meta.avecLen, parityLen));
      metas := metas + [meta];
      used := used + meta.avecLen;
    }
    assert |b[RECORD_LEN * n..]| == 0 && metas + [] == metas;
    if used != parityLen {
      return Err(ParityLength);
    }
    r := Ok(metas);
  }

  lemma PrependNothing(rest: Result<seq<Meta>, SidecarError>)
    ensures Prepended([], rest) == rest
  {
    if rest.Ok? {
      assert [] + rest.value == rest.value;
    }
  }

  lemma PrependOne(front: seq<Meta>, meta: Meta, rest: Result<seq<Meta>, SidecarError>)
    ensures Prepended(front + [meta], rest) == Prepended(front, if rest.Err? then rest else Ok([meta] + rest.value))
  {
    if rest.Ok? {
      assert front + [meta] + rest.value == front + ([meta] + rest.value);
    }
  }

  ghost function Prepended(front: seq<Meta>, rest: Result<seq<Meta>, SidecarError>): Result<seq<Meta>, SidecarError> {
    if rest.Err? then rest else Ok(front + rest.value)
  }

  /** Reads a sidecar from memory. */
  method ReadFromMemory(h: Hashes, data: Bytes) returns (r: Result<Sidecar, SidecarError>)
    ensures r == ReadSidecar(h, data)
  {
    hide Recover, Assemble, LayoutFor, CandidateCounts, CountSlots;
    var bad := CheckPrefix(data);
    if bad.Some? {
      return Err(bad.value);
    }
    var order := OrderCandidates(CountSlots(data));
    for i := 0 to |order|
      invariant TryCounts(h, data, order) == TryCounts(h, data, order[i..])
    {
      assert order[i..][0] == order[i] && order[i..][1..] == order[i + 1..];
      var layout := LayoutFor(order[i], |data|);
      if order[i] == 0 || layout.None? {
        continue;
      }
      LayoutFits(order[i], data);
      var dir := RecoverDirectory(h, data, layout.value);
      if dir.Some? {
        r := ReadSegments(data, layout.value, dir.value);
        return;
      }
    }
    r := Err(LocatorLost);
  }

  /** Cuts each payload out of the parity region and heals its header. */
  method ReadSegments(data: Bytes, l: Layout, dir: Bytes) returns (r: Result<Sidecar, SidecarError>)
    requires l.parityStart + l.parityLen == |data|
    ensures r == Assemble(data, l, dir)
  {
    hide ParseDirectory, Serve;
    var parsed := ParseFields(dir, l);
    if parsed.Err? {
      return Err(parsed.error);
    }
    var loc := parsed.value;
    ParsedFit(dir, l);
    var segments := [];
    for i := 0 to |loc.metas|
      invariant segments == Segments(data, l, loc.metas)[..i]
    {
      var meta := loc.metas[i];
      segments := segments + [Segment(meta.offset, meta.len, Serve(data, l, meta))];
    }
    assert segments == Segments(data, l, loc.metas);
    AssembleOk(data, l, dir, loc);
    r := Ok(Sidecar(loc.binding, loc.contentHash, loc.total, segments));
  }

  lemma AssembleOk(data: Bytes, l: Layout, dir: Bytes, loc: Locator)
    requires l.parityStart + l.parityLen == |data| && ParseDirectory(dir, l) == Ok(loc)
    ensures MetasFit(loc.metas, l.parityLen)
    ensures Assemble(data, l, dir) == Ok(Sidecar(loc.binding, loc.contentHash, loc.total, Segments(data, l, loc.metas)))
  {
    ParsedFit(dir, l);
  }

  /** Opens a sidecar for streaming, reading only its head. */
  method OpenForStreaming(h: Hashes, data: Bytes) returns (r: Result<Reader, SidecarError>)
    ensures r == OpenSidecar(h, data)
  {
    hide Recover, ParseDirectory, LayoutFor, CandidateCounts, CountSlots, Head;
    var bad := CheckPrefix(data);
    if bad.Some? {
      return Err(bad.value);
    }
    var order := OrderCandidates(CountSlots(data));
    var last := LocatorLost;
    for i := 0 to |order|
      invariant TryOpen(h, data, order, LocatorLost) == TryOpen(h, data, order[i..], last)
    {
      assert order[i..][0] == order[i] && order[i..][1..] == order[i + 1..];
      var layout := LayoutFor(order[i], |data|);
      if order[i] == 0 || layout.None? {
        continue;
      }
      LayoutFits(order[i], data);
      var head := Head(data, layout.value);
      var dir := RecoverDirectory(h, head, layout.value);
      if dir.None? {
        last := LocatorLost;
        continue;
      }
      var parsed := ParseFields(dir.value, layout.value);
      if parsed.Err? {
        last := parsed.error;
        continue;
      }
      return Ok(Reader(parsed.value, layout.value));
    }
    r := Err(last);
  }
}
