/** What damage a sidecar survives. */
module SidecarHealing {
  import opened Wrappers
  import opened ByteSeqs
  import opened EcPayloads
  import opened AvecLengths
  import opened Sidecars

  // ---- what the writer puts where -----------------------------------------

  predicate Sized(seg: Segment) {
    seg.offset < U64_LIMIT && seg.len < U64_LIMIT && |seg.avec| < U64_LIMIT
  }

  predicate WithinCap(segs: seq<Segment>) {
    forall i :: 0 <= i < |segs| ==> |segs[i].avec| <= Cap(segs[i].len)
  }

  /** The locator of so many segments is one the reader will buffer. */
  predicate LocatorFits(segments: nat) {
    segments < U32_LIMIT && (DIR_FIXED_LEN + RECORD_LEN * segments + DIGEST_LEN) * COPIES <= MAX_DIRECTORY_REGION
  }

  /** A sidecar the writer can produce and whose locator the reader is willing to buffer. */
  predicate Writable(h: Hashes, sc: Sidecar) {
    && |sc.contentHash| == DIGEST_LEN && sc.binding == h.binding(sc.contentHash) && |sc.binding| == DIGEST_LEN
    && sc.total < U64_LIMIT
    && 0 < |sc.segments| && LocatorFits(|sc.segments|)
    && forall i :: 0 <= i < |sc.segments| ==> Sized(sc.segments[i])
  }

  function LayoutOf(sc: Sidecar): Layout {
    var dirLen := DIR_FIXED_LEN + RECORD_LEN * |sc.segments|;
    Layout(|sc.segments|, dirLen, PREFIX_LEN + (dirLen + DIGEST_LEN) * COPIES, |Avecs(sc.segments)|)
  }

  /** Where segment `i`'s payload starts in the parity region. */
  function AvecStart(segs: seq<Segment>, i: nat): nat
    requires i <= |segs|
  {
    if i == 0 then 0 else |segs[0].avec| + AvecStart(segs[1..], i - 1)
  }

  lemma {:induction false} AvecAt(segs: seq<Segment>, i: nat)
    requires i < |segs|
    ensures AvecStart(segs, i) + |segs[i].avec| <= |Avecs(segs)|
    ensures Avecs(segs)[AvecStart(segs, i)..AvecStart(segs, i) + |segs[i].avec|] == segs[i].avec
  {
    if i > 0 {
      AvecAt(segs[1..], i - 1);
      TailSlice(segs[0].avec, Avecs(segs[1..]), AvecStart(segs[1..], i - 1), |segs[i].avec|);
    }
  }

  lemma TailSlice(head: Bytes, tail: Bytes, at: nat, n: nat)
    requires at + n <= |tail|
    ensures (head + tail)[|head| + at..|head| + at + n] == tail[at..at + n]
  {
  }

  // ---- damage -------------------------------------------------------------

  /** The first copy that passes its checksum is `dir`; or none passes, and every byte of `dir` is in two copies, or
      in the first while the three differ. */
  ghost predicate CopiesGive(h: Hashes, data: Bytes, l: Layout, dir: Bytes)
    requires Fits(l, data)
  {
    if exists i: nat :: i < COPIES && Passes(h, data, l, i) then
      exists i: nat :: i < COPIES && Passes(h, data, l, i) && Copy(data, l, i) == dir
                       && forall j: nat :: j < i ==> !Passes(h, data, l, j)
    else
      |dir| == l.dirLen
      && forall b :: 0 <= b < l.dirLen ==> Elected(dir[b], Copy(data, l, 0)[b], Copy(data, l, 1)[b], Copy(data, l, 2)[b])
  }

  /** `data` is the sidecar's bytes with damage its directory survives: magic and version are whole, and the
      copies still give the directory. The count slots and the parity region may hold anything. */
  ghost predicate DirectorySurvives(h: Hashes, sc: Sidecar, data: Bytes) {
    var l, dir := LayoutOf(sc), Directory(sc);
    && |data| == l.parityStart + l.parityLen
    && data[..SLOTS_AT] == SIDECAR_MAGIC + [SIDECAR_VERSION]
    && |dir| == l.dirLen
    && CopiesGive(h, data, l, dir)
  }

  /** It is enough that every byte is whole in two copies, and that a copy that passes is the original. */
  lemma TwoCopiesSuffice(h: Hashes, data: Bytes, l: Layout, dir: Bytes)
    requires Fits(l, data) && |dir| == l.dirLen
    requires forall b :: 0 <= b < l.dirLen ==> TwoOf(dir[b], Copy(data, l, 0)[b], Copy(data, l, 1)[b], Copy(data, l, 2)[b])
    requires forall i: nat :: i < COPIES && Passes(h, data, l, i) ==> Copy(data, l, i) == dir
    ensures CopiesGive(h, data, l, dir)
  {
    hide Passes, Copy;
    if exists i: nat :: i < COPIES && Passes(h, data, l, i) {
      var i: nat :| i < COPIES && Passes(h, data, l, i);
      var first := if Passes(h, data, l, 0) then 0 else if Passes(h, data, l, 1) then 1 else 2;
      assert first < COPIES && Passes(h, data, l, first);
      assert forall j: nat :: j < first ==> !Passes(h, data, l, j);
    }
  }

  /** And the first tried count that is not zero, fits the file and leads to a locator is the true one. */
  ghost predicate Survivable(h: Hashes, sc: Sidecar, data: Bytes) {
    DirectorySurvives(h, sc, data) && FirstCount(h, data, Tried(data)) == Some(|sc.segments|)
  }

  /** Segment `i` as read back: placed as before, its header healed, the rest of its payload as found. */
  function HealedSegment(sc: Sidecar, data: Bytes, i: nat): Segment
    requires i < |sc.segments| && |data| == LayoutOf(sc).parityStart + LayoutOf(sc).parityLen
  {
    AvecAt(sc.segments, i);
    var seg := sc.segments[i];
    var start := LayoutOf(sc).parityStart + AvecStart(sc.segments, i);
    Segment(seg.offset, seg.len, Heal(Geom(seg.avec), data[start..start + |seg.avec|]))
  }

  function Healed(sc: Sidecar, data: Bytes): Sidecar
    requires |data| == LayoutOf(sc).parityStart + LayoutOf(sc).parityLen
  {
    sc.(segments := seq(|sc.segments|, i requires 0 <= i < |sc.segments| => HealedSegment(sc, data, i)))
  }

  // ---- the directory decodes ----------------------------------------------

  function MetasFrom(segs: seq<Segment>, used: nat): seq<Meta> {
    if segs == [] then []
    else
      [Meta(segs[0].offset, segs[0].len, used, |segs[0].avec|, Geom(segs[0].avec))]
      + MetasFrom(segs[1..], used + |segs[0].avec|)
  }

  lemma {:induction false} MetaAt(segs: seq<Segment>, used: nat, i: nat)
    requires i < |segs|
    ensures |MetasFrom(segs, used)| == |segs|
    ensures MetasFrom(segs, used)[i] ==
            Meta(segs[i].offset, segs[i].len, used + AvecStart(segs, i), |segs[i].avec|, Geom(segs[i].avec))
  {
    hide Geom;
    if i > 0 {
      MetaAt(segs[1..], used + |segs[0].avec|, i - 1);
    } else {
      MetasCount(segs, used);
    }
  }

  lemma {:induction false} MetasCount(segs: seq<Segment>, used: nat)
    ensures |MetasFrom(segs, used)| == |segs|
  {
    hide Geom;
    if segs != [] {
      MetasCount(segs[1..], used + |segs[0].avec|);
    }
  }

  lemma RecordDecodes(seg: Segment, rest: Bytes, used: nat)
    requires Sized(seg)
    ensures DecodeRecord(Record(seg) + rest, used) == Meta(seg.offset, seg.len, used, |seg.avec|, Geom(seg.avec))
  {
    hide Le, Val, Geom;
    Le8(seg.offset);
    Le8(seg.len);
    Le8(|seg.avec|);
    var b := Record(seg) + rest;
    assert b[0..8] == Le(seg.offset, 8) && b[8..16] == Le(seg.len, 8) && b[16..24] == Le(|seg.avec|, 8);
    assert b[24..56] == Geom(seg.avec);
  }

  /** The written records are read back, unless a payload is over its cap. */
  lemma {:induction false} RecordsDecode(segs: seq<Segment>, used: nat, parityLen: nat)
    requires (forall i :: 0 <= i < |segs| ==> Sized(segs[i])) && used + |Avecs(segs)| == parityLen
    ensures DecodeRecords(Records(segs), used, parityLen) ==
            if WithinCap(segs) then Ok(MetasFrom(segs, used)) else Err(AvecTooLong)
  {
    hide Record, Cap, Geom, DecodeRecord;
    if segs != [] {
      var b := Records(segs);
      RecordDecodes(segs[0], Records(segs[1..]), used);
      assert b[RECORD_LEN..] == Records(segs[1..]);
      RecordsDecode(segs[1..], used + |segs[0].avec|, parityLen);
      CapSplit(segs);
    }
  }

  lemma CapSplit(segs: seq<Segment>)
    requires segs != []
    ensures WithinCap(segs) <==> |segs[0].avec| <= Cap(segs[0].len) && WithinCap(segs[1..])
  {
  }

  lemma DirectoryParses(h: Hashes, sc: Sidecar)
    requires Writable(h, sc)
    ensures |Directory(sc)| == LayoutOf(sc).dirLen && SelfConsistent(h, Directory(sc))
    ensures ParseDirectory(Directory(sc), LayoutOf(sc)) ==
            if WithinCap(sc.segments)
            then Ok(Locator(sc.binding, sc.contentHash, sc.total, MetasFrom(sc.segments, 0)))
            else Err(AvecTooLong)
  {
    hide Le, Val, DecodeRecords, WithinCap, MetasFrom;
    Le8(sc.total);
    var dir := Directory(sc);
    assert dir[0..8] == Le(sc.total, 8) && dir[8..40] == sc.binding && dir[40..72] == sc.contentHash;
    assert dir[DIR_FIXED_LEN..] == Records(sc.segments);
    RecordsDecode(sc.segments, 0, |Avecs(sc.segments)|);
  }

  // ---- the locator survives -----------------------------------------------

  /** The directory recovered is `dir` exactly when the copies give it, and, if they had to vote, its binding is that of its
      own content hash. */
  lemma RecoversWhat(h: Hashes, data: Bytes, l: Layout, dir: Bytes)
    requires Fits(l, data)
    ensures Recover(h, data, l) == Some(dir) <==>
            CopiesGive(h, data, l, dir)
            && (BoundToItself(h, dir) || exists i: nat :: i < COPIES && Passes(h, data, l, i))
  {
    hide Passes, Copy;
    assert forall i: nat :: i < COPIES ==> |Copy(data, l, i)| == l.dirLen by { CopyLengths(data, l); }
    if exists i: nat :: i < COPIES && Passes(h, data, l, i) {
      assert Passes(h, data, l, 0) || Passes(h, data, l, 1) || Passes(h, data, l, 2);
      var first: nat := if Passes(h, data, l, 0) then 0 else if Passes(h, data, l, 1) then 1 else 2;
      assert Passes(h, data, l, first) && forall j: nat :: j < first ==> !Passes(h, data, l, j);
      assert Recover(h, data, l) == Some(Copy(data, l, first));
      assert forall i: nat :: i < COPIES && Passes(h, data, l, i) && (forall j: nat :: j < i ==> !Passes(h, data, l, j)) ==> i == first;
    } else {
      assert !Passes(h, data, l, 0) && !Passes(h, data, l, 1) && !Passes(h, data, l, 2);
      VoteWhat(Copy(data, l, 0), Copy(data, l, 1), Copy(data, l, 2), dir);
    }
  }

  predicate BoundToItself(h: Hashes, dir: Bytes) {
    |dir| >= 72 && dir[8..40] == h.binding(dir[40..72])
  }

  lemma CopyLengths(data: Bytes, l: Layout)
    requires Fits(l, data)
    ensures forall i: nat :: i < COPIES ==> |Copy(data, l, i)| == l.dirLen
  {
  }

  /** What a vote elects, byte by byte. */
  lemma VoteWhat(a: Bytes, b: Bytes, c: Bytes, dir: Bytes)
    requires |a| == |b| == |c|
    ensures VoteAll(a, b, c) == dir <==>
            |dir| == |a| && forall i :: 0 <= i < |a| ==> Elected(dir[i], a[i], b[i], c[i])
  {
    var voted := VoteAll(a, b, c);
    assert forall i :: 0 <= i < |a| ==> voted[i] == Vote(a[i], b[i], c[i]);
    forall i, x: byte | 0 <= i < |a|
      ensures Elected(x, a[i], b[i], c[i]) <==> x == Vote(a[i], b[i], c[i])
    {
    }
  }

  /** In a file of the right length with a whole prefix, the true count leads to the original directory exactly when
      that survives. */
  lemma LocatorGiven(h: Hashes, sc: Sidecar, data: Bytes)
    requires Writable(h, sc) && |data| == LayoutOf(sc).parityStart + LayoutOf(sc).parityLen
    requires data[..SLOTS_AT] == SIDECAR_MAGIC + [SIDECAR_VERSION]
    ensures LocatorAt(h, data, |sc.segments|) == Some((LayoutOf(sc), Directory(sc))) <==> DirectorySurvives(h, sc, data)
  {
    hide Passes, Copy, Directory, CopiesGive, Recover;
    DirectoryParses(h, sc);
    var l, dir := LayoutOf(sc), Directory(sc);
    assert LayoutFor(|sc.segments|, |data|) == Some(l);
    RecoversWhat(h, data, l, dir);
  }

  lemma LocatorSurvives(h: Hashes, sc: Sidecar, data: Bytes)
    requires Writable(h, sc) && DirectorySurvives(h, sc, data)
    ensures LocatorAt(h, data, |sc.segments|) == Some((LayoutOf(sc), Directory(sc)))
  {
    hide Writable, LocatorAt, CopiesGive, Directory;
    LocatorGiven(h, sc, data);
  }

  /** The directory a reader goes by, and where it found it. */
  function Searched(h: Hashes, data: Bytes): Option<(Layout, Bytes)> {
    match FirstCount(h, data, Tried(data))
    case None => None
    case Some(n) => LocatorAt(h, data, n)
  }

  /** Whatever the slots hold, the original directory is the one gone by exactly when the first count
      that leads to a locator is the true one. */
  lemma OriginalIsRead(h: Hashes, sc: Sidecar, data: Bytes)
    requires Writable(h, sc) && DirectorySurvives(h, sc, data)
    ensures Searched(h, data) == Some((LayoutOf(sc), Directory(sc))) <==> Survivable(h, sc, data)
  {
    hide Writable, DirectorySurvives, LocatorAt, Tried, Directory;
    LocatorSurvives(h, sc, data);
    if Searched(h, data) == Some((LayoutOf(sc), Directory(sc))) {
      var n := FirstCount(h, data, Tried(data)).value;
      SameCount(n, |data|, LayoutOf(sc));
    }
  }

  lemma SameCount(n: nat, fileLen: nat, l: Layout)
    requires LayoutFor(n, fileLen) == Some(l)
    ensures n == l.n
  {
  }

  /** Two whole slots are enough, */
  lemma TwoSlotsSuffice(h: Hashes, sc: Sidecar, data: Bytes)
    requires Writable(h, sc) && DirectorySurvives(h, sc, data) && |data| >= PREFIX_LEN
    requires Occurrences(|sc.segments|, CountSlots(data)) >= 2
    ensures Survivable(h, sc, data)
  {
    hide Writable, DirectorySurvives, LocatorAt, CountSlots, CandidateCounts;
    LocatorSurvives(h, sc, data);
    MajorityFirst(CountSlots(data), |sc.segments|);
  }

  /** and so is one, when what the other two hold leads nowhere. */
  lemma OneSlotSuffices(h: Hashes, sc: Sidecar, data: Bytes)
    requires Writable(h, sc) && DirectorySurvives(h, sc, data) && |data| >= PREFIX_LEN
    requires |sc.segments| in CountSlots(data)
    requires forall c :: c in CountSlots(data) && c != |sc.segments| ==> LocatorAt(h, data, c).None?
    ensures Survivable(h, sc, data)
  {
    hide Writable, DirectorySurvives, LocatorAt, CountSlots, CandidateCounts;
    LocatorSurvives(h, sc, data);
    TriedAre(CountSlots(data));
  }

  lemma TriedAre(counts: seq<nat>)
    ensures forall c :: c in CandidateCounts(counts) <==> c in counts
  {
    FrequentAre(counts, counts);
    AppendedAre([], Frequent(counts, counts));
    AppendedAre(AppendNew([], Frequent(counts, counts)), counts);
  }

  lemma {:induction false} AppendedAre(order: seq<nat>, s: seq<nat>)
    ensures forall c :: c in AppendNew(order, s) <==> c in order || c in s
  {
    if s != [] {
      AppendedAre(order, s[..|s| - 1]);
      assert s == s[..|s| - 1] + [s[|s| - 1]];
    }
  }

  lemma SegmentsAreHealed(h: Hashes, sc: Sidecar, data: Bytes)
    requires Survivable(h, sc, data) && MetasFit(MetasFrom(sc.segments, 0), LayoutOf(sc).parityLen)
    ensures Segments(data, LayoutOf(sc), MetasFrom(sc.segments, 0)) == Healed(sc, data).segments
  {
    hide Geom, Heal, Directory, Copy, Passes, Tried, FirstCount;
    var segs, l, metas := sc.segments, LayoutOf(sc), MetasFrom(sc.segments, 0);
    MetasCount(segs, 0);
    forall i: nat | i < |segs|
      ensures Segments(data, l, metas)[i] == HealedSegment(sc, data, i)
    {
      MetaAt(segs, 0, i);
      AvecAt(segs, i);
    }
  }

  /** A sidecar with survivable damage reads back to its own locator, every payload header restored,
      whatever happened to the payloads; a payload over its cap is the one thing refused. */
  lemma SelfHeals(h: Hashes, sc: Sidecar, data: Bytes)
    requires Writable(h, sc) && Survivable(h, sc, data)
    ensures ReadSidecar(h, data) == if WithinCap(sc.segments) then Ok(Healed(sc, data)) else Err(AvecTooLong)
  {
    hide LocatorAt, Directory, WithinCap, ParseDirectory, MetasFrom, Segments, Healed, CountSlots, CandidateCounts,
      Passes, Copy;
    var l, n := LayoutOf(sc), |sc.segments|;
    DirectoryParses(h, sc);
    LocatorSurvives(h, sc, data);
    FirstDecides(h, data, Tried(data));
    assert CheckPrefix(data) == None by {
      assert data[8] == data[..SLOTS_AT][8] && data[..8] == data[..SLOTS_AT][..8];
    }
    if WithinCap(sc.segments) {
      ParsedFit(Directory(sc), l);
      SegmentsAreHealed(h, sc, data);
      Bound(h, sc, data);
    }
  }

  lemma Bound(h: Hashes, sc: Sidecar, data: Bytes)
    requires |data| == LayoutOf(sc).parityStart + LayoutOf(sc).parityLen
    ensures Healed(sc, data) == Sidecar(sc.binding, sc.contentHash, sc.total, Healed(sc, data).segments)
  {
  }

  // ---- payloads -----------------------------------------------------------

  /** A payload that parsed before the damage parses after healing, with its own geometry, its
      tables and parity as found. */
  lemma HealedPayloadParses(avec: Bytes, found: Bytes)
    requires |found| == |avec| && Parse(avec).Ok?
    ensures Parse(Heal(Geom(avec), found)).Ok?
    ensures Parse(Heal(Geom(avec), found)).value.geo == Parse(avec).value.geo
  {
    hide ExpectedLen, Chop;
    var healed := Heal(Geom(avec), found);
    assert healed[..32] == avec[..32];
    SameHeader(healed, avec);
  }

  lemma SameHeader(a: Bytes, b: Bytes)
    requires |a| >= PAYLOAD_HEADER_LEN && |b| >= PAYLOAD_HEADER_LEN && a[..32] == b[..32]
    ensures ParseHeader(a) == ParseHeader(b)
  {
    hide Val;
    assert a[0..4] == a[..32][0..4] && a[4..6] == a[..32][4..6] && a[6..8] == a[..32][6..8];
    assert a[8..10] == a[..32][8..10] && a[10..14] == a[..32][10..14] && a[14..22] == a[..32][14..22];
    assert b[0..4] == b[..32][0..4] && b[4..6] == b[..32][4..6] && b[6..8] == b[..32][6..8];
    assert b[8..10] == b[..32][8..10] && b[10..14] == b[..32][10..14] && b[14..22] == b[..32][14..22];
  }

  lemma HealIntact(avec: Bytes)
    ensures Heal(Geom(avec), avec) == avec
  {
  }

  // ---- locators too large for the reader ----------------------------------

  lemma SlotsBelow(data: Bytes)
    requires |data| >= PREFIX_LEN
    ensures forall c :: c in CountSlots(data) ==> c < U32_LIMIT
  {
    hide Val;
    ReEncode(data[9..13]);
    ReEncode(data[13..17]);
    ReEncode(data[17..21]);
  }

  /** Damage is survivable only where the locator is one the reader buffers. */
  lemma SurvivableFits(h: Hashes, sc: Sidecar, data: Bytes)
    requires Survivable(h, sc, data)
    ensures LocatorFits(|sc.segments|)
  {
    hide DirectorySurvives, CountSlots, CandidateCounts, FirstCount, LocatorAt;
    SlotsBelow(data);
    TriedAre(CountSlots(data));
  }

  /** The writer writes a larger locator all the same, and both readers refuse it. */
  lemma LocatorTooLarge(h: Hashes, sc: Sidecar)
    requires |sc.segments| < U32_LIMIT && !LocatorFits(|sc.segments|)
    ensures ReadSidecar(h, SidecarBytes(h, sc)) == Err(LocatorLost) && OpenSidecar(h, SidecarBytes(h, sc)) == Err(LocatorLost)
  {
    hide Le, Val, CandidateCounts, TryCounts, TryOpen, Recover;
    var data, n := SidecarBytes(h, sc), |sc.segments|;
    PrefixWritten(h, sc);
    Le4(n);
    assert CountSlots(data) == [n, n, n];
    AllTheSame(n);
    OneTried(h, data, n);
  }

  lemma OneTried(h: Hashes, data: Bytes, n: nat)
    requires LayoutFor(n, |data|).None?
    ensures TryCounts(h, data, [n]) == Err(LocatorLost) && TryOpen(h, data, [n], LocatorLost) == Err(LocatorLost)
  {
    hide Recover, ParseDirectory, LayoutFor;
    var one: seq<nat>, none: seq<nat> := [n], [];
    assert one[1..] == none;
    assert TryCounts(h, data, none) == Err(LocatorLost) && TryOpen(h, data, none, LocatorLost) == Err(LocatorLost);
  }

  lemma PrefixWritten(h: Hashes, sc: Sidecar)
    ensures var data := SidecarBytes(h, sc);
            && |data| >= PREFIX_LEN && CheckPrefix(data) == None
            && data[9..13] == data[13..17] == data[17..21] == Le(|sc.segments|, 4)
  {
    hide Le, Avecs, Directory;
    var data, count := SidecarBytes(h, sc), Le(|sc.segments|, 4);
    var dir := Directory(sc);
    var rest := Thrice(dir + h.blake3(dir)) + Avecs(sc.segments);
    assert data == SIDECAR_MAGIC + [SIDECAR_VERSION] + count + count + count + rest;
    assert data[..8] == SIDECAR_MAGIC;
  }

  // ---- undamaged sidecars -------------------------------------------------

  lemma WrittenParts(h: Hashes, sc: Sidecar)
    requires HashesOk(h) && Writable(h, sc)
    ensures var l, data, dir := LayoutOf(sc), SidecarBytes(h, sc), Directory(sc);
            && |dir| == l.dirLen && |data| == l.parityStart + l.parityLen && Fits(l, data)
            && data[..SLOTS_AT] == SIDECAR_MAGIC + [SIDECAR_VERSION]
            && data[9..13] == data[13..17] == data[17..21] == Le(|sc.segments|, 4)
            && Copy(data, l, 0) == Copy(data, l, 1) == Copy(data, l, 2) == dir
            && data[l.parityStart..] == Avecs(sc.segments)
  {
    hide Le, Avecs, Records;
    var l, data, dir := LayoutOf(sc), SidecarBytes(h, sc), Directory(sc);
    var count, copy := Le(|sc.segments|, 4), dir + h.blake3(dir);
    assert |dir| == l.dirLen && |copy| == l.dirLen + DIGEST_LEN;
    assert data == SIDECAR_MAGIC + [SIDECAR_VERSION] + count + count + count + copy + copy + copy + Avecs(sc.segments);
    CopiesInRow(SIDECAR_MAGIC + [SIDECAR_VERSION] + count + count + count, copy, Avecs(sc.segments), data, l, dir);
  }

  lemma CopiesInRow(prefix: Bytes, copy: Bytes, parity: Bytes, data: Bytes, l: Layout, dir: Bytes)
    requires |prefix| == PREFIX_LEN && data == prefix + copy + copy + copy + parity
    requires |copy| == l.dirLen + DIGEST_LEN && l.parityStart == PREFIX_LEN + (l.dirLen + DIGEST_LEN) * COPIES
    requires |dir| == l.dirLen && copy[..l.dirLen] == dir
    ensures Fits(l, data) && data[l.parityStart..] == parity && data[..PREFIX_LEN] == prefix
    ensures Copy(data, l, 0) == Copy(data, l, 1) == Copy(data, l, 2) == dir
  {
  }

  lemma WrittenSurvives(h: Hashes, sc: Sidecar)
    requires HashesOk(h) && Writable(h, sc)
    ensures Survivable(h, sc, SidecarBytes(h, sc))
  {
    hide Le, Copy, Passes, SidecarBytes, Directory, Avecs;
    WrittenParts(h, sc);
    Le4(|sc.segments|);
    var data, n := SidecarBytes(h, sc), |sc.segments|;
    assert CountSlots(data) == [n, n, n];
    assert [n, n, n][..2] == [n, n] && [n, n][..1] == [n];
    assert Occurrences(n, [n, n, n]) == 1 + Occurrences(n, [n, n]);
    assert Occurrences(n, [n, n]) == 1 + Occurrences(n, [n]);
    TwoSlotsSuffice(h, sc, data);
  }

  /** What the writer writes is read back exactly, unless a payload is over its cap. */
  lemma RoundTrip(h: Hashes, sc: Sidecar)
    requires HashesOk(h) && Writable(h, sc)
    ensures ReadSidecar(h, SidecarBytes(h, sc)) == if WithinCap(sc.segments) then Ok(sc) else Err(AvecTooLong)
  {
    hide Writable, ReadSidecar, SidecarBytes, WithinCap, Survivable, Avecs, HealedSegment, Directory, Copy;
    WrittenSurvives(h, sc);
    SelfHeals(h, sc, SidecarBytes(h, sc));
    WrittenParts(h, sc);
    var data := SidecarBytes(h, sc);
    forall i: nat | i < |sc.segments|
      ensures HealedSegment(sc, data, i) == sc.segments[i]
    {
      IntactSegment(sc, data, i);
    }
    assert Healed(sc, data).segments == sc.segments;
  }

  lemma IntactSegment(sc: Sidecar, data: Bytes, i: nat)
    requires i < |sc.segments| && |data| == LayoutOf(sc).parityStart + LayoutOf(sc).parityLen
    requires data[LayoutOf(sc).parityStart..] == Avecs(sc.segments)
    ensures HealedSegment(sc, data, i) == sc.segments[i]
  {
    hide Avecs, Heal, Geom;
    AvecAt(sc.segments, i);
    var start := AvecStart(sc.segments, i);
    ParitySlice(data, LayoutOf(sc).parityStart, start, |sc.segments[i].avec|);
    HealIntact(sc.segments[i].avec);
  }

  lemma ParitySlice(data: Bytes, base: nat, start: nat, n: nat)
    requires base + start + n <= |data|
    ensures data[base..][start..start + n] == data[base + start..base + start + n]
  {
  }
}
