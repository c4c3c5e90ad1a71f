/** The self-healing sidecar: its bytes, and how its locator is recovered from them. */
module Sidecars {
  import opened Wrappers
  import opened ByteSeqs
  import opened AvecLengths

  const SIDECAR_MAGIC: Bytes := [0x41, 0x45, 0x52, 0x4F, 0x43, 0x4F, 0x52, 0x52]
  const SIDECAR_VERSION: byte := 2
  const DIGEST_LEN: nat := 32
  const GEOM_LEN: nat := 32
  const COPIES: nat := 3
  const SLOTS_AT: nat := 9
  const PREFIX_LEN: nat := 21
  const DIR_FIXED_LEN: nat := 72
  const RECORD_LEN: nat := 56
  const MAX_DIRECTORY_REGION: nat := 64 * 1024 * 1024

  datatype Hashes = Hashes(blake3: Bytes -> Bytes, sha256: Bytes -> Bytes, binding: Bytes -> Bytes)

  ghost predicate HashesOk(h: Hashes) {
    forall x :: |h.blake3(x)| == DIGEST_LEN && |h.sha256(x)| == DIGEST_LEN && |h.binding(x)| == DIGEST_LEN
  }

  datatype SidecarError =
    | SidecarTooShort
    | SidecarMagic
    | SidecarVersion
    | LocatorLost
    | DirectoryLength
    | AvecTooLong
    | SegmentLength
    | ParityLength
    | BindingMismatch
    | TotalMismatch
    | TilingGap

  /** One protected window and its parity payload. */
  datatype Segment = Segment(offset: nat, len: nat, avec: Bytes)

  datatype Sidecar = Sidecar(binding: Bytes, contentHash: Bytes, total: nat, segments: seq<Segment>)

  // ---- writing ------------------------------------------------------------

  /** The payload's geometry header, as the directory keeps it. */
  function Geom(avec: Bytes): (geom: Bytes)
    ensures |geom| == GEOM_LEN
  {
    if |avec| >= GEOM_LEN then avec[..GEOM_LEN] else avec + Zeros(GEOM_LEN - |avec|)
  }

  function Record(seg: Segment): (b: Bytes)
    ensures |b| == RECORD_LEN
  {
    Le(seg.offset, 8) + Le(seg.len, 8) + Le(|seg.avec|, 8) + Geom(seg.avec)
  }

  function Records(segs: seq<Segment>): (b: Bytes)
    ensures |b| == RECORD_LEN * |segs|
  {
    if segs == [] then [] else Record(segs[0]) + Records(segs[1..])
  }

  function Avecs(segs: seq<Segment>): Bytes {
    if segs == [] then [] else segs[0].avec + Avecs(segs[1..])
  }

  function Directory(sc: Sidecar): Bytes {
    Le(sc.total, 8) + sc.binding + sc.contentHash + Records(sc.segments)
  }

  function Thrice(b: Bytes): Bytes { b + b + b }

  /** Magic, version, three counts, three checksummed directories, then the parity. */
  function SidecarBytes(h: Hashes, sc: Sidecar): Bytes {
    var dir := Directory(sc);
    SIDECAR_MAGIC + [SIDECAR_VERSION] + Thrice(Le(|sc.segments|, 4)) + Thrice(dir + h.blake3(dir)) + Avecs(sc.segments)
  }

  // ---- where things are ---------------------------------------------------

  datatype Layout = Layout(n: nat, dirLen: nat, parityStart: nat, parityLen: nat)

  /** The regions for `n` segments, if they fit in `fileLen` bytes and the locator is not too large. */
  function LayoutFor(n: nat, fileLen: nat): Option<Layout> {
    var dirLen := DIR_FIXED_LEN + RECORD_LEN * n;
    var span := (dirLen + DIGEST_LEN) * COPIES;
    var start := PREFIX_LEN + span;
    if span > MAX_DIRECTORY_REGION || fileLen < start then None else Some(Layout(n, dirLen, start, fileLen - start))
  }

  predicate Fits(l: Layout, data: Bytes) {
    l.parityStart == PREFIX_LEN + (l.dirLen + DIGEST_LEN) * COPIES <= |data|
  }

  function CopyBase(l: Layout, i: nat): nat {
    PREFIX_LEN + i * (l.dirLen + DIGEST_LEN)
  }

  function Copy(data: Bytes, l: Layout, i: nat): (dir: Bytes)
    requires Fits(l, data) && i < COPIES
    ensures |dir| == l.dirLen
  {
    data[CopyBase(l, i)..CopyBase(l, i) + l.dirLen]
  }

  function StoredDigest(data: Bytes, l: Layout, i: nat): Bytes
    requires Fits(l, data) && i < COPIES
  {
    data[CopyBase(l, i) + l.dirLen..CopyBase(l, i) + l.dirLen + DIGEST_LEN]
  }

  // ---- the count slots ----------------------------------------------------

  function CountSlot(data: Bytes, i: nat): nat
    requires |data| >= PREFIX_LEN && i < COPIES
  {
    Val(data[SLOTS_AT + 4 * i..SLOTS_AT + 4 * i + 4])
  }

  function CountSlots(data: Bytes): (slots: seq<nat>)
    requires |data| >= PREFIX_LEN
    ensures |slots| == COPIES
  {
    [CountSlot(data, 0), CountSlot(data, 1), CountSlot(data, 2)]
  }

  function Occurrences(x: nat, s: seq<nat>): nat {
    if s == [] then 0 else Occurrences(x, s[..|s| - 1]) + if s[|s| - 1] == x then 1 else 0
  }

  function Frequent(s: seq<nat>, all: seq<nat>): seq<nat> {
    if s == [] then []
    else Frequent(s[..|s| - 1], all) + if Occurrences(s[|s| - 1], all) >= 2 then [s[|s| - 1]] else []
  }

  /** `order`, with the values of `s` it lacks appended. */
  function AppendNew(order: seq<nat>, s: seq<nat>): seq<nat> {
    if s == [] then order
    else
      var front := AppendNew(order, s[..|s| - 1]);
      if s[|s| - 1] in front then front else front + [s[|s| - 1]]
  }

  /** The counts to try: those at least two slots agree on, then the others. */
  function CandidateCounts(counts: seq<nat>): seq<nat> {
    AppendNew(AppendNew([], Frequent(counts, counts)), counts)
  }

  /** A count that two of the three slots hold is tried first. */
  lemma MajorityFirst(counts: seq<nat>, n: nat)
    requires |counts| == COPIES && Occurrences(n, counts) >= 2
    ensures CandidateCounts(counts) != [] && CandidateCounts(counts)[0] == n
  {
    var f := Frequent(counts, counts);
    FrequentAre(counts, counts);
    OccursAmong(n, counts);
    forall x | x in f
      ensures x == n
    {
      if x != n {
        TwoValues(x, n, counts);
      }
    }
    OnlyOne(f, n);
    StaysFirst([n], counts);
  }

  lemma {:induction false} FrequentAre(s: seq<nat>, all: seq<nat>)
    ensures forall x :: x in Frequent(s, all) <==> x in s && Occurrences(x, all) >= 2
  {
    if s != [] {
      FrequentAre(s[..|s| - 1], all);
      assert s == s[..|s| - 1] + [s[|s| - 1]];
    }
  }

  lemma {:induction false} OccursAmong(x: nat, s: seq<nat>)
    ensures Occurrences(x, s) > 0 <==> x in s
  {
    if s != [] {
      OccursAmong(x, s[..|s| - 1]);
      assert s == s[..|s| - 1] + [s[|s| - 1]];
    }
  }

  lemma {:induction false} TwoValues(x: nat, y: nat, s: seq<nat>)
    requires x != y
    ensures Occurrences(x, s) + Occurrences(y, s) <= |s|
  {
    if s != [] {
      TwoValues(x, y, s[..|s| - 1]);
    }
  }

  lemma {:induction false} StaysFirst(order: seq<nat>, s: seq<nat>)
    requires order != []
    ensures AppendNew(order, s) != [] && AppendNew(order, s)[0] == order[0]
  {
    if s != [] {
      StaysFirst(order, s[..|s| - 1]);
    }
  }

  lemma {:induction false} OnlyOne(s: seq<nat>, n: nat)
    requires s != [] && forall x :: x in s ==> x == n
    ensures AppendNew([], s) == [n]
  {
    var front := s[..|s| - 1];
    assert s[|s| - 1] in s;
    if front != [] {
      assert forall x :: x in front ==> x in s;
      OnlyOne(front, n);
    }
  }

  // ---- the locator --------------------------------------------------------

  /** At least two of the three bytes are `x`. */
  predicate TwoOf(x: byte, a: byte, b: byte, c: byte) {
    (a == x && b == x) || (a == x && c == x) || (b == x && c == x)
  }

  /** Or the first is, and the others differ from it and from each other. */
  predicate Elected(x: byte, a: byte, b: byte, c: byte) {
    TwoOf(x, a, b, c) || (a == x && b != x && c != x && b != c)
  }

  /** The value most of the three bytes have; the first when all differ. */
  function Vote(a: byte, b: byte, c: byte): byte {
    if a == b || a == c then a else if b == c then b else a
  }

  function VoteAll(a: Bytes, b: Bytes, c: Bytes): Bytes
    requires |a| == |b| == |c|
  {
    seq(|a|, i requires 0 <= i < |a| => Vote(a[i], b[i], c[i]))
  }

  /** The directory's binding is the hash of its own content hash. */
  predicate SelfConsistent(h: Hashes, dir: Bytes) {
    |dir| >= DIR_FIXED_LEN && dir[8..40] == h.binding(dir[40..72])
  }

  predicate Passes(h: Hashes, data: Bytes, l: Layout, i: nat)
    requires Fits(l, data) && i < COPIES
  {
    h.blake3(Copy(data, l, i)) == StoredDigest(data, l, i)
  }

  /** The first copy whose checksum holds; failing that, the byte-wise vote, if it is self-consistent. */
  function Recover(h: Hashes, data: Bytes, l: Layout): Option<Bytes>
    requires Fits(l, data)
  {
    if Passes(h, data, l, 0) then Some(Copy(data, l, 0))
    else if Passes(h, data, l, 1) then Some(Copy(data, l, 1))
    else if Passes(h, data, l, 2) then Some(Copy(data, l, 2))
    else
      var voted := VoteAll(Copy(data, l, 0), Copy(data, l, 1), Copy(data, l, 2));
      if SelfConsistent(h, voted) then Some(voted) else None
  }

  // ---- reading the directory ----------------------------------------------

  /** A segment as the directory locates it; `avecOffset` counts from the parity region. */
  datatype Meta = Meta(offset: nat, len: nat, avecOffset: nat, avecLen: nat, geom: Bytes)

  datatype Locator = Locator(binding: Bytes, contentHash: Bytes, total: nat, metas: seq<Meta>)

  function DecodeRecord(b: Bytes, used: nat): Meta
    requires |b| >= RECORD_LEN
  {
    Meta(Val(b[0..8]), Val(b[8..16]), used, Val(b[16..24]), b[24..56])
  }

  /** The window's parity must fit its cap, and end inside the parity region. */
  function CheckRecord(meta: Meta, parityLen: nat): Option<SidecarError> {
    if meta.avecLen > Cap(meta.len) then Some(AvecTooLong)
    else if meta.avecOffset + meta.avecLen > parityLen then Some(SegmentLength)
    else None
  }

  function DecodeRecords(b: Bytes, used: nat, parityLen: nat): Result<seq<Meta>, SidecarError>
    decreases |b|
  {
    if |b| < RECORD_LEN then if used != parityLen then Err(ParityLength) else Ok([])
    else
      var meta := DecodeRecord(b, used);
      var bad := CheckRecord(meta, parityLen);
      if bad.Some? then Err(bad.value)
      else
        var rest := DecodeRecords(b[RECORD_LEN..], used + meta.avecLen, parityLen);
        if rest.Err? then rest else Ok([meta] + rest.value)
  }

  function ParseDirectory(dir: Bytes, l: Layout): Result<Locator, SidecarError> {
    if |dir| != DIR_FIXED_LEN + RECORD_LEN * l.n then Err(DirectoryLength)
    else
      var metas := DecodeRecords(dir[DIR_FIXED_LEN..], 0, l.parityLen);
      if metas.Err? then Err(metas.error) else Ok(Locator(dir[8..40], dir[40..72], Val(dir[0..8]), metas.value))
  }

  /** A payload with its geometry header replaced by the directory's copy. */
  function Heal(geom: Bytes, avec: Bytes): (healed: Bytes)
    requires |geom| == GEOM_LEN
    ensures |healed| == |avec|
  {
    var g := Min(|avec|, GEOM_LEN);
    geom[..g] + avec[g..]
  }

  /** Every meta lies in the parity region. */
  predicate MetasFit(metas: seq<Meta>, parityLen: nat) {
    forall i :: 0 <= i < |metas| ==> metas[i].avecOffset + metas[i].avecLen <= parityLen && |metas[i].geom| == GEOM_LEN
  }

  lemma {:induction false} DecodedFit(b: Bytes, used: nat, parityLen: nat)
    requires DecodeRecords(b, used, parityLen).Ok?
    ensures MetasFit(DecodeRecords(b, used, parityLen).value, parityLen)
    decreases |b|
  {
    if |b| >= RECORD_LEN {
      DecodedFit(b[RECORD_LEN..], used + DecodeRecord(b, used).avecLen, parityLen);
    }
  }

  /** The healed payload of a segment. */
  function Serve(data: Bytes, l: Layout, meta: Meta): Bytes
    requires |meta.geom| == GEOM_LEN && l.parityStart + meta.avecOffset + meta.avecLen <= |data|
  {
    var start := l.parityStart + meta.avecOffset;
    Heal(meta.geom, data[start..start + meta.avecLen])
  }

  function Segments(data: Bytes, l: Layout, metas: seq<Meta>): seq<Segment>
    requires l.parityStart + l.parityLen == |data| && MetasFit(metas, l.parityLen)
  {
    seq(|metas|, i requires 0 <= i < |metas| =>
      Segment(metas[i].offset, metas[i].len, Serve(data, l, metas[i])))
  }

  /** The whole sidecar, read from a recovered directory. */
  function Assemble(data: Bytes, l: Layout, dir: Bytes): Result<Sidecar, SidecarError>
    requires l.parityStart + l.parityLen == |data|
  {
    var loc := ParseDirectory(dir, l);
    if loc.Err? then Err(loc.error)
    else
      DecodedFit(dir[DIR_FIXED_LEN..], 0, l.parityLen);
      Ok(Sidecar(loc.value.binding, loc.value.contentHash, loc.value.total, Segments(data, l, loc.value.metas)))
  }

  lemma LayoutFits(n: nat, data: Bytes)
    requires LayoutFor(n, |data|).Some?
    ensures var l := LayoutFor(n, |data|).value; Fits(l, data) && l.parityStart + l.parityLen == |data|
  {
  }

  // ---- the two readers ----------------------------------------------------

  /** Tries the counts in order. The first locator that is recovered decides. */
  function TryCounts(h: Hashes, data: Bytes, counts: seq<nat>): Result<Sidecar, SidecarError> {
    if counts == [] then Err(LocatorLost)
    else
      var layout := LayoutFor(counts[0], |data|);
      if counts[0] == 0 || layout.None? then TryCounts(h, data, counts[1..])
      else
        LayoutFits(counts[0], data);
        var dir := Recover(h, data, layout.value);
        if dir.None? then TryCounts(h, data, counts[1..]) else Assemble(data, layout.value, dir.value)
  }

  function CheckPrefix(data: Bytes): Option<SidecarError> {
    if |data| < SLOTS_AT then Some(SidecarTooShort)
    else if data[..8] != SIDECAR_MAGIC then Some(SidecarMagic)
    else if data[8] != SIDECAR_VERSION then Some(SidecarVersion)
    else if |data| < PREFIX_LEN then Some(SidecarTooShort)
    else None
  }

  /** Reads a sidecar held in memory. */
  function ReadSidecar(h: Hashes, data: Bytes): Result<Sidecar, SidecarError> {
    var bad := CheckPrefix(data);
    if bad.Some? then Err(bad.value) else TryCounts(h, data, CandidateCounts(CountSlots(data)))
  }

  /** What either reader accepts starts with the magic number and the version, and has all three count slots. */
  lemma AcceptedPrefix(h: Hashes, data: Bytes)
    requires ReadSidecar(h, data).Ok? || OpenSidecar(h, data).Ok?
    ensures |data| >= 21 && data[..9] == SIDECAR_MAGIC + [SIDECAR_VERSION]
  {
    hide TryCounts, TryOpen, CandidateCounts, CountSlots;
    assert data[..9] == data[..8] + [data[8]];
  }

  /** A sidecar opened for streaming: the locator, and where each payload is in the file. */
  datatype Reader = Reader(locator: Locator, layout: Layout)

  /** The bytes the streaming reader looks at: zeros for the prefix, then the directory copies. */
  function Head(data: Bytes, l: Layout): (head: Bytes)
    requires Fits(l, data)
    ensures Fits(l, head)
  {
    Zeros(PREFIX_LEN) + data[PREFIX_LEN..l.parityStart]
  }

  /** As `TryCounts`, but a locator with bad fields does not end the search. */
  function TryOpen(h: Hashes, data: Bytes, counts: seq<nat>, last: SidecarError): Result<Reader, SidecarError> {
    if counts == [] then Err(last)
    else
      var layout := LayoutFor(counts[0], |data|);
      if counts[0] == 0 || layout.None? then TryOpen(h, data, counts[1..], last)
      else
        LayoutFits(counts[0], data);
        var dir := Recover(h, Head(data, layout.value), layout.value);
        if dir.None? then TryOpen(h, data, counts[1..], LocatorLost)
        else
          var loc := ParseDirectory(dir.value, layout.value);
          if loc.Err? then TryOpen(h, data, counts[1..], loc.error) else Ok(Reader(loc.value, layout.value))
  }

  function OpenSidecar(h: Hashes, data: Bytes): Result<Reader, SidecarError> {
    var bad := CheckPrefix(data);
    if bad.Some? then Err(bad.value) else TryOpen(h, data, CandidateCounts(CountSlots(data)), LocatorLost)
  }

  /** Segment `i`'s payload, read on demand. */
  function ReadAvec(r: Reader, data: Bytes, i: nat): Option<Bytes> {
    if i >= |r.locator.metas| then None
    else
      var meta := r.locator.metas[i];
      if |meta.geom| == GEOM_LEN && r.layout.parityStart + meta.avecOffset + meta.avecLen <= |data|
      then Some(Serve(data, r.layout, meta)) else None
  }

  lemma HeadRecovers(h: Hashes, data: Bytes, l: Layout)
    requires Fits(l, data)
    ensures Recover(h, Head(data, l), l) == Recover(h, data, l)
  {
    hide VoteAll, SelfConsistent;
    HeadCopy(data, l, 0);
    HeadCopy(data, l, 1);
    HeadCopy(data, l, 2);
  }

  lemma CopyInside(data: Bytes, l: Layout, i: nat)
    requires Fits(l, data) && i < COPIES
    ensures PREFIX_LEN <= CopyBase(l, i) && CopyBase(l, i) + l.dirLen + DIGEST_LEN <= l.parityStart
  {
    if i == 0 {
    } else if i == 1 {
    } else {
      assert i == 2;
    }
  }

  lemma HeadCopy(data: Bytes, l: Layout, i: nat)
    requires Fits(l, data) && i < COPIES
    ensures Copy(Head(data, l), l, i) == Copy(data, l, i) && StoredDigest(Head(data, l), l, i) == StoredDigest(data, l, i)
  {
    hide Head, CopyBase;
    var base := CopyBase(l, i);
    CopyInside(data, l, i);
    HeadSlice(data, l, base, base + l.dirLen);
    HeadSlice(data, l, base + l.dirLen, base + l.dirLen + DIGEST_LEN);
  }

  lemma HeadSlice(data: Bytes, l: Layout, a: nat, b: nat)
    requires Fits(l, data) && PREFIX_LEN <= a <= b <= l.parityStart
    ensures Head(data, l)[a..b] == data[a..b]
  {
    var head := Head(data, l);
    forall j | a <= j < b
      ensures head[j] == data[j]
    {
      assert head[j] == data[PREFIX_LEN..l.parityStart][j - PREFIX_LEN];
    }
  }

  /** Whatever the in-memory reader accepts, the streaming reader opens, with the same binding,
      hash, length and windows, and serves the same healed payloads. */
  lemma {:induction false} StreamingReaderFollows(h: Hashes, data: Bytes, counts: seq<nat>, last: SidecarError)
    requires TryCounts(h, data, counts).Ok?
    ensures TryOpen(h, data, counts, last).Ok?
    ensures var sc, r := TryCounts(h, data, counts).value, TryOpen(h, data, counts, last).value;
            && r.locator.binding == sc.binding && r.locator.contentHash == sc.contentHash
            && r.locator.total == sc.total && |r.locator.metas| == |sc.segments|
            && forall i :: 0 <= i < |sc.segments| ==>
                 && r.locator.metas[i].offset == sc.segments[i].offset && r.locator.metas[i].len == sc.segments[i].len
                 && ReadAvec(r, data, i) == Some(sc.segments[i].avec)
  {
    hide Recover, Serve, ParseDirectory, LayoutFor, Head, Fits;
    if counts != [] {
      var layout := LayoutFor(counts[0], |data|);
      if counts[0] == 0 || layout.None? {
        StreamingReaderFollows(h, data, counts[1..], last);
      } else {
        var l := layout.value;
        LayoutFits(counts[0], data);
        HeadRecovers(h, data, l);
        var dir := Recover(h, data, l);
        if dir.None? {
          StreamingReaderFollows(h, data, counts[1..], LocatorLost);
        } else {
          ParsedFit(dir.value, l);
        }
      }
    }
  }

  lemma ParsedFit(dir: Bytes, l: Layout)
    requires ParseDirectory(dir, l).Ok?
    ensures MetasFit(ParseDirectory(dir, l).value.metas, l.parityLen)
  {
    DecodedFit(dir[DIR_FIXED_LEN..], 0, l.parityLen);
  }

  // ---- the search, count by count -----------------------------------------

  /** The locator a count leads to: the count is not zero, it fits the file, and one is recovered. */
  function LocatorAt(h: Hashes, data: Bytes, n: nat): (found: Option<(Layout, Bytes)>)
    ensures found.Some? ==> LayoutFor(n, |data|) == Some(found.value.0)
    ensures found.Some? ==> found.value.0.parityStart + found.value.0.parityLen == |data|
  {
    var layout := LayoutFor(n, |data|);
    if n == 0 || layout.None? then None
    else
      LayoutFits(n, data);
      match Recover(h, data, layout.value)
      case None => None
      case Some(dir) => Some((layout.value, dir))
  }

  /** The first count that leads to a locator. */
  function FirstCount(h: Hashes, data: Bytes, counts: seq<nat>): (n: Option<nat>)
    ensures n.Some? ==> n.value in counts && LocatorAt(h, data, n.value).Some?
    ensures n.None? ==> forall c :: c in counts ==> LocatorAt(h, data, c).None?
  {
    if counts == [] then None
    else if LocatorAt(h, data, counts[0]).Some? then Some(counts[0])
    else
      assert counts == [counts[0]] + counts[1..];
      FirstCount(h, data, counts[1..])
  }

  /** The count leads to a locator whose fields are good. */
  predicate ParsesAt(h: Hashes, data: Bytes, n: nat) {
    var found := LocatorAt(h, data, n);
    found.Some? && ParseDirectory(found.value.1, found.value.0).Ok?
  }

  /** The in-memory reader goes by the first count that leads to a locator. */
  lemma {:induction false} FirstDecides(h: Hashes, data: Bytes, counts: seq<nat>)
    ensures TryCounts(h, data, counts) ==
            match FirstCount(h, data, counts)
            case None => Err(LocatorLost)
            case Some(n) =>
              var (l, dir) := LocatorAt(h, data, n).value;
              Assemble(data, l, dir)
  {
    hide Recover, LayoutFor, Assemble, Fits;
    if counts != [] {
      if LayoutFor(counts[0], |data|).Some? { LayoutFits(counts[0], data); }
      if LocatorAt(h, data, counts[0]).None? {
        FirstDecides(h, data, counts[1..]);
      }
    }
  }

  /** The streaming reader opens whatever has a count whose locator parses. */
  lemma {:induction false} AnyOpens(h: Hashes, data: Bytes, counts: seq<nat>, last: SidecarError)
    ensures TryOpen(h, data, counts, last).Ok? <==> exists n :: n in counts && ParsesAt(h, data, n)
  {
    hide Recover, LayoutFor, ParseDirectory, Head, Fits;
    if counts != [] {
      var n, rest := counts[0], counts[1..];
      assert counts == [n] + rest;
      var layout := LayoutFor(n, |data|);
      if layout.Some? {
        LayoutFits(n, data);
        HeadRecovers(h, data, layout.value);
      }
      if n == 0 || layout.None? {
        AnyOpens(h, data, rest, last);
      } else {
        var dir := Recover(h, data, layout.value);
        if dir.None? {
          AnyOpens(h, data, rest, LocatorLost);
        } else {
          var loc := ParseDirectory(dir.value, layout.value);
          assert LocatorAt(h, data, n) == Some((layout.value, dir.value));
          assert ParsesAt(h, data, n) <==> loc.Ok?;
          if loc.Err? { AnyOpens(h, data, rest, loc.error); }
        }
      }
    }
  }

  /** The counts a reader tries. */
  function Tried(data: Bytes): seq<nat> {
    if |data| < PREFIX_LEN then [] else CandidateCounts(CountSlots(data))
  }

  /** For every file: the streaming reader opens what the in-memory reader refuses exactly when, behind a
      good prefix, the first count that leads to a locator has bad fields there and another tried
      count has good ones. */
  lemma ReadersPart(h: Hashes, data: Bytes)
    ensures OpenSidecar(h, data).Ok? && ReadSidecar(h, data).Err? <==>
            && CheckPrefix(data).None?
            && (var first := FirstCount(h, data, Tried(data));
                first.Some? && !ParsesAt(h, data, first.value))
            && exists n :: n in Tried(data) && ParsesAt(h, data, n)
  {
    hide TryCounts, TryOpen, CandidateCounts, CountSlots, LocatorAt, ParseDirectory, Segments;
    if CheckPrefix(data).None? {
      var counts := Tried(data);
      FirstDecides(h, data, counts);
      AnyOpens(h, data, counts, LocatorLost);
    }
  }

  /** The other one was tried later. */
  lemma {:induction false} LaterCount(h: Hashes, data: Bytes, counts: seq<nat>, n: nat) returns (i: nat, k: nat)
    requires n in counts && ParsesAt(h, data, n)
    requires FirstCount(h, data, counts).Some? && !ParsesAt(h, data, FirstCount(h, data, counts).value)
    ensures i < k < |counts| && counts[i] == FirstCount(h, data, counts).value && counts[k] == n
    ensures forall j :: 0 <= j < i ==> LocatorAt(h, data, counts[j]).None?
  {
    hide LocatorAt, ParseDirectory;
    if LocatorAt(h, data, counts[0]).Some? {
      i := 0;
      k :| 0 <= k < |counts| && counts[k] == n;
    } else {
      assert counts == [counts[0]] + counts[1..];
      i, k := LaterCount(h, data, counts[1..], n);
      i, k := i + 1, k + 1;
    }
  }

  /** So when the three slots agree the readers accept the same files. */
  lemma SameSlotsAgree(h: Hashes, data: Bytes, n: nat)
    requires |data| >= PREFIX_LEN && CountSlots(data) == [n, n, n]
    ensures OpenSidecar(h, data).Ok? <==> ReadSidecar(h, data).Ok?
  {
    hide TryCounts, TryOpen, CandidateCounts, CountSlots, LocatorAt, ParseDirectory, OpenSidecar, ReadSidecar;
    AllTheSame(n);
    ReadersPart(h, data);
    if ReadSidecar(h, data).Ok? { ReadThenOpens(h, data); }
  }

  lemma ReadThenOpens(h: Hashes, data: Bytes)
    requires ReadSidecar(h, data).Ok?
    ensures OpenSidecar(h, data).Ok?
  {
    hide TryCounts, TryOpen, CandidateCounts, CountSlots;
    StreamingReaderFollows(h, data, CandidateCounts(CountSlots(data)), LocatorLost);
  }

  lemma AllTheSame(n: nat)
    ensures CandidateCounts([n, n, n]) == [n]
  {
    var s := [n, n, n];
    FrequentAre(s, s);
    assert s[..2] == [n, n] && [n, n][..1] == [n] && [n][..0] == [];
    assert Occurrences(n, [n]) == 1 + Occurrences(n, []);
    assert Occurrences(n, [n, n]) == 1 + Occurrences(n, [n]);
    assert Occurrences(n, s) == 1 + Occurrences(n, [n, n]);
    assert n in s && n in Frequent(s, s);
    OnlyOne(Frequent(s, s), n);
    Unchanged([n], s);
  }

  lemma {:induction false} Unchanged(order: seq<nat>, s: seq<nat>)
    requires forall x :: x in s ==> x in order
    ensures AppendNew(order, s) == order
  {
    if s != [] {
      assert forall x :: x in s[..|s| - 1] ==> x in s;
      Unchanged(order, s[..|s| - 1]);
      assert s[|s| - 1] in s;
    }
  }
}
