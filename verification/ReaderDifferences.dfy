/** Files on which the sidecar's readers do other than one might expect. */
module ReaderDifferences {
  import opened Wrappers
  import opened ByteSeqs
  import opened AvecLengths
  import opened Sidecars
  import opened SidecarHealing

  // ---- zeros --------------------------------------------------------------

  lemma {:induction false} ZeroVal(n: nat)
    ensures Val(Zeros(n)) == 0
  {
    if n > 0 {
      assert Zeros(n)[1..] == Zeros(n - 1);
      ZeroVal(n - 1);
    }
  }

  lemma ZeroPart(n: nat, a: nat, b: nat)
    requires a <= b <= n
    ensures Zeros(n)[a..b] == Zeros(b - a)
  {
    var z := Zeros(n);
    assert forall i :: 0 <= i < b - a ==> z[a..b][i] == 0;
  }

  lemma {:induction false} ZeroRecords(n: nat, parityLen: nat)
    ensures var r := DecodeRecords(Zeros(RECORD_LEN * n), 0, parityLen);
            if parityLen == 0 then r.Ok? else r == Err(ParityLength)
  {
    if n > 0 {
      hide Cap;
      var b := Zeros(RECORD_LEN * n);
      ZeroPart(|b|, 0, 8);
      ZeroPart(|b|, 8, 16);
      ZeroPart(|b|, 16, 24);
      ZeroPart(|b|, RECORD_LEN, |b|);
      assert b[RECORD_LEN..] == b[RECORD_LEN..|b|];
      ZeroVal(8);
      assert DecodeRecord(b, 0).avecLen == 0;
      ZeroRecords(n - 1, parityLen);
    }
  }

  /** A directory of zeros parses exactly when no parity follows. */
  lemma ZeroDirectory(l: Layout)
    requires l.dirLen == DIR_FIXED_LEN + RECORD_LEN * l.n
    ensures if l.parityLen == 0 then ParseDirectory(Zeros(l.dirLen), l).Ok?
            else ParseDirectory(Zeros(l.dirLen), l) == Err(ParityLength)
  {
    hide DecodeRecords, Val;
    assert Zeros(l.dirLen)[DIR_FIXED_LEN..] == Zeros(RECORD_LEN * l.n);
    ZeroRecords(l.n, l.parityLen);
  }

  // ---- a file one reader accepts ------------------------------------------

  const COUNTS_ONE_TWO: Bytes := [1, 0, 0, 0, 1, 0, 0, 0, 2, 0, 0, 0]
  const ONE_ONE_TWO: Bytes := SIDECAR_MAGIC + [SIDECAR_VERSION] + COUNTS_ONE_TWO

  function Spoiled(digest: Bytes): Bytes {
    if digest == [] then [] else [if digest[0] == 0 then 1 else 0] + digest[1..]
  }

  /** What stands where a two-segment file has its first directory. */
  function FirstDirectory(h: Hashes): Bytes {
    Zeros(128) + h.blake3(Zeros(128)) + Zeros(24)
  }

  /** Two slots say one segment and the third says two. Read as one segment the file has a directory with
      its true digest, but unclaimed parity; read as two, a spoiled first directory and a second with its
      true digest, and no parity. */
  function OneOrTwo(h: Hashes): Bytes {
    ONE_ONE_TWO + FirstDirectory(h) + Spoiled(h.blake3(FirstDirectory(h)))
    + Zeros(184) + h.blake3(Zeros(184)) + Zeros(216)
  }

  const LAYOUT_ONE := Layout(1, 128, 501, 168)
  const LAYOUT_TWO := Layout(2, 184, 669, 0)

  lemma OneOrTwoParts(h: Hashes)
    requires HashesOk(h)
    ensures var data := OneOrTwo(h);
            && |data| == 669 && data[..PREFIX_LEN] == ONE_ONE_TWO
            && LayoutFor(1, 669) == Some(LAYOUT_ONE) && LayoutFor(2, 669) == Some(LAYOUT_TWO)
            && Fits(LAYOUT_ONE, data) && Fits(LAYOUT_TWO, data)
            && Copy(data, LAYOUT_ONE, 0) == Zeros(128) && StoredDigest(data, LAYOUT_ONE, 0) == h.blake3(Zeros(128))
            && Copy(data, LAYOUT_TWO, 0) == FirstDirectory(h)
            && StoredDigest(data, LAYOUT_TWO, 0) == Spoiled(h.blake3(FirstDirectory(h)))
            && Copy(data, LAYOUT_TWO, 1) == Zeros(184) && StoredDigest(data, LAYOUT_TWO, 1) == h.blake3(Zeros(184))
  {
    hide Zeros;
    assert |ONE_ONE_TWO| == PREFIX_LEN;
    var first, data := FirstDirectory(h), OneOrTwo(h);
    assert |first| == 184;
    var spoiled := Spoiled(h.blake3(first));
    var tail := spoiled + Zeros(184) + h.blake3(Zeros(184)) + Zeros(216);
    FirstPart(ONE_ONE_TWO, first, tail);
    assert data == ONE_ONE_TWO + first + tail;
    assert |spoiled| == 32 && data[205..237] == tail[0..32] == spoiled;
    assert data[237..421] == tail[32..216] == Zeros(184);
    assert data[421..453] == tail[216..248] == h.blake3(Zeros(184));
    assert data[21..149] == first[..128] == Zeros(128);
    assert data[149..181] == first[128..160] == h.blake3(Zeros(128));
  }

  lemma FirstPart(a: Bytes, b: Bytes, c: Bytes)
    ensures (a + b + c)[|a|..|a| + |b|] == b
  {
  }

  lemma OneOrTwoCounts(data: Bytes)
    requires |data| == 669 && data[..PREFIX_LEN] == ONE_ONE_TWO
    ensures CheckPrefix(data) == None && CountSlots(data) == [1, 1, 2] && Tried(data) == [1, 2]
  {
    hide Val, Zeros, CandidateCounts;
    SlotValue(1, 0, 0);
    SlotValue(2, 0, 0);
    var p := data[..PREFIX_LEN];
    assert data[..8] == p[..8] == SIDECAR_MAGIC && data[8] == p[8];
    assert p[9..] == COUNTS_ONE_TWO;
    assert forall i: nat, j: nat :: i <= j <= 12 ==> data[9 + i..9 + j] == COUNTS_ONE_TWO[i..j];
    assert COUNTS_ONE_TWO[0..4] == [1, 0, 0, 0] && COUNTS_ONE_TWO[4..8] == [1, 0, 0, 0] && COUNTS_ONE_TWO[8..12] == [2, 0, 0, 0];
    assert data[9..13] == COUNTS_ONE_TWO[0..4] && data[13..17] == COUNTS_ONE_TWO[4..8] && data[17..21] == COUNTS_ONE_TWO[8..12];
    TwoAndOne(1, 2);
  }

  lemma SlotValue(a: byte, b: byte, c: byte)
    ensures Val([a, b, c, 0]) == a as nat + 0x100 * b as nat + 0x1_0000 * c as nat
  {
    var s0: Bytes, s1: Bytes, s2: Bytes, s3: Bytes := [], [0], [c, 0], [b, c, 0];
    var s: Bytes := [a, b, c, 0];
    assert s1[1..] == s0 && s2[1..] == s1 && s3[1..] == s2 && s[1..] == s3;
    assert Val(s1) == 0;
    assert Val(s2) == c as nat;
    assert Val(s3) == b as nat + 0x100 * c as nat;
  }

  lemma CountsSnoc(s: seq<nat>, y: nat, x: nat, all: seq<nat>, order: seq<nat>)
    ensures Occurrences(x, s + [y]) == Occurrences(x, s) + if x == y then 1 else 0
    ensures Frequent(s + [y], all) == Frequent(s, all) + if Occurrences(y, all) >= 2 then [y] else []
    ensures AppendNew(order, s + [y]) ==
            (var front := AppendNew(order, s); if y in front then front else front + [y])
  {
    assert (s + [y])[..|s|] == s;
  }

  lemma TwoAndOne(a: nat, b: nat)
    requires a != b
    ensures CandidateCounts([a, a, b]) == [a, b]
  {
    hide Occurrences, Frequent, AppendNew;
    var none: seq<nat>, all: seq<nat> := [], [a, a, b];
    assert none + [a] == [a] && [a] + [a] == [a, a] && [a, a] + [b] == all;
    CountsSnoc(none, a, a, all, none);
    CountsSnoc([a], a, a, all, none);
    CountsSnoc([a, a], b, a, all, none);
    CountsSnoc(none, a, b, all, [a]);
    CountsSnoc([a], a, b, all, [a]);
    CountsSnoc([a, a], b, b, all, [a]);
    Nothing(all, none);
    Nothing(all, [a]);
    assert Frequent([a], all) == [a] && Frequent([a, a], all) == [a, a] && Frequent(all, all) == [a, a];
    assert AppendNew(none, [a]) == [a] && AppendNew(none, [a, a]) == [a];
    assert AppendNew([a], [a]) == [a] && AppendNew([a], [a, a]) == [a] && AppendNew([a], all) == [a, b];
  }

  lemma Nothing(all: seq<nat>, order: seq<nat>)
    ensures Frequent([], all) == [] && AppendNew(order, []) == order && forall x :: Occurrences(x, []) == 0
  {
  }

  /** Whatever the hash functions are, the streaming reader opens that file and the in-memory reader
      refuses it. */
  lemma StreamingReaderAcceptsMore(h: Hashes)
    requires HashesOk(h)
    ensures ReadSidecar(h, OneOrTwo(h)) == Err(ParityLength) && OpenSidecar(h, OneOrTwo(h)).Ok?
  {
    hide OneOrTwo, CandidateCounts, CountSlots, ParseDirectory, Zeros, TryCounts, TryOpen, SelfConsistent, VoteAll,
      FirstDirectory, Copy, StoredDigest, Fits, LayoutFor;
    var data := OneOrTwo(h);
    OneOrTwoParts(h);
    OneOrTwoCounts(data);
    ZeroDirectory(LAYOUT_ONE);
    ZeroDirectory(LAYOUT_TWO);
    SpoiledDiffers(h.blake3(FirstDirectory(h)));
    assert LocatorAt(h, data, 1) == Some((LAYOUT_ONE, Zeros(128)));
    assert LocatorAt(h, data, 2) == Some((LAYOUT_TWO, Zeros(184)));
    FirstDecides(h, data, [1, 2]);
    AnyOpens(h, data, [1, 2], LocatorLost);
    assert ParsesAt(h, data, 2);
  }

  lemma SpoiledDiffers(digest: Bytes)
    requires digest != []
    ensures Spoiled(digest) != digest
  {
    assert Spoiled(digest)[0] != digest[0];
  }

  // ---- counts that a vote would recover -----------------------------------

  const SLOT_A: Bytes := [0, 0, 0, 0]
  const SLOT_B: Bytes := [1, 1, 0, 0]
  const SLOT_C: Bytes := [1, 0, 1, 0]

  /** A sidecar's bytes with the three count slots overwritten. */
  function WithSlots(data: Bytes): Bytes
    requires |data| >= PREFIX_LEN
  {
    data[..SLOTS_AT] + SLOT_A + SLOT_B + SLOT_C + data[PREFIX_LEN..]
  }

  /** The least file length a count of 257 fits. */
  const FITS_257: nat := 43509

  lemma TailAlike(a: Bytes, b: Bytes, p: nat, lo: nat, hi: nat)
    requires |a| == |b| && p <= lo <= hi <= |a| && a[p..] == b[p..]
    ensures a[lo..hi] == b[lo..hi]
  {
    forall x | lo <= x < hi
      ensures a[x] == b[x]
    {
      assert a[x] == a[p..][x - p] && b[x] == b[p..][x - p];
    }
  }

  lemma SameCopies(l: Layout, a: Bytes, b: Bytes)
    requires |a| == |b| && Fits(l, a) && a[PREFIX_LEN..] == b[PREFIX_LEN..]
    ensures forall i: nat :: i < COPIES ==> Copy(a, l, i) == Copy(b, l, i) && StoredDigest(a, l, i) == StoredDigest(b, l, i)
  {
    hide CopyBase;
    forall i: nat | i < COPIES
      ensures Copy(a, l, i) == Copy(b, l, i) && StoredDigest(a, l, i) == StoredDigest(b, l, i)
    {
      var base := CopyBase(l, i);
      CopyInside(a, l, i);
      TailAlike(a, b, PREFIX_LEN, base, base + l.dirLen);
      TailAlike(a, b, PREFIX_LEN, base + l.dirLen, base + l.dirLen + DIGEST_LEN);
    }
  }

  lemma SameGive(h: Hashes, a: Bytes, b: Bytes, l: Layout, dir: Bytes)
    requires Fits(l, a) && Fits(l, b) && CopiesGive(h, a, l, dir)
    requires forall i: nat :: i < COPIES ==> Copy(a, l, i) == Copy(b, l, i) && StoredDigest(a, l, i) == StoredDigest(b, l, i)
    ensures CopiesGive(h, b, l, dir)
  {
    hide Copy, StoredDigest, Fits, Elected;
    assert forall i: nat :: i < COPIES ==> Passes(h, a, l, i) == Passes(h, b, l, i);
  }

  /** The count slots have no part in whether the directory survives. */
  lemma SlotsDoNotMatter(h: Hashes, sc: Sidecar, a: Bytes, b: Bytes)
    requires |a| == |b| && DirectorySurvives(h, sc, a) && |a| >= PREFIX_LEN
    requires a[..SLOTS_AT] == b[..SLOTS_AT] && a[PREFIX_LEN..] == b[PREFIX_LEN..]
    ensures DirectorySurvives(h, sc, b)
  {
    hide Directory, CopiesGive, Copy, StoredDigest;
    var l := LayoutOf(sc);
    SameCopies(l, a, b);
    SameGive(h, a, b, l, Directory(sc));
  }

  /** Each byte of the count is whole in two of the three slots, and a vote byte by byte would give the
      count back; but no slot holds it, and the sidecar, otherwise undamaged, is refused. */
  lemma VotedCountIsNotTried(h: Hashes, sc: Sidecar)
    requires HashesOk(h) && Writable(h, sc) && |sc.segments| == 1 && |SidecarBytes(h, sc)| < FITS_257
    ensures var data := WithSlots(SidecarBytes(h, sc));
            && VoteAll(data[9..13], data[13..17], data[17..21]) == Le(1, 4)
            && SidecarBytes(h, sc)[9..13] == Le(1, 4)
            && DirectorySurvives(h, sc, data)
            && ReadSidecar(h, data) == Err(LocatorLost)
  {
    hide Writable, DirectorySurvives, SidecarBytes, Val, CandidateCounts, TryCounts, Avecs, Directory, Copy;
    WrittenParts(h, sc);
    var was := SidecarBytes(h, sc);
    var data := WithSlots(was);
    assert data[9..13] == SLOT_A && data[13..17] == SLOT_B && data[17..21] == SLOT_C;
    LeOne();
    assert VoteAll(SLOT_A, SLOT_B, SLOT_C) == [1, 0, 0, 0];
    assert data[..SLOTS_AT] == was[..SLOTS_AT];
    WrittenSurvives(h, sc);
    SlotsDoNotMatter(h, sc, was, data);
    assert data[8] == data[..SLOTS_AT][8] && data[..8] == data[..SLOTS_AT][..8];
    SlotValue(0, 0, 0);
    SlotValue(1, 1, 0);
    SlotValue(1, 0, 1);
    assert CountSlots(data) == [0, 257, 65537];
    NoneFit(h, data);
    FirstDecides(h, data, Tried(data));
  }

  lemma LeOne()
    ensures Le(1, 4) == [1, 0, 0, 0]
  {
    assert Le(0, 1) == [0 as byte] + Le(0, 0);
  }

  lemma NoneFit(h: Hashes, data: Bytes)
    requires PREFIX_LEN <= |data| < FITS_257 && CountSlots(data) == [0, 257, 65537]
    ensures FirstCount(h, data, Tried(data)).None?
  {
    hide CandidateCounts, CountSlots;
    TriedAre(CountSlots(data));
    assert LayoutFor(257, |data|).None? && LayoutFor(65537, |data|).None?;
    assert LocatorAt(h, data, 0).None? && LocatorAt(h, data, 257).None? && LocatorAt(h, data, 65537).None?;
  }
}
