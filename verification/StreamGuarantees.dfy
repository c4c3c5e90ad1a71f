/** When a damaged stream and its damaged sidecar give the original stream back. */
module StreamGuarantees {
  import opened Wrappers
  import opened ByteSeqs
  import opened ErasureCode
  import opened EcPayloads
  import opened ErrorCorrection
  import opened Reconstruction
  import opened ParityRepair
  import opened AvecLengths
  import opened Sidecars
  import opened SidecarHealing
  import opened Windows
  import opened StreamRepair

  // ---- the two readers ----------------------------------------------------

  /** The streamed repair sees the sidecar the in-memory repair reads, whenever that one reads it. */
  lemma ReadersAgree(h: Hashes, data: Bytes)
    requires ReadSidecar(h, data).Ok?
    ensures View(OpenSidecar(h, data), data) == ReadSidecar(h, data)
  {
    hide TryCounts, TryOpen, CandidateCounts, ReadAvec;
    StreamingReaderFollows(h, data, CandidateCounts(CountSlots(data)), LocatorLost);
    var sc := ReadSidecar(h, data).value;
    assert View(OpenSidecar(h, data), data).value.segments == sc.segments;
  }

  /** The in-memory and the streamed repair end alike. */
  lemma OutcomeUnique(e: Engine, h: Hashes, read: Result<Sidecar, SidecarError>, expected: Bytes, d: Bytes,
                      d1: Bytes, r1: Result<RepairResult, RepairError>, a1: Bytes,
                      d2: Bytes, r2: Result<RepairResult, RepairError>, a2: Bytes)
    requires Outcome(e, h, read, expected, d, d1, r1, a1) && Outcome(e, h, read, expected, d, d2, r2, a2)
    ensures d1 == d2 && r1 == r2
  {
    hide TilesFrom, WindowRepaired, FirstRefusal, RecoveredTotal, Part;
    var valid := Validate(h, read, expected, |d|);
    if valid.Ok? && h.sha256(d) != expected && FirstRefusal(valid.value.segments).None? {
      var segs := valid.value.segments;
      forall i | 0 <= i < |WindowsIn(segs)|
        ensures Part(a1, WindowsIn(segs)[i]) == Part(a2, WindowsIn(segs)[i])
      {
        assert WindowRepaired(e, segs[i], d, a1) && WindowRepaired(e, segs[i], d, a2);
        WindowUnique(e, segs[i], d, a1, a2);
      }
      TilesDetermine(WindowsIn(segs), 0, a1, a2);
      assert a1[0..] == a1 && a2[0..] == a2;
    }
  }

  lemma WindowUnique(e: Engine, seg: Segment, d: Bytes, a1: Bytes, a2: Bytes)
    requires WindowRepaired(e, seg, d, a1) && WindowRepaired(e, seg, d, a2)
    ensures Part(a1, WindowOf(seg)) == Part(a2, WindowOf(seg))
  {
    hide RepairOutcome, Part, RecoveredIn;
    var part := Part(d, WindowOf(seg));
    var r := Ok(RecoveredIn(e, seg.avec, part));
    RepairUnique(e, seg.avec, part, Part(a1, WindowOf(seg)), Part(a2, WindowOf(seg)), r, r);
  }

  // ---- generated sidecars -------------------------------------------------

  lemma GeneratedSegment(e: Engine, h: Hashes, pct: nat, window: nat, d: Bytes, i: nat)
    requires EngineOk(e) && |d| < U64_LIMIT && i < |WindowsOf(|d|, window)|
    ensures var sc, w := Generated(e, h, pct, window, d), WindowsOf(|d|, window)[i];
            && |sc.segments| == |WindowsOf(|d|, window)|
            && w.offset + w.len <= |d|
            && sc.segments[i] == ProtectWindow(e, pct, d, w) && |sc.segments[i].avec| == AvecLen(w.len, pct)
            && Sized(sc.segments[i])
  {
    hide WindowsOf, ProtectWindow, AvecLen, TilesFrom;
    WindowsTile(|d|, window);
    TileInside(WindowsOf(|d|, window), 0, |d|, i);
    WindowLength(e, pct, d, WindowsOf(|d|, window)[i]);
    ProtectedPlace(e, pct, d, WindowsOf(|d|, window)[i]);
  }

  lemma ProtectedPlace(e: Engine, pct: nat, d: Bytes, w: Window)
    ensures ProtectWindow(e, pct, d, w).offset == w.offset && ProtectWindow(e, pct, d, w).len == w.len
  {
  }

  lemma GeneratedWritable(e: Engine, h: Hashes, pct: nat, window: nat, d: Bytes)
    requires EngineOk(e) && HashesOk(h) && |d| < U64_LIMIT && LocatorFits(|WindowsOf(|d|, window)|)
    ensures Writable(h, Generated(e, h, pct, window, d))
  {
    hide WindowsOf, ProtectWindow;
    var sc := Generated(e, h, pct, window, d);
    assert |sc.segments| == |WindowsOf(|d|, window)|;
    forall i | 0 <= i < |sc.segments|
      ensures Sized(sc.segments[i])
    {
      GeneratedSegment(e, h, pct, window, d, i);
    }
    SomeWindow(|d|, window);
  }

  lemma SomeWindow(total: nat, window: nat)
    ensures WindowsOf(total, window) != []
  {
  }

  /** Every payload is within its cap exactly when no window has one of the lengths that go wrong. */
  lemma GeneratedWithinCap(e: Engine, h: Hashes, pct: nat, window: nat, d: Bytes)
    requires EngineOk(e) && |d| < U64_LIMIT
    ensures WithinCap(Generated(e, h, pct, window, d).segments) <==>
            forall i :: 0 <= i < |WindowsOf(|d|, window)| ==> !TooLongForReader(WindowsOf(|d|, window)[i].len, pct)
  {
    hide WindowsOf, ProtectWindow, TooLongForReader, AvecLen, Cap, Sized;
    var sc, ws := Generated(e, h, pct, window, d), WindowsOf(|d|, window);
    assert |sc.segments| == |ws|;
    forall i: nat | i < |ws|
      ensures |sc.segments[i].avec| <= Cap(sc.segments[i].len) <==> !TooLongForReader(ws[i].len, pct)
    {
      GeneratedSegment(e, h, pct, window, d, i);
      ProtectedPlace(e, pct, d, ws[i]);
      WithinCapExactly(ws[i].len, pct);
      CapIs(ws[i].len);
    }
  }

  lemma CapIs(len: nat)
    ensures Cap(len) == AvecLen(len, MAX_PCT)
  {
  }

  /** A freshly generated sidecar is read back exactly, unless its locator is over the region the reader
      buffers, or some window has 16385 to 16412 bytes and the level is 10 to 44 percent; then its own
      reader refuses it. The count field holds any number of windows it is asked for below 2^32. */
  lemma GeneratedReadsBack(e: Engine, h: Hashes, pct: nat, window: nat, d: Bytes)
    requires EngineOk(e) && HashesOk(h) && |d| < U64_LIMIT && |WindowsOf(|d|, window)| < U32_LIMIT
    ensures var sc := Generated(e, h, pct, window, d);
            ReadSidecar(h, SidecarBytes(h, sc)) ==
            if !LocatorFits(|WindowsOf(|d|, window)|) then Err(LocatorLost)
            else if forall i :: 0 <= i < |WindowsOf(|d|, window)| ==> !TooLongForReader(WindowsOf(|d|, window)[i].len, pct)
            then Ok(sc) else Err(AvecTooLong)
  {
    hide WindowsOf, TooLongForReader, ReadSidecar, SidecarBytes, Writable, WithinCap, LocatorFits, ProtectWindow;
    var sc := Generated(e, h, pct, window, d);
    assert |sc.segments| == |WindowsOf(|d|, window)|;
    if LocatorFits(|sc.segments|) {
      GeneratedWritable(e, h, pct, window, d);
      GeneratedWithinCap(e, h, pct, window, d);
      RoundTrip(h, sc);
    } else {
      LocatorTooLarge(h, sc);
    }
  }

  // ---- sidecars that are refused ------------------------------------------

  /** Nothing is repaired by a sidecar that is bound to other content, is for a stream of another length, or leaves a gap or an
      overlap: a stream is changed only if the sidecar parsed, names the expected content in both its fields, and has windows
      that follow one another over all of it. */
  lemma OnlyItsOwnSidecar(e: Engine, h: Hashes, read: Result<Sidecar, SidecarError>, expected: Bytes, d: Bytes, d1: Bytes,
                          r: Result<RepairResult, RepairError>, attempt: Bytes)
    requires Outcome(e, h, read, expected, d, d1, r, attempt)
    ensures d1 != d || r.Ok? ==>
              && read.Ok? && read.value.contentHash == expected && read.value.binding == h.binding(expected)
              && read.value.total == |d|
              && (forall i :: 0 <= i < |read.value.segments| ==>
                    read.value.segments[i].offset == if i == 0 then 0 else read.value.segments[i - 1].offset + read.value.segments[i - 1].len)
              && (forall i :: i == |read.value.segments| - 1 && i >= 0 ==>
                    read.value.segments[i].offset + read.value.segments[i].len == |d|)
              && (read.value.segments == [] ==> d == [])
    ensures d1 != d ==> h.sha256(d1) == expected && h.sha256(d) != expected
  {
    hide StreamRepaired, FirstRefusal, RecoveredTotal, TilesFrom;
    if d1 != d || r.Ok? {
      TilesRow(read.value.segments, 0, |d|);
    }
  }

  lemma {:induction false} TilesRow(segs: seq<Segment>, at: nat, total: nat)
    requires TilesFrom(WindowsIn(segs), at, total)
    ensures forall i :: 0 <= i < |segs| ==> segs[i].offset == if i == 0 then at else segs[i - 1].offset + segs[i - 1].len
    ensures segs != [] ==> segs[|segs| - 1].offset + segs[|segs| - 1].len == total
    ensures segs == [] ==> at == total
    decreases |segs|
  {
    var ws := WindowsIn(segs);
    if segs != [] {
      assert ws[1..] == WindowsIn(segs[1..]) && ws[0] == WindowOf(segs[0]);
      TilesRow(segs[1..], at + segs[0].len, total);
      forall i | 0 <= i < |segs|
        ensures segs[i].offset == if i == 0 then at else segs[i - 1].offset + segs[i - 1].len
      {
        if i > 0 { assert segs[1..][i - 1] == segs[i] && (i > 1 ==> segs[1..][i - 2] == segs[i - 1]); }
      }
    }
  }

  // ---- completeness -------------------------------------------------------

  /** What repair can fix in one window: every matching shard is original, and no group that holds another shard
      has more mismatched data shards than matching parity shards. */
  ghost predicate WithinReach(e: Engine, seg: Segment, d: Bytes, original: Bytes) {
    var part, was := Part(d, WindowOf(seg)), Part(original, WindowOf(seg));
    seg.avec != [] && Parse(seg.avec).Ok? ==>
      var pl := Parse(seg.avec).value;
      Truthful(e, pl, part, was) && Mendable(e, pl, part, was)
  }

  /** The payload made for a window, its header healed: it parses with the geometry of the window. */
  lemma HealedWindow(e: Engine, pct: nat, d: Bytes, w: Window, found: Bytes)
    requires EngineOk(e) && |d| < U64_LIMIT && w.offset + w.len <= |d| && 0 < w.len
    requires var avec := ProtectWindow(e, pct, d, w).avec; |found| == |avec|
    ensures var avec := ProtectWindow(e, pct, d, w).avec;
            var (k, p) := GridFor(pct);
            var read := Parse(Heal(Geom(avec), found));
            && avec != [] && read.Ok? && read.value.geo == GeometryFor(k, p, w.len)
            && Accepted(Heal(Geom(avec), found), w.len) == read && Usable(read.value)
  {
    hide GridFor, Geometry.Groups, Geometry.DataShards, Protection, Geom, Heal, Serialize, Parse, LengthFor,
      GeometryFor, WellFormed;
    GridBounds(pct);
    var (k, p) := GridFor(pct);
    var part := Part(d, w);
    AvecLenFits(w.len, pct);
    WindowPayload(e, k, p, part);
    var avec := ProtectWindow(e, pct, d, w).avec;
    assert avec == Protect(e, k, p, part);
    HealedPayloadParses(avec, found);
    ForStreamIsWellFormed(Heal(Geom(avec), found), w.len);
  }

  lemma WindowPayload(e: Engine, k: nat, p: nat, part: Bytes)
    requires EngineOk(e) && CodeSize(k, p) && 0 < |part| < U64_LIMIT && LengthFor(k, p, |part|) < U64_LIMIT
    ensures var avec := Protect(e, k, p, part);
            && avec != [] && Parse(avec).Ok? && Parse(avec).value.geo == GeometryFor(k, p, |part|)
            && GeometryFor(k, p, |part|).total == |part| && GeometryFor(k, p, |part|).k == k && GeometryFor(k, p, |part|).p == p
  {
    hide Geometry.Groups, Geometry.DataShards, Protection, Serialize, Parse, CeilDiv;
    var geo := GeometryFor(k, p, |part|);
    ProtectionWellFormed(e, geo, part);
    ParseSerialize(Protection(e, geo, part));
    SerializedLength(Protection(e, geo, part));
    ProtectionGeometry(e, geo, part);
  }

  /** One window within reach: its payload is usable, and repair gives the original bytes. */
  lemma WindowRestored(e: Engine, pct: nat, original: Bytes, w: Window, found: Bytes, d: Bytes, attempt: Bytes)
    requires EngineOk(e) && |d| == |original| < U64_LIMIT && w.offset + w.len <= |original|
    requires var avec := ProtectWindow(e, pct, original, w).avec; |found| == |avec|
    requires var (k, p) := GridFor(pct); AnyKDetermine(e.code, k, p)
    requires var seg := Segment(w.offset, w.len, Heal(Geom(ProtectWindow(e, pct, original, w).avec), found));
             WithinReach(e, seg, d, original)
    ensures var seg := Segment(w.offset, w.len, Heal(Geom(ProtectWindow(e, pct, original, w).avec), found));
            && Refusal(seg).None?
            && (|attempt| == |d| && WindowRepaired(e, seg, d, attempt) ==> Part(attempt, w) == Part(original, w))
  {
    hide GridFor, Geometry.Groups, Geom, AnyKDetermine, EngineOk, Truthful, Mendable, WithinBudget, Repaired, Recovered,
      WellFormed, Accepted, Parse, ProtectWindow, Heal;
    var avec := ProtectWindow(e, pct, original, w).avec;
    var seg := Segment(w.offset, w.len, Heal(Geom(avec), found));
    PartLength(d, w);
    if w.len == 0 {
      EmptyWindow(e, pct, original, w);
    } else {
      HealedWindow(e, pct, original, w, found);
      var pl := Parse(seg.avec).value;
      CodeOf(pct, w.len);
      if |attempt| == |d| && WindowRepaired(e, seg, d, attempt) {
        RepairRestores(e, pl, Part(d, w), Part(original, w), Part(attempt, w));
      }
    }
  }

  lemma CodeOf(pct: nat, len: nat)
    ensures var (k, p) := GridFor(pct); k > 0 && GeometryFor(k, p, len).k == k && GeometryFor(k, p, len).p == p
  {
  }

  lemma PartLength(d: Bytes, w: Window)
    requires w.offset + w.len <= |d|
    ensures |Part(d, w)| == w.len
  {
  }

  lemma EmptyWindow(e: Engine, pct: nat, d: Bytes, w: Window)
    requires w.offset + w.len <= |d| && w.len == 0
    ensures ProtectWindow(e, pct, d, w).avec == []
    ensures Part(d, w) == []
    ensures forall x: Bytes :: |x| == |d| ==> Part(x, w) == []
  {
  }

  /** The sidecar read from the damaged bytes, and its windows. */
  lemma HealedIsValid(e: Engine, h: Hashes, pct: nat, window: nat, original: Bytes, found: Bytes)
    requires EngineOk(e) && HashesOk(h) && |original| < U64_LIMIT
    requires forall i :: 0 <= i < |WindowsOf(|original|, window)| ==> !TooLongForReader(WindowsOf(|original|, window)[i].len, pct)
    requires Survivable(h, Generated(e, h, pct, window, original), found)
    ensures var sc := Generated(e, h, pct, window, original);
            && Validate(h, ReadSidecar(h, found), h.sha256(original), |original|) == Ok(Healed(sc, found))
            && WindowsIn(Healed(sc, found).segments) == WindowsOf(|original|, window)
  {
    hide WindowsOf, TooLongForReader, ReadSidecar, Writable, WithinCap, LocatorFits, Survivable, TilesFrom, Heal,
      Geom, Avecs, ProtectWindow;
    var sc, ws := Generated(e, h, pct, window, original), WindowsOf(|original|, window);
    SurvivableFits(h, sc, found);
    GeneratedWritable(e, h, pct, window, original);
    GeneratedWithinCap(e, h, pct, window, original);
    SelfHeals(h, sc, found);
    WindowsTile(|original|, window);
    SurvivableLength(h, sc, found);
    forall i: nat | i < |ws|
      ensures WindowOf(Healed(sc, found).segments[i]) == ws[i]
    {
      ProtectedPlace(e, pct, original, ws[i]);
    }
    assert WindowsIn(Healed(sc, found).segments) == ws;
  }

  lemma SurvivableLength(h: Hashes, sc: Sidecar, data: Bytes)
    requires Survivable(h, sc, data)
    ensures |data| == LayoutOf(sc).parityStart + LayoutOf(sc).parityLen
  {
  }

  lemma {:induction false} NoRefusal(segs: seq<Segment>)
    requires forall i :: 0 <= i < |segs| ==> Refusal(segs[i]).None?
    ensures FirstRefusal(segs).None?
  {
    hide Refusal;
    if segs != [] {
      assert forall i :: 0 <= i < |segs[1..]| ==> segs[1..][i] == segs[i + 1];
      NoRefusal(segs[1..]);
    }
  }

  /** A generated sidecar, damaged in its locator, headers, tables and parity, still repairs a damaged
      stream, as long as its locator survives and each window is within reach: the repair
      succeeds, and what it writes is the original stream. */
  lemma RepairCompletes(e: Engine, h: Hashes, pct: nat, window: nat, original: Bytes, found: Bytes,
                        d: Bytes, d1: Bytes, r: Result<RepairResult, RepairError>, attempt: Bytes)
    requires EngineOk(e) && HashesOk(h) && |d| == |original| < U64_LIMIT
    requires var (k, p) := GridFor(pct); AnyKDetermine(e.code, k, p)
    requires forall i :: 0 <= i < |WindowsOf(|original|, window)| ==> !TooLongForReader(WindowsOf(|original|, window)[i].len, pct)
    requires Survivable(h, Generated(e, h, pct, window, original), found)
    requires var healed := Healed(Generated(e, h, pct, window, original), found);
             forall i :: 0 <= i < |healed.segments| ==> WithinReach(e, healed.segments[i], d, original)
    requires Outcome(e, h, ReadSidecar(h, found), h.sha256(original), d, d1, r, attempt)
    ensures r.Ok? && h.sha256(d1) == h.sha256(original)
    ensures r.value.Fixed? ==> d1 == original
    ensures r.value.Verified? ==> d1 == d
  {
    hide GridFor, WindowsOf, TooLongForReader, ReadSidecar, LocatorFits, Survivable, WithinReach, AnyKDetermine,
      Healed, EngineOk, HashesOk, FirstRefusal, RecoveredTotal, Validate, Generated, Refusal, WindowRepaired, Part;
    var sc := Generated(e, h, pct, window, original);
    SurvivableLength(h, sc, found);
    var segs := Healed(sc, found).segments;
    HealedIsValid(e, h, pct, window, original, found);
    forall i: nat | i < |segs|
      ensures Refusal(segs[i]).None?
      ensures |attempt| == |d| && WindowRepaired(e, segs[i], d, attempt) ==>
                Part(attempt, WindowOf(segs[i])) == Part(original, WindowOf(segs[i]))
    {
      SegmentRestored(e, h, pct, window, original, found, d, attempt, i);
    }
    NoRefusal(segs);
    if h.sha256(d) != h.sha256(original) {
      assert StreamRepaired(e, segs, d, attempt);
      forall i | 0 <= i < |WindowsIn(segs)|
        ensures Part(attempt, WindowsIn(segs)[i]) == Part(original, WindowsIn(segs)[i])
      {
        assert WindowRepaired(e, segs[i], d, attempt);
      }
      WindowsTile(|original|, window);
      TilesDetermine(WindowsIn(segs), 0, attempt, original);
      assert attempt[0..] == attempt && original[0..] == original;
    }
  }

  lemma SegmentRestored(e: Engine, h: Hashes, pct: nat, window: nat, original: Bytes, found: Bytes, d: Bytes, attempt: Bytes, i: nat)
    requires EngineOk(e) && |d| == |original| < U64_LIMIT
    requires var (k, p) := GridFor(pct); AnyKDetermine(e.code, k, p)
    requires Survivable(h, Generated(e, h, pct, window, original), found)
    requires i < |Healed(Generated(e, h, pct, window, original), found).segments|
    requires WithinReach(e, Healed(Generated(e, h, pct, window, original), found).segments[i], d, original)
    ensures var seg := Healed(Generated(e, h, pct, window, original), found).segments[i];
            && Refusal(seg).None?
            && (|attempt| == |d| && WindowRepaired(e, seg, d, attempt) ==> Part(attempt, WindowOf(seg)) == Part(original, WindowOf(seg)))
  {
    hide GridFor, WindowsOf, Survivable, WithinReach, AnyKDetermine, EngineOk, Refusal, WindowRepaired, Part,
      ProtectWindow, Heal, Geom, Avecs, Sized;
    var sc := Generated(e, h, pct, window, original);
    SurvivableLength(h, sc, found);
    GeneratedSegment(e, h, pct, window, original, i);
    var w, seg := WindowsOf(|original|, window)[i], Healed(sc, found).segments[i];
    ProtectedPlace(e, pct, original, w);
    var start := LayoutOf(sc).parityStart + AvecStart(sc.segments, i);
    AvecAt(sc.segments, i);
    var rot := found[start..start + |sc.segments[i].avec|];
    assert seg == Segment(w.offset, w.len, Heal(Geom(sc.segments[i].avec), rot));
    WindowRestored(e, pct, original, w, rot, d, attempt);
  }
}
