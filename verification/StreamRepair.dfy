/** Repairing a whole stream with a sidecar: all of it or none of it. */
module StreamRepair {
  import opened Wrappers
  import opened ByteSeqs
  import opened EcPayloads
  import opened ErrorCorrection
  import opened Reconstruction
  import opened ParityRepair
  import opened Sidecars
  import opened SidecarReaders
  import opened Windows

  datatype RepairError =
    | BadSidecar(sidecarError: SidecarError)
    | Refused(ecError: EcError)
    | StillWrong

  datatype RepairResult = Verified | Fixed(shards: nat)

  // ---- what a repair does -------------------------------------------------

  /** A sidecar that parsed, belongs to the expected content, and tiles a stream of this length. */
  function Validate(h: Hashes, read: Result<Sidecar, SidecarError>, expected: Bytes, streamLen: nat): Result<Sidecar, SidecarError> {
    if read.Err? then read
    else if read.value.contentHash != expected || read.value.binding != h.binding(expected) then Err(BindingMismatch)
    else if read.value.total != streamLen then Err(TotalMismatch)
    else if !TilesFrom(WindowsIn(read.value.segments), 0, streamLen) then Err(TilingGap)
    else read
  }

  /** Why a window's payload cannot be used, if so. */
  function Refusal(seg: Segment): Option<EcError> {
    if seg.avec == [] then None
    else
      var pl := Accepted(seg.avec, seg.len);
      if pl.Err? then Some(pl.error) else None
  }

  function FirstRefusal(segs: seq<Segment>): Option<EcError> {
    if segs == [] then None
    else if Refusal(segs[0]).Some? then Refusal(segs[0]) else FirstRefusal(segs[1..])
  }

  function RecoveredIn(e: Engine, avec: Bytes, d: Bytes): nat {
    if avec == [] || Accepted(avec, |d|).Err? then 0
    else
      var pl := Accepted(avec, |d|).value;
      Recovered(e, pl, d, pl.geo.Groups())
  }

  function RecoveredTotal(e: Engine, segs: seq<Segment>, d: Bytes): nat {
    if segs == [] then 0
    else RecoveredIn(e, segs[0].avec, Part(d, WindowOf(segs[0]))) + RecoveredTotal(e, segs[1..], d)
  }

  /** `d1` holds, in this window, what repair makes of the window in `d`. */
  ghost predicate WindowRepaired(e: Engine, seg: Segment, d: Bytes, d1: Bytes) {
    var part := Part(d, WindowOf(seg));
    RepairOutcome(e, seg.avec, part, Part(d1, WindowOf(seg)), Ok(RecoveredIn(e, seg.avec, part)))
  }

  ghost predicate StreamRepaired(e: Engine, segs: seq<Segment>, d: Bytes, d1: Bytes) {
    |d1| == |d| && forall i :: 0 <= i < |segs| ==> WindowRepaired(e, segs[i], d, d1)
  }

  /** The result `r` of a repair of `d`, and the bytes `d1` it leaves. `attempt` is the repaired
      stream, adopted only when it has the expected hash. */
  ghost predicate Outcome(e: Engine, h: Hashes, read: Result<Sidecar, SidecarError>, expected: Bytes,
                          d: Bytes, d1: Bytes, r: Result<RepairResult, RepairError>, attempt: Bytes) {
    var valid := Validate(h, read, expected, |d|);
    if valid.Err? then r == Err(BadSidecar(valid.error)) && d1 == d
    else if h.sha256(d) == expected then r == Ok(Verified) && d1 == d
    else
      var segs := valid.value.segments;
      if FirstRefusal(segs).Some? then r == Err(Refused(FirstRefusal(segs).value)) && d1 == d
      else
        && StreamRepaired(e, segs, d, attempt)
        && (if h.sha256(attempt) == expected then r == Ok(Fixed(RecoveredTotal(e, segs, d))) && d1 == attempt
            else r == Err(StillWrong) && d1 == d)
  }

  // ---- the repair in memory -----------------------------------------------

  class ByteBuffer {
    var bytes: Bytes

    constructor (b: Bytes)
      ensures bytes == b
    {
      bytes := b;
    }
  }

  /** Repairs one window on a copy. */
  method RepairPart(e: Engine, part: Bytes, avec: Bytes) returns (r: Result<nat, EcError>, fixed: Bytes)
    requires EngineOk(e)
    ensures |fixed| == |part| && RepairOutcome(e, avec, part, fixed, r)
  {
    hide RepairOutcome, EngineOk;
    var blocks := new Bytes[1][part];
    OneBlock(blocks[..], part);
    r := Reconstruct(e, blocks, avec);
    fixed := blocks[0];
    OneBlock(blocks[..], fixed);
  }

  lemma OneBlock(blocks: seq<Bytes>, b: Bytes)
    requires |blocks| == 1 && blocks[0] == b
    ensures Flatten(blocks) == b
  {
  }

  lemma OutcomeOk(e: Engine, seg: Segment, d: Bytes, fixed: Bytes, r: Result<nat, EcError>)
    requires seg.offset + seg.len <= |d| && RepairOutcome(e, seg.avec, Part(d, WindowOf(seg)), fixed, r)
    ensures r == match Refusal(seg)
                 case Some(x) => Err(x)
                 case None => Ok(RecoveredIn(e, seg.avec, Part(d, WindowOf(seg))))
  {
  }

  /** Windows of a tiling do not overlap. */
  lemma {:induction false} TilesApart(ws: seq<Window>, at: nat, total: nat, i: nat, j: nat)
    requires TilesFrom(ws, at, total) && i < j < |ws|
    ensures ws[i].offset + ws[i].len <= ws[j].offset
    decreases i
  {
    if i == 0 {
      TileInside(ws[1..], at + ws[0].len, total, j - 1);
    } else {
      TilesApart(ws[1..], at + ws[0].len, total, i - 1, j - 1);
    }
  }

  function Splice(d: Bytes, w: Window, part: Bytes): Bytes
    requires w.offset + w.len <= |d|
  {
    d[..w.offset] + part + d[w.offset + w.len..]
  }

  lemma SpliceWindows(d: Bytes, w: Window, part: Bytes, v: Window)
    requires w.offset + w.len <= |d| && |part| == w.len && v.offset + v.len <= |d|
    ensures |Splice(d, w, part)| == |d| && Part(Splice(d, w, part), w) == part
    ensures v.offset + v.len <= w.offset || w.offset + w.len <= v.offset ==> Part(Splice(d, w, part), v) == Part(d, v)
  {
  }

  /** What the loop has done after `i` windows. */
  ghost predicate RepairedSoFar(e: Engine, segs: seq<Segment>, d: Bytes, work: Bytes, i: nat) {
    && |work| == |d|
    && (forall j :: 0 <= j < |segs| && j < i ==> WindowRepaired(e, segs[j], d, work))
    && (forall j :: i <= j < |segs| ==> Part(work, WindowOf(segs[j])) == Part(d, WindowOf(segs[j])))
  }

  lemma RepairNext(e: Engine, segs: seq<Segment>, d: Bytes, work: Bytes, i: nat, fixed: Bytes)
    requires TilesFrom(WindowsIn(segs), 0, |d|) && i < |segs| && RepairedSoFar(e, segs, d, work, i)
    requires segs[i].offset + segs[i].len <= |d| && |fixed| == segs[i].len && Refusal(segs[i]).None?
    requires RepairOutcome(e, segs[i].avec, Part(d, WindowOf(segs[i])), fixed, Ok(RecoveredIn(e, segs[i].avec, Part(d, WindowOf(segs[i])))))
    ensures RepairedSoFar(e, segs, d, Splice(work, WindowOf(segs[i]), fixed), i + 1)
  {
    hide RepairOutcome, Refusal, Part, Splice, TilesFrom, RecoveredIn;
    var ws := WindowsIn(segs);
    forall j: nat | j < |segs|
      ensures ws[j] == WindowOf(segs[j]) && segs[j].offset + segs[j].len <= |d|
      ensures j != i ==> Part(Splice(work, ws[i], fixed), ws[j]) == Part(work, ws[j])
    {
      TileInside(ws, 0, |d|, j);
      SpliceWindows(work, ws[i], fixed, ws[j]);
      if j < i {
        TilesApart(ws, 0, |d|, j, i);
      } else if i < j {
        TilesApart(ws, 0, |d|, i, j);
      }
    }
    SpliceWindows(work, ws[i], fixed, ws[i]);
  }

  /** Repairs every window on a clone, stopping at the first payload that cannot be used. */
  method RepairWindows(e: Engine, segs: seq<Segment>, d: Bytes) returns (r: Result<nat, EcError>, work: Bytes)
    requires EngineOk(e) && TilesFrom(WindowsIn(segs), 0, |d|)
    ensures match FirstRefusal(segs)
            case Some(x) => r == Err(x)
            case None => r == Ok(RecoveredTotal(e, segs, d)) && StreamRepaired(e, segs, d, work)
  {
    hide RepairOutcome, Refusal, EngineOk, Part, TilesFrom, WindowRepaired, RecoveredIn, Splice;
    work := d;
    var recovered: nat := 0;
    assert segs[0..] == segs;
    for i := 0 to |segs|
      invariant RepairedSoFar(e, segs, d, work, i)
      invariant FirstRefusal(segs) == FirstRefusal(segs[i..])
      invariant recovered + RecoveredTotal(e, segs[i..], d) == RecoveredTotal(e, segs, d)
    {
      assert segs[i..][1..] == segs[i + 1..];
      TileInside(WindowsIn(segs), 0, |d|, i);
      var w := WindowOf(segs[i]);
      PartIs(work, w);
      var one, fixed := RepairPart(e, work[w.offset..w.offset + w.len], segs[i].avec);
      OutcomeOk(e, segs[i], d, fixed, one);
      if one.Err? {
        return Err(one.error), d;
      }
      RepairNext(e, segs, d, work, i, fixed);
      work := Splice(work, w, fixed);
      recovered := recovered + one.value;
    }
    r := Ok(recovered);
  }

  lemma PartIs(d: Bytes, w: Window)
    requires w.offset + w.len <= |d|
    ensures Part(d, w) == d[w.offset..w.offset + w.len]
  {
  }

  /** Verifies the buffer and, if its hash is wrong, repairs it in place or leaves it alone. */
  method VerifyRepairBytes(e: Engine, h: Hashes, expected: Bytes, buf: ByteBuffer, sidecar: Bytes)
    returns (r: Result<RepairResult, RepairError>, ghost attempt: Bytes)
    requires EngineOk(e)
    modifies buf
    ensures Outcome(e, h, ReadSidecar(h, sidecar), expected, old(buf.bytes), buf.bytes, r, attempt)
    ensures r.Err? ==> buf.bytes == old(buf.bytes)
    ensures r.Ok? ==> h.sha256(buf.bytes) == expected
  {
    hide FirstRefusal, TilesFrom, StreamRepaired, RecoveredTotal, EngineOk;
    attempt := [];
    var read := ReadFromMemory(h, sidecar);
    var valid := CheckSidecar(h, read, expected, |buf.bytes|);
    if valid.Err? {
      r := Err(BadSidecar(valid.error));
      return;
    }
    if h.sha256(buf.bytes) == expected {
      r := Ok(Verified);
      return;
    }
    var repaired, work := RepairWindows(e, valid.value.segments, buf.bytes);
    if repaired.Err? {
      r := Err(Refused(repaired.error));
      return;
    }
    attempt := work;
    if h.sha256(work) != expected {
      r := Err(StillWrong);
      return;
    }
    buf.bytes := work;
    r := Ok(Fixed(repaired.value));
  }

  method CheckSidecar(h: Hashes, read: Result<Sidecar, SidecarError>, expected: Bytes, streamLen: nat)
    returns (valid: Result<Sidecar, SidecarError>)
    ensures valid == Validate(h, read, expected, streamLen)
  {
    hide TilesFrom;
    if read.Err? {
      return read;
    }
    var sc := read.value;
    if sc.contentHash != expected || sc.binding != h.binding(expected) {
      return Err(BindingMismatch);
    }
    if sc.total != streamLen {
      return Err(TotalMismatch);
    }
    var tiled := ValidateTiling(WindowsIn(sc.segments), streamLen);
    valid := if tiled then Ok(sc) else Err(TilingGap);
  }

  // ---- the streamed repair ------------------------------------------------

  /** What a streaming reader serves, as a sidecar. */
  function View(read: Result<Reader, SidecarError>, data: Bytes): Result<Sidecar, SidecarError> {
    if read.Err? then Err(read.error)
    else
      var loc := read.value.locator;
      Ok(Sidecar(loc.binding, loc.contentHash, loc.total,
                 seq(|loc.metas|, i requires 0 <= i < |loc.metas| => ServedSegment(read.value, data, i))))
  }

  function ServedSegment(reader: Reader, data: Bytes, i: nat): Segment
    requires i < |reader.locator.metas|
  {
    var avec := ReadAvec(reader, data, i);
    Segment(reader.locator.metas[i].offset, reader.locator.metas[i].len, if avec.Some? then avec.value else [])
  }

  /** As `VerifyRepairBytes`, reading parity from the sidecar and windows from the file one at a
      time, and replacing the file only when the whole output has the expected hash. */
  method VerifyRepairStreamed(e: Engine, h: Hashes, expected: Bytes, file: ByteBuffer, sidecar: Bytes)
    returns (r: Result<RepairResult, RepairError>, ghost attempt: Bytes)
    requires EngineOk(e)
    modifies file
    ensures Outcome(e, h, View(OpenSidecar(h, sidecar), sidecar), expected, old(file.bytes), file.bytes, r, attempt)
    ensures r.Err? ==> file.bytes == old(file.bytes)
    ensures r.Ok? ==> h.sha256(file.bytes) == expected
  {
    hide FirstRefusal, TilesFrom, StreamRepaired, RecoveredTotal, EngineOk, OpenSidecar, ServedSegment;
    attempt := [];
    var reader := OpenForStreaming(h, sidecar);
    ghost var view := View(reader, sidecar);
    var bad := CheckReader(h, reader, expected, |file.bytes|, sidecar);
    if bad.Some? {
      r := Err(BadSidecar(bad.value));
      return;
    }
    if h.sha256(file.bytes) == expected {
      r := Ok(Verified);
      return;
    }
    var repaired, out := StreamWindows(e, reader.value, file.bytes, sidecar);
    if repaired.Err? {
      r := Err(Refused(repaired.error));
      return;
    }
    attempt := out;
    if h.sha256(out) != expected {
      r := Err(StillWrong);
      return;
    }
    file.bytes := out;
    r := Ok(Fixed(repaired.value));
  }

  method CheckReader(h: Hashes, reader: Result<Reader, SidecarError>, expected: Bytes, streamLen: nat, ghost sidecar: Bytes)
    returns (bad: Option<SidecarError>)
    ensures var valid := Validate(h, View(reader, sidecar), expected, streamLen);
            bad == (if valid.Err? then Some(valid.error) else None)
  {
    hide TilesFrom, ReadAvec;
    if reader.Err? {
      return Some(reader.error);
    }
    var loc := reader.value.locator;
    if loc.contentHash != expected || loc.binding != h.binding(expected) {
      return Some(BindingMismatch);
    }
    if loc.total != streamLen {
      return Some(TotalMismatch);
    }
    var ws := seq(|loc.metas|, i requires 0 <= i < |loc.metas| => Window(loc.metas[i].offset, loc.metas[i].len));
    assert ws == WindowsIn(View(reader, sidecar).value.segments);
    var tiled := ValidateTiling(ws, streamLen);
    bad := if tiled then None else Some(TilingGap);
  }

  /** Reads each window in turn, repairs it, and appends it to the output. */
  method StreamWindows(e: Engine, reader: Reader, d: Bytes, sidecar: Bytes) returns (r: Result<nat, EcError>, out: Bytes)
    requires EngineOk(e) && TilesFrom(WindowsIn(View(Ok(reader), sidecar).value.segments), 0, |d|)
    ensures var segs := View(Ok(reader), sidecar).value.segments;
            match FirstRefusal(segs)
            case Some(x) => r == Err(x)
            case None => r == Ok(RecoveredTotal(e, segs, d)) && StreamRepaired(e, segs, d, out)
  {
    hide RepairOutcome, Refusal, EngineOk, Part, TilesFrom, RecoveredIn, ReadAvec;
    ghost var segs := View(Ok(reader), sidecar).value.segments;
    out := [];
    var recovered: nat := 0;
    assert segs[0..] == segs;
    for i := 0 to |reader.locator.metas|
      invariant |out| <= |d| && TilesFrom(WindowsIn(segs[i..]), |out|, |d|)
      invariant forall j :: 0 <= j < i ==> segs[j].offset + segs[j].len <= |out| && WindowRepaired(e, segs[j], d, out)
      invariant FirstRefusal(segs) == FirstRefusal(segs[i..])
      invariant recovered + RecoveredTotal(e, segs[i..], d) == RecoveredTotal(e, segs, d)
    {
      assert segs[i..][1..] == segs[i + 1..];
      var avec := ReadAvec(reader, sidecar, i);
      var payload := if avec.Some? then avec.value else [];
      var len := reader.locator.metas[i].len;
      assert segs[i] == Segment(reader.locator.metas[i].offset, len, payload);
      TileStep(segs, i, |out|, |d|);
      PartIs(d, WindowOf(segs[i]));
      var one, fixed := RepairPart(e, d[|out|..|out| + len], payload);
      OutcomeOk(e, segs[i], d, fixed, one);
      if one.Err? {
        return Err(one.error), d;
      }
      AppendKeeps(segs, i, out, fixed);
      out := out + fixed;
      recovered := recovered + one.value;
    }
    assert TilesFrom([], |out|, |d|) by { assert WindowsIn(segs[|segs|..]) == []; }
    EndOfTiling(|out|, |d|);
    r := Ok(recovered);
  }

  lemma EndOfTiling(at: nat, total: nat)
    requires TilesFrom([], at, total)
    ensures at == total
  {
  }

  lemma TileStep(segs: seq<Segment>, i: nat, at: nat, total: nat)
    requires i < |segs| && TilesFrom(WindowsIn(segs[i..]), at, total)
    ensures segs[i].offset == at && at + segs[i].len <= total
    ensures TilesFrom(WindowsIn(segs[i + 1..]), at + segs[i].len, total)
  {
    var ws := WindowsIn(segs[i..]);
    assert ws[0] == WindowOf(segs[i]) && ws[1..] == WindowsIn(segs[i + 1..]);
    TileEnds(ws[1..], at + segs[i].len, total);
  }

  lemma AppendKeeps(segs: seq<Segment>, i: nat, out: Bytes, fixed: Bytes)
    requires i < |segs| && segs[i].offset == |out| && segs[i].len == |fixed|
    requires forall j :: 0 <= j < i ==> segs[j].offset + segs[j].len <= |out|
    ensures Part(out + fixed, WindowOf(segs[i])) == fixed
    ensures forall j :: 0 <= j < i ==> Part(out + fixed, WindowOf(segs[j])) == Part(out, WindowOf(segs[j]))
  {
  }
}
