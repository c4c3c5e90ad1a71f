/** Content-defined chunking with a gear rolling hash: the whole-buffer cutter, the
    streaming cutter that refines it, and the laws of the cut points. */
module Chunking {
  import opened Wrappers
  import opened ByteSeqs
  import opened Words

  const STREAM_READ_CHUNK: nat := 256 * 1024
  const CDC_MIN: nat := 256 * 1024
  const CDC_AVG: nat := 1024 * 1024
  const CDC_MAX: nat := 4 * 1024 * 1024
  const MAX_BOUND: nat := 256 * 1024 * 1024

  datatype CdcBounds = CdcBounds(min: nat, avg: nat, max: nat)

  predicate ValidBounds(b: CdcBounds) {
    && 4096 <= b.min <= b.avg <= b.max <= MAX_BOUND
    && IsPowerOfTwo(b.avg)
  }

  const DEFAULT_BOUNDS := CdcBounds(CDC_MIN, CDC_AVG, CDC_MAX)

  type GearTable = t: seq<bv64> | |t| == 256 witness seq(256, _ => 0)

  /** A cutter: the gear table (a fixed constant of the program, arbitrary here) and the bounds. */
  datatype Cutter = Cutter(table: GearTable, bounds: CdcBounds) {
    /** What the mask computation `avg as u64 - 1` needs. */
    predicate Usable() { 1 <= bounds.avg < U64_LIMIT }
  }

  function Roll(cutter: Cutter, rolling: bv64, b: byte): bv64 {
    WrappingAdd(RotatedByOne(rolling), cutter.table[b])
  }

  /** The rolling hash over the bytes of the chunk in progress. */
  function Rolling(cutter: Cutter, chunk: Bytes): bv64 {
    if chunk == [] then 0
    else Roll(cutter, Rolling(cutter, chunk[..|chunk| - 1]), chunk[|chunk| - 1])
  }

  predicate BreakTest(cutter: Cutter, len: nat, rolling: bv64)
    requires cutter.Usable()
  {
    len >= cutter.bounds.min && (MaskClears(rolling, Word(cutter.bounds.avg)) || len >= cutter.bounds.max)
  }

  /** A boundary is forced right after the bytes `chunk`. */
  predicate Breaks(cutter: Cutter, chunk: Bytes)
    requires cutter.Usable()
  {
    chunk != [] && BreakTest(cutter, |chunk|, Rolling(cutter, chunk))
  }

  // ---- reference definition -----------------------------------------------

  /** No boundary falls strictly inside the first `n` bytes of `s`. */
  predicate NoBreakBefore(cutter: Cutter, s: Bytes, n: nat)
    requires cutter.Usable() && n <= |s|
  {
    forall m :: 0 < m < n ==> !Breaks(cutter, s[..m])
  }

  /** The first `c` bytes of `s` are its first chunk: the shortest prefix that forces a
      boundary, or everything when none does. */
  predicate IsFirstChunk(cutter: Cutter, s: Bytes, c: nat)
    requires cutter.Usable()
  {
    0 < c <= |s| && NoBreakBefore(cutter, s, c) && (c == |s| || Breaks(cutter, s[..c]))
  }

  function FirstCutFrom(cutter: Cutter, s: Bytes, n: nat): (c: nat)
    requires cutter.Usable() && 0 < n <= |s| && NoBreakBefore(cutter, s, n)
    ensures IsFirstChunk(cutter, s, c)
    decreases |s| - n
  {
    if n == |s| || Breaks(cutter, s[..n]) then n else FirstCutFrom(cutter, s, n + 1)
  }

  function FirstCut(cutter: Cutter, s: Bytes): (c: nat)
    requires cutter.Usable() && s != []
    ensures IsFirstChunk(cutter, s, c)
  {
    FirstCutFrom(cutter, s, 1)
  }

  lemma FirstChunkUnique(cutter: Cutter, s: Bytes, c: nat)
    requires cutter.Usable() && IsFirstChunk(cutter, s, c)
    ensures c == FirstCut(cutter, s)
  {
  }

  /** The chunks of a whole stream, one after the other. */
  function Chunks(cutter: Cutter, s: Bytes): (cs: seq<Bytes>)
    requires cutter.Usable()
  {
    if s == [] then [] else
      var c := FirstCut(cutter, s);
      [s[..c]] + Chunks(cutter, s[c..])
  }

  /** The same chunks of `s[start..]` as half-open ranges of `s`. */
  function Ranges(cutter: Cutter, s: Bytes, start: nat): seq<(nat, nat)>
    requires cutter.Usable() && start <= |s|
    decreases |s| - start
  {
    if start == |s| then [] else
      var end := start + FirstCut(cutter, s[start..]);
      [(start, end)] + Ranges(cutter, s, end)
  }

  // ---- laws of the reference ----------------------------------------------

  /** Nothing is lost or reordered; no chunk exceeds `max`; only the last may be under `min`. */
  lemma {:induction false} ChunksCover(cutter: Cutter, s: Bytes)
    requires cutter.Usable()
    requires 1 <= cutter.bounds.max && cutter.bounds.min <= cutter.bounds.max
    ensures Flatten(Chunks(cutter, s)) == s
    ensures forall i :: 0 <= i < |Chunks(cutter, s)| ==> 0 < |Chunks(cutter, s)[i]| <= cutter.bounds.max
    ensures forall i :: 0 <= i < |Chunks(cutter, s)| - 1 ==> cutter.bounds.min <= |Chunks(cutter, s)[i]|
  {
    hide FirstCut, Breaks;
    if s != [] {
      var c := FirstCut(cutter, s);
      FirstCutLength(cutter, s);
      ChunksCover(cutter, s[c..]);
      assert Flatten(Chunks(cutter, s)) == s[..c] + Flatten(Chunks(cutter, s[c..]));
      assert c == |s| ==> s[c..] == [];
    }
  }

  lemma FirstCutLength(cutter: Cutter, s: Bytes)
    requires cutter.Usable() && s != []
    requires 1 <= cutter.bounds.max && cutter.bounds.min <= cutter.bounds.max
    ensures var c := FirstCut(cutter, s);
            0 < c <= |s| && c <= cutter.bounds.max && (c < |s| ==> cutter.bounds.min <= c)
  {
    hide Rolling, FirstCutFrom;
    var c := FirstCut(cutter, s);
    var prefix := s[..Min(cutter.bounds.max, c)];
    var breaksAtMax := Breaks(cutter, prefix);
  }

  /** `Chunks` and `Ranges` describe the same cuts: contiguous ranges to the end of the stream,
      each delimiting the chunk of the same index. */
  lemma {:induction false} RangesDelimitChunks(cutter: Cutter, s: Bytes, start: nat)
    requires cutter.Usable() && start <= |s|
    ensures Tiles(Ranges(cutter, s, start), start, |s|)
    ensures Delimit(Ranges(cutter, s, start), s, Chunks(cutter, s[start..]))
    decreases |s| - start
  {
    hide FirstCut;
    if start < |s| {
      var c := FirstCut(cutter, s[start..]);
      RangesDelimitChunks(cutter, s, start + c);
      assert s[start..][c..] == s[start + c..];
      assert s[start..][..c] == s[start..start + c];
    }
  }

  /** Range by range, `ranges` cuts `chunks` out of `s`. */
  predicate Delimit(ranges: seq<(nat, nat)>, s: Bytes, chunks: seq<Bytes>) {
    if ranges == [] then chunks == []
    else
      && chunks != [] && ranges[0].0 <= ranges[0].1 <= |s|
      && s[ranges[0].0..ranges[0].1] == chunks[0]
      && Delimit(ranges[1..], s, chunks[1..])
  }

  /** Non-empty half-open ranges that follow one another from `lo` to `hi`. */
  predicate Tiles(ranges: seq<(nat, nat)>, lo: nat, hi: nat) {
    if ranges == [] then lo == hi
    else ranges[0].0 == lo < ranges[0].1 && Tiles(ranges[1..], ranges[0].1, hi)
  }

  /** Position `n` is a boundary of the chunking of `s`. */
  predicate IsCut(cutter: Cutter, s: Bytes, n: nat)
    requires cutter.Usable()
  {
    n == 0 || (s != [] && FirstCut(cutter, s) <= n && IsCut(cutter, s[FirstCut(cutter, s)..], n - FirstCut(cutter, s)))
  }

  lemma FirstCutOfPrefix(cutter: Cutter, x: Bytes, y: Bytes)
    requires cutter.Usable() && x != []
    ensures FirstCut(cutter, x + y) <= |x| ==> FirstCut(cutter, x) == FirstCut(cutter, x + y)
    ensures y != [] && FirstCut(cutter, x) < |x| ==> FirstCut(cutter, x) == FirstCut(cutter, x + y)
  {
    assert forall m :: 0 < m <= |x| ==> (x + y)[..m] == x[..m];
    var c := FirstCut(cutter, x + y);
    if c <= |x| {
      assert x[..c] == (x + y)[..c];
      assert IsFirstChunk(cutter, x, c);
      FirstChunkUnique(cutter, x, c);
    }
    var d := FirstCut(cutter, x);
    if d < |x| {
      assert IsFirstChunk(cutter, x + y, d);
      FirstChunkUnique(cutter, x + y, d);
    }
  }

  /** Cutting is memoryless: `x + y` is cut as `x` and then `y` exactly when the seam is a cut. */
  lemma {:induction false} CutSplitsChunks(cutter: Cutter, x: Bytes, y: Bytes)
    requires cutter.Usable()
    ensures IsCut(cutter, x + y, |x|) <==> Chunks(cutter, x + y) == Chunks(cutter, x) + Chunks(cutter, y)
    decreases |x|
  {
    if x == [] {
      assert x + y == y;
    } else {
      var c := FirstCut(cutter, x + y);
      FirstCutOfPrefix(cutter, x, y);
      if c <= |x| {
        assert (x + y)[c..] == x[c..] + y;
        assert (x + y)[..c] == x[..c];
        CutSplitsChunks(cutter, x[c..], y);
        var whole, left, right := Chunks(cutter, x[c..] + y), Chunks(cutter, x[c..]), Chunks(cutter, y);
        assert [x[..c]] + left + right == [x[..c]] + (left + right);
        if Chunks(cutter, x + y) == Chunks(cutter, x) + right {
          assert whole == Chunks(cutter, x + y)[1..] == ([x[..c]] + (left + right))[1..] == left + right;
        }
      } else {
        assert Chunks(cutter, x + y)[0] == (x + y)[..c];
        assert |Chunks(cutter, x)[0]| <= |x|;
      }
    }
  }

  /** Resynchronisation: once two streams share a tail that starts at a cut of both, they cut
      that tail identically, and as it would be cut on its own. */
  lemma Resynchronise(cutter: Cutter, x: Bytes, y: Bytes, tail: Bytes)
    requires cutter.Usable()
    requires IsCut(cutter, x + tail, |x|) && IsCut(cutter, y + tail, |y|)
    ensures Chunks(cutter, x + tail) == Chunks(cutter, x) + Chunks(cutter, tail)
    ensures Chunks(cutter, y + tail) == Chunks(cutter, y) + Chunks(cutter, tail)
  {
    CutSplitsChunks(cutter, x, tail);
    CutSplitsChunks(cutter, y, tail);
  }

  // ---- where the cuts are -------------------------------------------------

  /** The hash of `s` on top of `h`, in arithmetic modulo 2^64: byte by byte, twice what it was, with the top bit
      brought round, plus the byte's entry. */
  function GearHash(table: GearTable, h: bv64, s: Bytes): bv64
    decreases |s|
  {
    if s == [] then h else GearHash(table, Turned(h, table[s[0]]), s[1..])
  }

  /** The hash of the first `n` bytes, as a number, is a multiple of the average size. */
  predicate Divides(table: GearTable, b: CdcBounds, s: Bytes, n: nat)
    requires b.avg > 0 && n <= |s|
  {
    Number(GearHash(table, 0, s[..n]), 64) % b.avg == 0
  }

  /** `c` is the first length from `min` on at which it is, or `max` if there is none before that, or all of
      `s` if that is shorter. */
  predicate CutsAt(table: GearTable, b: CdcBounds, s: Bytes, c: nat)
    requires b.avg > 0
  {
    && 0 < c <= |s| && c <= b.max
    && (forall n :: b.min <= n < c ==> !Divides(table, b, s, n))
    && (c == |s| || c == b.max || (b.min <= c && Divides(table, b, s, c)))
  }

  /** Every range ends there. */
  predicate AllCutAt(table: GearTable, b: CdcBounds, s: Bytes, ranges: seq<(nat, nat)>)
    requires b.avg > 0
  {
    forall i :: 0 <= i < |ranges| ==>
      ranges[i].0 <= ranges[i].1 <= |s| && CutsAt(table, b, s[ranges[i].0..], ranges[i].1 - ranges[i].0)
  }

  lemma {:induction false} GearHashSnoc(table: GearTable, h: bv64, s: Bytes, x: byte)
    ensures GearHash(table, h, s + [x]) == Turned(GearHash(table, h, s), table[x])
    decreases |s|
  {
    hide Turned;
    if s == [] {
      assert [x][1..] == [] && [] + [x] == [x];
    } else {
      assert (s + [x])[1..] == s[1..] + [x];
      GearHashSnoc(table, Turned(h, table[s[0]]), s[1..], x);
    }
  }

  lemma RollTurns(cutter: Cutter, h: bv64, x: byte)
    ensures Roll(cutter, h, x) == Turned(h, cutter.table[x])
  {
    hide WrappingAdd, RotatedByOne, Turned;
    AddTurns(h, cutter.table[x]);
  }

  /** The rolling hash is that hash. */
  lemma {:induction false} RollingIs(cutter: Cutter, chunk: Bytes)
    ensures Rolling(cutter, chunk) == GearHash(cutter.table, 0, chunk)
  {
    hide Roll, GearHash, Turned;
    GearHashNone(cutter.table);
    if chunk != [] {
      var front, last := chunk[..|chunk| - 1], chunk[|chunk| - 1];
      RollingIs(cutter, front);
      GearHashSnoc(cutter.table, 0, front, last);
      assert chunk == front + [last];
      RollTurns(cutter, Rolling(cutter, front), last);
    }
  }

  lemma GearHashNone(table: GearTable)
    ensures GearHash(table, 0, []) == 0
  {
  }

  /** A boundary is forced where the hash divides, and at `max`. */
  lemma BreaksWhere(cutter: Cutter, s: Bytes, n: nat)
    requires ValidBounds(cutter.bounds) && n <= |s|
    ensures Breaks(cutter, s[..n]) <==>
            cutter.bounds.min <= n && (n >= cutter.bounds.max || Divides(cutter.table, cutter.bounds, s, n))
  {
    hide Rolling, GearHash, Number, MaskClears, Word, IsPowerOfTwo, Under, Limit;
    RollingIs(cutter, s[..n]);
    TopIs();
    MaskDivides(Rolling(cutter, s[..n]), cutter.bounds.avg, TOP, 64);
  }

  lemma TopIs()
    ensures Pow2(TOP) == MAX_BOUND
  {
    assert Pow2(14) == 16384 && Pow2(TOP) == 16384 * Pow2(14);
  }

  /** The first chunk ends at the first such place. */
  lemma FirstCutWhere(cutter: Cutter, s: Bytes, c: nat)
    requires ValidBounds(cutter.bounds) && s != []
    ensures c == FirstCut(cutter, s) <==> CutsAt(cutter.table, cutter.bounds, s, c)
  {
    hide Divides, Breaks, IsPowerOfTwo, FirstCutFrom;
    forall n: nat | n <= |s|
      ensures Breaks(cutter, s[..n]) <==>
              cutter.bounds.min <= n && (n >= cutter.bounds.max || Divides(cutter.table, cutter.bounds, s, n))
    {
      BreaksWhere(cutter, s, n);
    }
    if CutsAt(cutter.table, cutter.bounds, s, c) {
      FirstChunkUnique(cutter, s, c);
    }
    FirstCutLength(cutter, s);
  }

  lemma {:induction false} RangesCutAt(cutter: Cutter, s: Bytes, start: nat)
    requires ValidBounds(cutter.bounds) && start <= |s|
    ensures AllCutAt(cutter.table, cutter.bounds, s, Ranges(cutter, s, start))
    decreases |s| - start
  {
    hide FirstCut, CutsAt, IsPowerOfTwo;
    if start < |s| {
      var c := FirstCut(cutter, s[start..]);
      FirstCutWhere(cutter, s[start..], c);
      RangesCutAt(cutter, s, start + c);
    }
  }

  /** With a table of zeros every chunk but the last is as short as the bounds allow. */
  lemma {:induction false} ZeroTableCuts(cutter: Cutter, s: Bytes)
    requires ValidBounds(cutter.bounds) && forall i :: 0 <= i < 256 ==> cutter.table[i] == 0
    ensures forall i :: 0 <= i < |Chunks(cutter, s)| - 1 ==> |Chunks(cutter, s)[i]| == cutter.bounds.min
    decreases |s|
  {
    hide FirstCut, Divides, IsPowerOfTwo;
    if s != [] {
      var c := FirstCut(cutter, s);
      FirstCutWhere(cutter, s, c);
      forall n | cutter.bounds.min <= n <= |s|
        ensures Divides(cutter.table, cutter.bounds, s, n)
      {
        ZeroDivides(cutter, s, n);
      }
      ZeroTableCuts(cutter, s[c..]);
      assert c == |s| ==> s[c..] == [];
      if c < |s| {
        FirstCutLength(cutter, s);
        assert Divides(cutter.table, cutter.bounds, s, cutter.bounds.min);
      }
    }
  }

  lemma ZeroDivides(cutter: Cutter, s: Bytes, n: nat)
    requires cutter.bounds.avg > 0 && n <= |s| && forall i :: 0 <= i < 256 ==> cutter.table[i] == 0
    ensures Divides(cutter.table, cutter.bounds, s, n)
  {
    hide GearHash;
    ZeroHash(cutter.table, s[..n]);
    NumberOfZero(64);
  }

  lemma {:induction false} ZeroHash(table: GearTable, s: Bytes)
    requires forall i :: 0 <= i < 256 ==> table[i] == 0
    ensures GearHash(table, 0, s) == 0
    decreases |s|
  {
    if s != [] {
      assert table[s[0]] == 0;
      ZeroHash(table, s[1..]);
    }
  }

  // ---- whole-buffer cutter ------------------------------------------------

  /** Scan state: the first `scanned` bytes of `buf` force no boundary and hash to `rolling`. */
  ghost predicate Scanned(cutter: Cutter, buf: Bytes, scanned: nat, rolling: bv64)
    requires cutter.Usable()
  {
    && scanned <= |buf|
    && rolling == Rolling(cutter, buf[..scanned])
    && forall m :: 0 < m <= scanned ==> !Breaks(cutter, buf[..m])
  }

  lemma ScanStart(cutter: Cutter, buf: Bytes)
    requires cutter.Usable()
    ensures Scanned(cutter, buf, 0, 0)
  {
  }

  lemma ScanByte(cutter: Cutter, buf: Bytes, scanned: nat, rolling: bv64)
    requires cutter.Usable() && Scanned(cutter, buf, scanned, rolling) && scanned < |buf|
    ensures var rolled := Roll(cutter, rolling, buf[scanned]);
            && (BreakTest(cutter, scanned + 1, rolled) ==>
                  FirstCut(cutter, buf) == scanned + 1 && Breaks(cutter, buf[..scanned + 1]))
            && (!BreakTest(cutter, scanned + 1, rolled) ==> Scanned(cutter, buf, scanned + 1, rolled))
  {
    var chunk := buf[..scanned + 1];
    assert chunk[..scanned] == buf[..scanned];
    var rolled := Roll(cutter, rolling, buf[scanned]);
    assert Rolling(cutter, chunk) == rolled;
    assert Breaks(cutter, chunk) <==> BreakTest(cutter, scanned + 1, rolled);
    if Breaks(cutter, chunk) {
      FirstChunkUnique(cutter, buf, scanned + 1);
    }
  }

  lemma ScannedAll(cutter: Cutter, buf: Bytes, rolling: bv64)
    requires cutter.Usable() && buf != [] && Scanned(cutter, buf, |buf|, rolling)
    ensures FirstCut(cutter, buf) == |buf|
  {
  }

  /** Bytes that arrive later do not disturb a scan, nor a boundary already found. */
  lemma ScanExtends(cutter: Cutter, buf: Bytes, more: Bytes, scanned: nat, rolling: bv64)
    requires cutter.Usable() && Scanned(cutter, buf, scanned, rolling)
    ensures Scanned(cutter, buf + more, scanned, rolling)
  {
    assert forall m :: 0 <= m <= scanned ==> (buf + more)[..m] == buf[..m];
  }

  lemma ScannedIsShort(cutter: Cutter, buf: Bytes, rolling: bv64)
    requires cutter.Usable() && Scanned(cutter, buf, |buf|, rolling)
    requires 1 <= cutter.bounds.max && cutter.bounds.min <= cutter.bounds.max
    ensures |buf| < cutter.bounds.max
  {
  }

  lemma ShortInputIsOneChunk(cutter: Cutter, data: Bytes)
    requires cutter.Usable() && data != [] && |data| <= cutter.bounds.min
    ensures Ranges(cutter, data, 0) == [(0, |data|)]
  {
  }

  /** No range is longer than `max`, and only the last is shorter than `min`. */
  predicate WithinBounds(ranges: seq<(nat, nat)>, b: CdcBounds) {
    forall i :: 0 <= i < |ranges| ==>
      ranges[i].1 <= ranges[i].0 + b.max && (i + 1 < |ranges| ==> ranges[i].0 + b.min <= ranges[i].1)
  }

  lemma {:induction false} RangesWithinBounds(cutter: Cutter, s: Bytes, start: nat)
    requires cutter.Usable() && start <= |s|
    requires 1 <= cutter.bounds.max && cutter.bounds.min <= cutter.bounds.max
    ensures WithinBounds(Ranges(cutter, s, start), cutter.bounds)
    decreases |s| - start
  {
    hide FirstCut;
    if start < |s| {
      var end := start + FirstCut(cutter, s[start..]);
      FirstCutLength(cutter, s[start..]);
      RangesWithinBounds(cutter, s, end);
    }
  }

  method ChunkRangesWith(cutter: Cutter, data: Bytes) returns (ranges: seq<(nat, nat)>)
    requires cutter.Usable()
    ensures ranges == Ranges(cutter, data, 0)
    ensures Tiles(ranges, 0, |data|) && Delimit(ranges, data, Chunks(cutter, data))
    ensures 1 <= cutter.bounds.max && cutter.bounds.min <= cutter.bounds.max ==> WithinBounds(ranges, cutter.bounds)
    ensures ValidBounds(cutter.bounds) ==> AllCutAt(cutter.table, cutter.bounds, data, ranges)
  {
    hide Rolling, FirstCut, IsFirstChunk, Roll, BreakTest, Breaks, Scanned, Tiles, Delimit, Chunks, WithinBounds, AllCutAt,
      IsPowerOfTwo;
    if ValidBounds(cutter.bounds) {
      RangesCutAt(cutter, data, 0);
    }
    RangesDelimitChunks(cutter, data, 0);
    assert data[0..] == data;
    if 1 <= cutter.bounds.max && cutter.bounds.min <= cutter.bounds.max {
      RangesWithinBounds(cutter, data, 0);
    }
    if data == [] {
      return [];
    }
    if |data| <= cutter.bounds.min {
      ShortInputIsOneChunk(cutter, data);
      return [(0, |data|)];
    }
    ranges := [];
    var start := 0;
    var rolling: bv64 := 0;
    ScanStart(cutter, data[0..]);
    for idx := 0 to |data|
      invariant start <= idx
      invariant Scanned(cutter, data[start..], idx - start, rolling)
      invariant Ranges(cutter, data, 0) == ranges + Ranges(cutter, data, start)
    {
      ScanByte(cutter, data[start..], idx - start, rolling);
      rolling := Roll(cutter, rolling, data[idx]);
      var len := idx + 1 - start;
      if BreakTest(cutter, len, rolling) {
        ranges := ranges + [(start, idx + 1)];
        start := idx + 1;
        rolling := 0;
        ScanStart(cutter, data[start..]);
      }
    }
    if start < |data| {
      ScannedAll(cutter, data[start..], rolling);
      assert Ranges(cutter, data, |data|) == [];
      ranges := ranges + [(start, |data|)];
    }
  }

  // ---- streaming cutter ---------------------------------------------------

  datatype IoError = IoError

  predicate FailsIn(content: Bytes, failsAt: Option<nat>) { failsAt.Some? && failsAt.value <= |content| }

  /** A source of bytes that may return any non-empty amount at a time. One that fails does so at the first read
      after its first `failsAt` bytes. */
  class ByteReader {
    const content: Bytes
    const failsAt: Option<nat>
    var pos: nat

    /** Reading to the end meets a failure. */
    predicate Fails() { FailsIn(content, failsAt) }

    ghost predicate Valid()
      reads this
    {
      pos <= |content|
    }

    constructor (content: Bytes, failsAt: Option<nat>)
      ensures Valid() && this.content == content && this.failsAt == failsAt && pos == 0
    {
      this.content := content;
      this.failsAt := failsAt;
      pos := 0;
    }

    function Rest(): Bytes
      requires Valid()
      reads this
    {
      content[pos..]
    }

    /** An empty result means the stream is exhausted. How much arrives is up to the source. */
    method Read(cap: nat) returns (r: Result<Bytes, IoError>)
      requires Valid() && cap > 0
      modifies this
      ensures Valid()
      ensures r.Err? <==> failsAt.Some? && failsAt.value <= old(pos)
      ensures r.Err? ==> pos == old(pos)
      ensures r.Ok? ==> |r.value| <= cap && old(Rest()) == r.value + Rest()
      ensures r.Ok? ==> (r.value == [] <==> old(Rest()) == [])
      ensures r.Ok? ==> pos == old(pos) + |r.value|
    {
      if failsAt.Some? && failsAt.value <= pos {
        return Err(IoError);
      }
      if pos == |content| {
        return Ok([]);
      }
      var n: nat :| 1 <= n <= cap && pos + n <= |content| && (failsAt.Some? ==> pos + n <= failsAt.value);
      r := Ok(content[pos..pos + n]);
      pos := pos + n;
    }
  }

  /** A turn of the stream: the first chunk of `before` is handed out and `after` is left, or
      nothing remained. */
  ghost predicate Emits(cutter: Cutter, before: Bytes, chunk: Option<Bytes>, after: Bytes)
    requires cutter.Usable()
  {
    match chunk
    case None => before == [] && after == []
    case Some(c) => before != [] && c == before[..FirstCut(cutter, before)] && after == before[|c|..]
  }

  class StreamingChunker {
    const reader: ByteReader
    const cutter: Cutter
    var buf: Bytes
    var scanned: nat
    var rolling: bv64
    var eof: bool

    /** Consistent at any turn of the scan. */
    ghost predicate Scanning()
      reads this, reader
    {
      && cutter.Usable() && reader.Valid()
      && scanned <= |buf|
      && Scanned(cutter, buf, scanned, rolling)
      && (eof ==> reader.Rest() == [] && !reader.Fails())
    }

    /** Consistent between two calls. */
    ghost predicate Valid()
      reads this, reader
    {
      Scanning() && scanned == 0
    }

    /** Memory bound: one chunk in progress plus one refill. */
    ghost predicate Bounded()
      reads this
    {
      1 <= cutter.bounds.max && cutter.bounds.min <= cutter.bounds.max ==>
        |buf| <= cutter.bounds.max + STREAM_READ_CHUNK
    }

    /** The bytes not yet handed out. */
    function Remaining(): Bytes
      requires reader.Valid()
      reads this, reader
    {
      buf + reader.Rest()
    }

    constructor (reader: ByteReader, cutter: Cutter)
      requires reader.Valid() && cutter.Usable()
      ensures Valid() && Bounded() && this.reader == reader && this.cutter == cutter
      ensures Remaining() == reader.Rest()
    {
      this.reader := reader;
      this.cutter := cutter;
      buf := [];
      scanned := 0;
      rolling := 0;
      eof := false;
    }

    /** Appends whatever one read returns. After a failed read the buffer keeps the zero padding
        the source was meant to overwrite, so the chunker must then be dropped. */
    method Fill() returns (r: Result<(), IoError>)
      requires Scanning() && scanned == |buf| && !eof
      modifies this, reader
      ensures r.Ok? ==> Scanning() && Remaining() == old(Remaining())
      ensures r.Ok? ==> |buf| <= old(|buf|) + STREAM_READ_CHUNK
      ensures r.Ok? ==> eof || |reader.Rest()| < old(|reader.Rest()|)
      ensures r.Err? ==> reader.Fails()
      ensures r.Err? ==> buf == old(buf) + Zeros(STREAM_READ_CHUNK)
    {
      var n := |buf|;
      buf := buf + Zeros(STREAM_READ_CHUNK);
      var got := reader.Read(STREAM_READ_CHUNK);
      match got
      case Err(e) => return Err(e);
      case Ok(bytes) =>
        buf := buf[..n] + bytes;
        assert buf == old(buf) + bytes;
        ScanExtends(cutter, old(buf), bytes, scanned, rolling);
        if bytes == [] {
          eof := true;
        }
        return Ok(());
    }

    /** The next chunk is the first chunk of the bytes that remain, whatever the reads returned. */
    method NextChunk() returns (r: Result<Option<Bytes>, IoError>)
      requires Valid() && Bounded()
      modifies this, reader
      ensures r.Ok? ==> Valid() && Bounded()
      ensures r.Ok? ==> Emits(cutter, old(Remaining()), r.value, Remaining())
      ensures r.Err? ==> reader.Fails()
      ensures r == Ok(None) ==> !reader.Fails()
    {
      hide Rolling, FirstCut, IsFirstChunk, Roll, BreakTest, Breaks, Scanned, Emits;
      while true
        invariant Scanning() && Bounded() && Remaining() == old(Remaining())
        decreases |reader.Rest()|, !eof
      {
        ghost var fillable := buf;
        while scanned < |buf|
          invariant Scanning() && buf == fillable
          modifies this`scanned, this`rolling, this`buf
          decreases |buf| - scanned
        {
          ScanByte(cutter, buf, scanned, rolling);
          var b := buf[scanned];
          rolling := Roll(cutter, rolling, b);
          scanned := scanned + 1;
          var len := scanned;
          if BreakTest(cutter, len, rolling) {
            var chunk := buf[..len];
            BoundaryIsFinal(cutter, buf, reader.Rest(), len);
            buf := buf[len..];
            rolling := 0;
            scanned := 0;
            ScanStart(cutter, buf);
            return Ok(Some(chunk));
          }
        }
        if eof {
          TailIsEmitted(cutter, buf, reader.Rest(), rolling);
          if buf == [] {
            return Ok(None);
          }
          var chunk := buf;
          buf := [];
          rolling := 0;
          scanned := 0;
          ScanStart(cutter, buf);
          return Ok(Some(chunk));
        }
        if 1 <= cutter.bounds.max && cutter.bounds.min <= cutter.bounds.max {
          ScannedIsShort(cutter, buf, rolling);
        }
        var filled := Fill();
        if filled.Err? {
          return Err(filled.error);
        }
      }
    }
  }

  /** A boundary found in the buffer is final: later bytes cannot move it. */
  lemma BoundaryIsFinal(cutter: Cutter, buf: Bytes, more: Bytes, len: nat)
    requires cutter.Usable() && buf != [] && FirstCut(cutter, buf) == len && Breaks(cutter, buf[..len])
    ensures len <= |buf| && Emits(cutter, buf + more, Some(buf[..len]), buf[len..] + more)
  {
    hide Rolling, FirstCut;
    var all := buf + more;
    assert forall m :: 0 < m <= len ==> all[..m] == buf[..m];
    FirstChunkUnique(cutter, all, len);
    assert all[len..] == buf[len..] + more;
  }

  lemma TailIsEmitted(cutter: Cutter, buf: Bytes, rest: Bytes, rolling: bv64)
    requires cutter.Usable() && Scanned(cutter, buf, |buf|, rolling) && rest == []
    ensures Emits(cutter, buf + rest, if buf == [] then None else Some(buf), [] + rest)
  {
    hide Rolling, FirstCut;
    assert buf + rest == buf;
    if buf != [] {
      ScannedAll(cutter, buf, rolling);
    }
  }

  /** The streaming cutter yields exactly the whole-buffer chunks of its stream, for every way
      the source splits its reads. */
  method ChunkStream(reader: ByteReader, cutter: Cutter) returns (r: Result<seq<Bytes>, IoError>)
    requires reader.Valid() && cutter.Usable()
    modifies reader
    ensures r.Ok? ==> r.value == Chunks(cutter, old(reader.Rest()))
    ensures r.Ok? <==> !reader.Fails()
  {
    hide Rolling, Roll, BreakTest, Breaks;
    var chunker := new StreamingChunker(reader, cutter);
    var chunks := [];
    ghost var all := reader.Rest();
    while true
      invariant chunker.Valid() && chunker.Bounded() && chunker.reader == reader && chunker.cutter == cutter
      invariant fresh(chunker)
      invariant chunks + Chunks(cutter, chunker.Remaining()) == Chunks(cutter, all)
      decreases |chunker.Remaining()|
    {
      var next := chunker.NextChunk();
      if next.Err? {
        return Err(next.error);
      }
      if next.value.None? {
        return Ok(chunks);
      }
      chunks := chunks + [next.value.value];
    }
  }
}
