/** Tiling a stream into windows, and the size of the sidecar that protects them. */
module Windows {
  import opened ByteSeqs
  import opened ErrorCorrection
  import opened AvecLengths
  import opened Sidecars

  datatype Window = Window(offset: nat, len: nat)

  // ---- tiling -------------------------------------------------------------

  /** Windows in order, with no gap, from `at` up to `total`. */
  predicate TilesFrom(ws: seq<Window>, at: nat, total: nat) {
    if ws == [] then at == total
    else ws[0].offset == at && TilesFrom(ws[1..], at + ws[0].len, total)
  }

  function WindowsFrom(at: nat, total: nat, w: nat): seq<Window>
    requires w > 0
    decreases total - at
  {
    if at >= total then [] else [Window(at, Min(w, total - at))] + WindowsFrom(at + Min(w, total - at), total, w)
  }

  /** At most `window` bytes each; one empty window for an empty stream. */
  function WindowsOf(total: nat, window: nat): seq<Window> {
    if total == 0 then [Window(0, 0)] else WindowsFrom(0, total, Max(window, 1))
  }

  method ComputeWindows(total: nat, window: nat) returns (ws: seq<Window>)
    ensures ws == WindowsOf(total, window)
  {
    if total == 0 {
      return [Window(0, 0)];
    }
    var w := Max(window, 1);
    ws := [];
    var off: nat := 0;
    while off < total
      invariant off <= total && ws + WindowsFrom(off, total, w) == WindowsFrom(0, total, w)
    {
      var len := Min(w, total - off);
      ws := ws + [Window(off, len)];
      off := off + len;
    }
  }

  /** Whether windows tile a stream of `total` bytes. */
  method ValidateTiling(ws: seq<Window>, total: nat) returns (ok: bool)
    ensures ok == TilesFrom(ws, 0, total)
  {
    var expected: nat := 0;
    assert ws[0..] == ws;
    for i := 0 to |ws|
      invariant TilesFrom(ws, 0, total) == TilesFrom(ws[i..], expected, total)
    {
      assert ws[i..][1..] == ws[i + 1..];
      if ws[i].offset != expected {
        return false;
      }
      expected := expected + ws[i].len;
    }
    ok := expected == total;
  }

  lemma {:induction false} FromTiles(at: nat, total: nat, w: nat)
    requires w > 0 && at <= total
    ensures TilesFrom(WindowsFrom(at, total, w), at, total)
    ensures forall i :: 0 <= i < |WindowsFrom(at, total, w)| ==> 0 < WindowsFrom(at, total, w)[i].len <= w
    decreases total - at
  {
    if at < total {
      FromTiles(at + Min(w, total - at), total, w);
    }
  }

  /** Every window of a tiling lies inside the stream. */
  lemma {:induction false} TileInside(ws: seq<Window>, at: nat, total: nat, i: nat)
    requires TilesFrom(ws, at, total) && i < |ws|
    ensures at <= ws[i].offset && ws[i].offset + ws[i].len <= total
    decreases i
  {
    TileEnds(ws[1..], at + ws[0].len, total);
    if i > 0 {
      TileInside(ws[1..], at + ws[0].len, total, i - 1);
    }
  }

  lemma {:induction false} TileEnds(ws: seq<Window>, at: nat, total: nat)
    requires TilesFrom(ws, at, total)
    ensures at <= total
  {
    if ws != [] {
      TileEnds(ws[1..], at + ws[0].len, total);
    }
  }

  /** Two streams that agree on every window agree. */
  lemma {:induction false} TilesDetermine(ws: seq<Window>, at: nat, a: Bytes, b: Bytes)
    requires |a| == |b| && TilesFrom(ws, at, |a|)
    requires forall i :: 0 <= i < |ws| ==> Part(a, ws[i]) == Part(b, ws[i])
    ensures at <= |a| && a[at..] == b[at..]
    decreases |ws|
  {
    TileEnds(ws, at, |a|);
    if ws != [] {
      var next := at + ws[0].len;
      TileEnds(ws[1..], next, |a|);
      assert forall i :: 0 <= i < |ws[1..]| ==> ws[1..][i] == ws[i + 1];
      TilesDetermine(ws[1..], next, a, b);
      assert Part(a, ws[0]) == Part(b, ws[0]);
      assert a[at..] == a[at..next] + a[next..] && b[at..] == b[at..next] + b[next..];
    }
  }

  function Part(d: Bytes, w: Window): Bytes {
    if w.offset + w.len <= |d| then d[w.offset..w.offset + w.len] else []
  }

  // ---- the sidecar of a stream --------------------------------------------

  function WindowOf(seg: Segment): Window { Window(seg.offset, seg.len) }

  function WindowsIn(segs: seq<Segment>): seq<Window> {
    seq(|segs|, i requires 0 <= i < |segs| => WindowOf(segs[i]))
  }

  function ProtectWindow(e: Engine, pct: nat, d: Bytes, w: Window): Segment {
    var (k, p) := GridFor(pct);
    Segment(w.offset, w.len, Protect(e, k, p, Part(d, w)))
  }

  function ProtectWindows(e: Engine, pct: nat, d: Bytes, ws: seq<Window>): seq<Segment> {
    seq(|ws|, i requires 0 <= i < |ws| => ProtectWindow(e, pct, d, ws[i]))
  }

  /** The sidecar for `d`: one segment a window, bound to the hash of `d`. */
  function Generated(e: Engine, h: Hashes, pct: nat, window: nat, d: Bytes): Sidecar {
    Sidecar(h.binding(h.sha256(d)), h.sha256(d), |d|, ProtectWindows(e, pct, d, WindowsOf(|d|, window)))
  }

  method BuildWindowed(e: Engine, h: Hashes, pct: nat, window: nat, d: Bytes) returns (sc: Sidecar)
    requires EngineOk(e)
    ensures sc == Generated(e, h, pct, window, d)
  {
    hide Protect, WindowsFrom, GridFor, TilesFrom;
    GridBounds(pct);
    var (k, p) := GridFor(pct);
    var ws := ComputeWindows(|d|, window);
    WindowsTile(|d|, window);
    var segments := [];
    for i := 0 to |ws|
      invariant segments == ProtectWindows(e, pct, d, ws)[..i]
    {
      TileInside(ws, 0, |d|, i);
      var part := d[ws[i].offset..ws[i].offset + ws[i].len];
      var avec, shards, protected := ComputeShards(e, [part], k, p);
      assert Flatten([part]) == part by { FlattenSnoc([], part); assert [] + [part] == [part]; }
      segments := segments + [Segment(ws[i].offset, ws[i].len, avec)];
    }
    assert segments == ProtectWindows(e, pct, d, ws);
    var digest := h.sha256(d);
    sc := Sidecar(h.binding(digest), digest, |d|, segments);
  }

  lemma WindowsTile(total: nat, window: nat)
    ensures TilesFrom(WindowsOf(total, window), 0, total)
  {
    if total > 0 {
      FromTiles(0, total, Max(window, 1));
    } else {
      assert [Window(0, 0)][1..] == [];
    }
  }

  // ---- its size -----------------------------------------------------------

  const SIDECAR_FIXED_LEN: nat := PREFIX_LEN + COPIES * (DIR_FIXED_LEN + DIGEST_LEN)
  const SEGMENT_FRAMING_LEN: nat := COPIES * RECORD_LEN

  function SaturatingAdd(a: nat, b: nat): nat { Min(a + b, U64_LIMIT - 1) }

  function SaturatingMul(a: nat, b: nat): nat { Min(Times(a, b), U64_LIMIT - 1) }

  /** Full windows in a stream, what is left over, and the bytes full windows take. */
  function Quot(n: nat, w: nat): nat
    requires w > 0
  {
    n / w
  }

  function Rest(n: nat, w: nat): nat
    requires w > 0
  {
    n % w
  }

  function Times(n: nat, x: nat): nat { n * x }

  /** The estimate in closed form, by 64-bit saturating arithmetic. */
  function Estimate(total: nat, pct: nat, window: nat): nat {
    var empty := SaturatingAdd(SEGMENT_FRAMING_LEN, AvecLen(0, pct));
    if total == 0 then SaturatingAdd(SIDECAR_FIXED_LEN, empty)
    else
      var w := Max(window, 1);
      var full := SaturatingMul(Quot(total, w), SaturatingAdd(SEGMENT_FRAMING_LEN, AvecLen(w, pct)));
      var withFull := if Quot(total, w) > 0 then SaturatingAdd(SIDECAR_FIXED_LEN, full) else SIDECAR_FIXED_LEN;
      if Rest(total, w) > 0
      then SaturatingAdd(withFull, SaturatingAdd(SEGMENT_FRAMING_LEN, AvecLen(Rest(total, w), pct)))
      else withFull
  }

  /** Framing and parity of a list of windows. */
  function SegmentsLen(ws: seq<Window>, pct: nat): nat {
    if ws == [] then 0 else SEGMENT_FRAMING_LEN + AvecLen(ws[0].len, pct) + SegmentsLen(ws[1..], pct)
  }

  function ExactLen(total: nat, pct: nat, window: nat): nat {
    SIDECAR_FIXED_LEN + SegmentsLen(WindowsOf(total, window), pct)
  }

  lemma {:induction false} FullAndTail(at: nat, total: nat, w: nat, pct: nat)
    requires w > 0 && at <= total
    ensures SegmentsLen(WindowsFrom(at, total, w), pct) ==
            Times(Quot(total - at, w), SEGMENT_FRAMING_LEN + AvecLen(w, pct))
            + if Rest(total - at, w) > 0 then SEGMENT_FRAMING_LEN + AvecLen(Rest(total - at, w), pct) else 0
    decreases total - at
  {
    hide AvecLen;
    var left := total - at;
    if at < total {
      var len := Min(w, left);
      FullAndTail(at + len, total, w, pct);
      assert WindowsFrom(at, total, w)[1..] == WindowsFrom(at + len, total, w);
      if left >= w {
        OneLess(left, w, SEGMENT_FRAMING_LEN + AvecLen(w, pct));
      } else {
        assert left / w == 0 && left % w == left;
        assert (total - (at + len)) / w == 0 && (total - (at + len)) % w == 0;
      }
    } else {
      assert left / w == 0 && left % w == 0;
    }
  }

  lemma OneLess(n: nat, w: nat, x: nat)
    requires 0 < w <= n
    ensures (n - w) / w == n / w - 1 && (n - w) % w == n % w
    ensures n / w * x == (n - w) / w * x + x
  {
    var q, r := n / w, n % w;
    assert n == q * w + r;
    assert n - w == (q - 1) * w + r;
    DivUnique(n - w, w, q - 1, r);
    assert q * x == (q - 1) * x + x;
  }

  /** The estimate is the exact length, or all ones when that does not fit in 64 bits. */
  lemma EstimateExact(total: nat, pct: nat, window: nat)
    requires total < U64_LIMIT && window < U64_LIMIT
    ensures Estimate(total, pct, window) == Min(ExactLen(total, pct, window), U64_LIMIT - 1)
  {
    hide AvecLen, WindowsFrom, SaturatingAdd, SaturatingMul, Quot, Rest, Times;
    if total == 0 {
      assert SegmentsLen(WindowsOf(0, window), pct) == SEGMENT_FRAMING_LEN + AvecLen(0, pct) by { OneWindow(0, pct); }
      Chain(0, 0, SEGMENT_FRAMING_LEN + AvecLen(0, pct));
      SaturatesOnce(SEGMENT_FRAMING_LEN, AvecLen(0, pct));
    } else {
      var w := Max(window, 1);
      FullAndTail(0, total, w, pct);
      SaturatesOnce(SEGMENT_FRAMING_LEN, AvecLen(w, pct));
      SaturatesOnce(SEGMENT_FRAMING_LEN, AvecLen(Rest(total, w), pct));
      Chain(Quot(total, w), SEGMENT_FRAMING_LEN + AvecLen(w, pct), SEGMENT_FRAMING_LEN + AvecLen(Rest(total, w), pct));
    }
  }

  lemma OneWindow(len: nat, pct: nat)
    ensures SegmentsLen([Window(0, len)], pct) == SEGMENT_FRAMING_LEN + AvecLen(len, pct)
  {
  }

  lemma SaturatesOnce(a: nat, b: nat)
    ensures SaturatingAdd(a, b) == Min(a + b, U64_LIMIT - 1)
  {
  }

  /** Saturating each step saturates the whole. */
  lemma Chain(n: nat, x: nat, y: nat)
    ensures var top := U64_LIMIT - 1;
            var full := SaturatingMul(n, Min(x, top));
            var withFull := if n > 0 then SaturatingAdd(SIDECAR_FIXED_LEN, full) else SIDECAR_FIXED_LEN;
            && withFull == Min(SIDECAR_FIXED_LEN + Times(n, x), top)
            && (n == 0 ==> Times(n, x) == 0)
            && SaturatingAdd(withFull, Min(y, top)) == Min(SIDECAR_FIXED_LEN + Times(n, x) + y, top)
  {
  }

  /** The length of a sidecar's bytes, and of the ones generated for a stream. */
  lemma WrittenLength(h: Hashes, sc: Sidecar)
    requires HashesOk(h) && |sc.binding| == |sc.contentHash| == DIGEST_LEN
    ensures |SidecarBytes(h, sc)| ==
            SIDECAR_FIXED_LEN + SEGMENT_FRAMING_LEN * |sc.segments| + |Avecs(sc.segments)|
  {
    hide Records, Avecs, Le;
  }

  lemma {:induction false} ProtectedLength(e: Engine, pct: nat, d: Bytes, ws: seq<Window>)
    requires EngineOk(e) && |d| < U64_LIMIT
    requires forall i :: 0 <= i < |ws| ==> ws[i].offset + ws[i].len <= |d|
    ensures SEGMENT_FRAMING_LEN * |ws| + |Avecs(ProtectWindows(e, pct, d, ws))| == SegmentsLen(ws, pct)
  {
    hide Protect, GridFor, AvecLen;
    if ws != [] {
      ProtectedLength(e, pct, d, ws[1..]);
      var segs := ProtectWindows(e, pct, d, ws);
      assert segs[1..] == ProtectWindows(e, pct, d, ws[1..]);
      WindowLength(e, pct, d, ws[0]);
    }
  }

  lemma WindowLength(e: Engine, pct: nat, d: Bytes, w: Window)
    requires EngineOk(e) && |d| < U64_LIMIT && w.offset + w.len <= |d|
    ensures |ProtectWindow(e, pct, d, w).avec| == AvecLen(w.len, pct) < U64_LIMIT
  {
    hide Protect, LengthFor, GridFor;
    GridBounds(pct);
    AvecLenFits(w.len, pct);
    var (k, p) := GridFor(pct);
    ProtectLength(e, k, p, Part(d, w));
  }

  /** The closed-form estimate is the true length of the sidecar generated for any stream. */
  lemma EstimateIsTrueLength(e: Engine, h: Hashes, pct: nat, window: nat, d: Bytes)
    requires EngineOk(e) && HashesOk(h) && |d| < U64_LIMIT && window < U64_LIMIT
    ensures var len := |SidecarBytes(h, Generated(e, h, pct, window, d))|;
            && len == ExactLen(|d|, pct, window)
            && Estimate(|d|, pct, window) == Min(len, U64_LIMIT - 1)
  {
    hide WindowsOf, TilesFrom, Estimate, SidecarBytes, SegmentsLen, ProtectWindows;
    var ws := WindowsOf(|d|, window);
    WindowsTile(|d|, window);
    forall i | 0 <= i < |ws|
      ensures ws[i].offset + ws[i].len <= |d|
    {
      TileInside(ws, 0, |d|, i);
    }
    ProtectedLength(e, pct, d, ws);
    assert |ProtectWindows(e, pct, d, ws)| == |ws| by { ProtectedCount(e, pct, d, ws); }
    WrittenLength(h, Generated(e, h, pct, window, d));
    EstimateExact(|d|, pct, window);
  }

  lemma ProtectedCount(e: Engine, pct: nat, d: Bytes, ws: seq<Window>)
    ensures |ProtectWindows(e, pct, d, ws)| == |ws|
    ensures WindowsIn(ProtectWindows(e, pct, d, ws)) == ws
  {
  }
}
