/** Small-file packing: which files share a pack, and how a member's bytes are found again in
    the chunks of its pack. */
module Packing {
  import opened Wrappers
  import opened ByteSeqs
  import opened Ordering
  import opened Chunking

  const PACK_SMALL_FILE_THRESHOLD: nat := CDC_MIN
  const PACK_TARGET: nat := CDC_MAX

  predicate IsSmall(len: nat) { len < PACK_SMALL_FILE_THRESHOLD }

  /** A file to pack: its path, the bytes a read of it yields, and whether reading it fails. */
  datatype SmallFile = SmallFile(path: string, bytes: Bytes, fails: bool := false)

  /** A member of a pack: where its bytes start in the pack, and how many there are. */
  datatype Member = Member(path: string, start: nat, len: nat)

  datatype Pack = Pack(data: Bytes, members: seq<Member>)

  const ByPath: SmallFile -> string := (f: SmallFile) => f.path

  // ---- assembling packs ---------------------------------------------------

  function Contents(files: seq<SmallFile>): seq<Bytes> {
    seq(|files|, i requires 0 <= i < |files| => files[i].bytes)
  }

  /** The pack that holds exactly `files`, back to back. */
  function PackOf(files: seq<SmallFile>): Pack {
    Pack(Flatten(Contents(files)),
         seq(|files|, i requires 0 <= i < |files| =>
           Member(files[i].path, |Flatten(Contents(files[..i]))|, |files[i].bytes|)))
  }

  function Size(files: seq<SmallFile>): nat { |Flatten(Contents(files))| }

  /** The files of each pack: a pack is closed as soon as it reaches the target size. */
  function Batches(open: seq<SmallFile>, files: seq<SmallFile>): seq<seq<SmallFile>>
    decreases |files|
  {
    if files == [] then
      if open == [] then [] else [open]
    else
      var grown := open + [files[0]];
      if Size(grown) >= PACK_TARGET then [grown] + Batches([], files[1..])
      else Batches(grown, files[1..])
  }

  /** Not empty, and under the target before its last member joined. */
  predicate ClosedInTime(batch: seq<SmallFile>) {
    batch != [] && Size(batch[..|batch| - 1]) < PACK_TARGET
  }

  /** Every file lands in exactly one pack, in order; a pack closes when it reaches the target and
      not before, so only the last may be under it. */
  lemma {:induction false} BatchesPartition(open: seq<SmallFile>, files: seq<SmallFile>)
    requires Size(open) < PACK_TARGET
    ensures Flatten(Batches(open, files)) == open + files
    ensures forall b | b in Batches(open, files) :: ClosedInTime(b)
    ensures var bs := Batches(open, files);
            forall i | 0 <= i < |bs| - 1 :: Size(bs[i]) >= PACK_TARGET
    decreases |files|
  {
    hide Size;
    var bs := Batches(open, files);
    if files == [] {
      if open != [] {
        assert Flatten([open]) == open + Flatten([open][1..]);
        FrontIsSmaller(open);
      }
    } else {
      var grown := open + [files[0]];
      assert grown[..|grown| - 1] == open;
      assert open + files == grown + files[1..];
      if Size(grown) >= PACK_TARGET {
        SizeOfNone();
        BatchesPartition([], files[1..]);
        assert bs[1..] == Batches([], files[1..]);
        assert files[1..] == [] + files[1..];
      } else {
        BatchesPartition(grown, files[1..]);
      }
    }
  }

  lemma SizeOfNone()
    ensures Size([]) == 0
  {
  }

  lemma FrontIsSmaller(files: seq<SmallFile>)
    requires files != []
    ensures Size(files[..|files| - 1]) <= Size(files)
  {
    var front := files[..|files| - 1];
    assert files == front + [files[|files| - 1]];
    ContentsSnoc(front, files[|files| - 1]);
  }

  lemma ContentsSnoc(files: seq<SmallFile>, f: SmallFile)
    ensures Contents(files + [f]) == Contents(files) + [f.bytes]
    ensures Flatten(Contents(files + [f])) == Flatten(Contents(files)) + f.bytes
  {
    FlattenSnoc(Contents(files), f.bytes);
  }

  lemma PackOfSnoc(files: seq<SmallFile>, f: SmallFile)
    ensures PackOf(files + [f]) ==
            Pack(PackOf(files).data + f.bytes,
                 PackOf(files).members + [Member(f.path, |PackOf(files).data|, |f.bytes|)])
  {
    hide Flatten;
    ContentsSnoc(files, f);
    var grown := files + [f];
    forall i | 0 <= i < |files|
      ensures PackOf(grown).members[i] == PackOf(files).members[i]
    {
      assert grown[..i] == files[..i];
    }
    assert grown[..|files|] == files;
    assert PackOf(grown).members ==
           PackOf(files).members + [Member(f.path, |PackOf(files).data|, |f.bytes|)];
  }

  /** A member's span of the pack holds the member's bytes. */
  lemma MemberSpan(files: seq<SmallFile>, i: nat)
    requires i < |files|
    ensures var m := PackOf(files).members[i];
            && m.path == files[i].path
            && m.start + m.len <= |PackOf(files).data|
            && PackOf(files).data[m.start..m.start + m.len] == files[i].bytes
  {
    assert Contents(files[..i]) == Contents(files)[..i];
    FlattenPart(Contents(files), i);
  }

  method AssemblePacks(small: seq<SmallFile>) returns (packs: seq<Pack>)
    ensures var bs := Batches([], SortBy(ByPath, small));
            |packs| == |bs| && forall i :: 0 <= i < |bs| ==> packs[i] == PackOf(bs[i])
  {
    hide SortBy, Flatten;
    var sorted := SortBy(ByPath, small);
    packs := [];
    var data: Bytes := [];
    var members: seq<Member> := [];
    ghost var closed: seq<seq<SmallFile>> := [];
    ghost var open: seq<SmallFile> := [];
    SizeOfNone();
    assert PackOf([]).data == [] && PackOf([]).members == [];
    for i := 0 to |sorted|
      invariant Pack(data, members) == PackOf(open)
      invariant |packs| == |closed| && forall j :: 0 <= j < |closed| ==> packs[j] == PackOf(closed[j])
      invariant Batches([], sorted) == closed + Batches(open, sorted[i..])
    {
      var f := sorted[i];
      PackOfSnoc(open, f);
      assert sorted[i..][1..] == sorted[i + 1..];
      ghost var before := closed + Batches(open, sorted[i..]);
      var start := |data|;
      data := data + f.bytes;
      members := members + [Member(f.path, start, |f.bytes|)];
      open := open + [f];
      if |data| >= PACK_TARGET {
        packs := packs + [Pack(data, members)];
        closed := closed + [open];
        data, members, open := [], [], [];
      }
    }
    if members != [] {
      packs := packs + [Pack(data, members)];
    }
  }

  // ---- finding a member again ---------------------------------------------

  /** A chunk of a pack: what names it, and its half-open range of the pack. */
  datatype Placed<T> = Placed(name: T, start: nat, end: nat)

  predicate Overlaps<T>(c: Placed<T>, lo: nat, hi: nat) {
    c.start < hi && lo < c.end
  }

  /** The chunks that overlap `[lo, hi)`, in order. */
  function Covering<T>(chunks: seq<Placed<T>>, lo: nat, hi: nat): seq<Placed<T>> {
    if chunks == [] then []
    else (if Overlaps(chunks[0], lo, hi) then [chunks[0]] else []) + Covering(chunks[1..], lo, hi)
  }

  lemma CoveringSnoc<T>(chunks: seq<Placed<T>>, i: nat, lo: nat, hi: nat)
    requires i < |chunks|
    ensures Covering(chunks[..i + 1], lo, hi) ==
            Covering(chunks[..i], lo, hi) + (if Overlaps(chunks[i], lo, hi) then [chunks[i]] else [])
  {
    if i == 0 {
      assert chunks[..1][1..] == [] && chunks[..0] == [];
    } else {
      CoveringSnoc(chunks[1..], i - 1, lo, hi);
      assert chunks[..i + 1][1..] == chunks[1..][..i];
      assert chunks[..i][1..] == chunks[1..][..i - 1];
    }
  }

  /** Contiguous non-empty chunks from `from` to `to`, each holding its own range of `data`. */
  predicate Holds<T(!new)>(chunks: seq<Placed<T>>, content: T -> Bytes, data: Bytes, from: nat, to: nat) {
    if chunks == [] then from == to && data == []
    else
      var c := chunks[0];
      && c.start == from < c.end <= to
      && |data| == to - from
      && content(c.name) == data[..c.end - from]
      && Holds(chunks[1..], content, data[c.end - from..], c.end, to)
  }

  function Bodies<T>(chunks: seq<Placed<T>>, content: T -> Bytes): seq<Bytes> {
    seq(|chunks|, i requires 0 <= i < |chunks| => content(chunks[i].name))
  }

  /** From the first covering chunk on, the covering chunks reach at least `hi`. */
  lemma {:induction false} CoveringPrefix<T(!new)>(chunks: seq<Placed<T>>, content: T -> Bytes, data: Bytes, from: nat, to: nat,
                                             lo: nat, hi: nat)
    requires Holds(chunks, content, data, from, to) && lo <= from && hi <= to
    ensures var body := Flatten(Bodies(Covering(chunks, lo, hi), content));
            hi > from ==> hi - from <= |body| && body[..hi - from] == data[..hi - from]
  {
    if chunks != [] && hi > from {
      var c := chunks[0];
      var rest := Covering(chunks[1..], lo, hi);
      CoveringPrefix(chunks[1..], content, data[c.end - from..], c.end, to, lo, hi);
      assert Bodies(Covering(chunks, lo, hi), content)[1..] == Bodies(rest, content);
      var tail := Flatten(Bodies(rest, content));
      assert Flatten(Bodies(Covering(chunks, lo, hi), content)) == content(c.name) + tail;
      assert data == data[..c.end - from] + data[c.end - from..];
    }
  }

  /** The packing law: the covering chunks, joined and sliced at the member's offset inside the
      first of them, are the member's bytes. */
  lemma {:induction false} CoveringSlice<T(!new)>(chunks: seq<Placed<T>>, content: T -> Bytes, data: Bytes, from: nat, to: nat,
                                            lo: nat, hi: nat)
    requires Holds(chunks, content, data, from, to) && from <= lo < hi <= to
    ensures var cov := Covering(chunks, lo, hi);
            && cov != [] && cov[0].start <= lo
            && var body := Flatten(Bodies(cov, content));
               var off := lo - cov[0].start;
               off + (hi - lo) <= |body| && body[off..off + (hi - lo)] == data[lo - from..hi - from]
  {
    var c := chunks[0];
    if c.end <= lo {
      CoveringSlice(chunks[1..], content, data[c.end - from..], c.end, to, lo, hi);
      assert Covering(chunks, lo, hi) == Covering(chunks[1..], lo, hi);
      assert data[c.end - from..][lo - c.end..hi - c.end] == data[lo - from..hi - from];
    } else {
      CoveringWhole(chunks, content, data, from, to, lo, hi);
    }
  }

  lemma CoveringWhole<T(!new)>(chunks: seq<Placed<T>>, content: T -> Bytes, data: Bytes, from: nat, to: nat,
                         lo: nat, hi: nat)
    requires Holds(chunks, content, data, from, to) && chunks != [] && from <= lo < hi <= to && lo < chunks[0].end
    ensures var cov := Covering(chunks, lo, hi);
            && cov != [] && cov[0].start == from
            && var body := Flatten(Bodies(cov, content));
               hi - from <= |body| && body[..hi - from] == data[..hi - from]
  {
    var c := chunks[0];
    var rest := Covering(chunks[1..], lo, hi);
    CoveringPrefix(chunks[1..], content, data[c.end - from..], c.end, to, lo, hi);
    assert Bodies(Covering(chunks, lo, hi), content)[1..] == Bodies(rest, content);
    assert data == data[..c.end - from] + data[c.end - from..];
  }

  datatype CoverError = NotCovered

  function Names<T>(chunks: seq<Placed<T>>): seq<T> {
    seq(|chunks|, i requires 0 <= i < |chunks| => chunks[i].name)
  }

  /** Chunks that follow one another without gaps from `from`. */
  predicate InRow<T>(chunks: seq<Placed<T>>, from: nat) {
    chunks == [] || (chunks[0].start == from <= chunks[0].end && InRow(chunks[1..], chunks[0].end))
  }

  /** Exactly the overlapping chunks, and the offset of `fstart` in the first. */
  ghost predicate CoverOutcome<T>(chunks: seq<Placed<T>>, fstart: nat, flen: nat, r: Result<(seq<T>, nat), CoverError>) {
    if flen == 0 then r == Ok(([], 0))
    else
      var cov := Covering(chunks, fstart, fstart + flen);
      if cov == [] then r.Err? else cov[0].start <= fstart && r == Ok((Names(cov), fstart - cov[0].start))
  }

  /** Which chunks cover `[fstart, fstart + flen)`, and the offset of `fstart` inside the first. */
  method Cover<T>(chunks: seq<Placed<T>>, fstart: nat, flen: nat)
    returns (r: Result<(seq<T>, nat), CoverError>)
    requires InRow(chunks, 0)
    ensures CoverOutcome(chunks, fstart, flen, r)
  {
    if flen == 0 {
      return Ok(([], 0));
    }
    var fend := fstart + flen;
    var cov: seq<T> := [];
    var first: Option<nat> := None;
    ghost var from: nat := 0;
    assert chunks[..0] == [];
    for i := 0 to |chunks|
      invariant InRow(chunks[i..], from)
      invariant first.None? ==> from <= fstart || fend <= from
      invariant first.Some? ==> first.value <= fstart
      invariant var c := Covering(chunks[..i], fstart, fend);
                cov == Names(c) && first == (if c == [] then None else Some(c[0].start))
    {
      CoveringSnoc(chunks, i, fstart, fend);
      assert chunks[i..][1..] == chunks[i + 1..];
      var chunk := chunks[i];
      if chunk.start < fend && fstart < chunk.end {
        if first.None? {
          first := Some(chunk.start);
        }
        cov := cov + [chunk.name];
      }
      from := chunk.end;
    }
    assert chunks[..|chunks|] == chunks;
    if first.None? {
      return Err(NotCovered);
    }
    r := Ok((cov, fstart - first.value));
  }

  // ---- writing the slice back out -----------------------------------------

  /** What extraction has written once `stream` is decoded: its part inside `[off, end)`. */
  function WrittenSoFar(stream: Bytes, off: nat, end: nat): Bytes
    requires off <= end
  {
    stream[Min(off, |stream|)..Min(end, |stream|)]
  }

  /** Writing the clamped part of the next block keeps the output a slice of the stream. */
  lemma ClampedWrite(stream: Bytes, block: Bytes, off: nat, end: nat)
    requires off <= end
    ensures var pos := |stream|;
            var next := pos + |block|;
            var wStart, wEnd := Max(off, pos), Min(end, next);
            WrittenSoFar(stream + block, off, end) ==
            WrittenSoFar(stream, off, end) + (if wStart < wEnd then block[wStart - pos..wEnd - pos] else [])
  {
    SliceOfConcat(stream, block, Min(off, |stream| + |block|), Min(end, |stream| + |block|));
  }

  lemma SliceOfConcat(a: Bytes, b: Bytes, lo: nat, hi: nat)
    requires lo <= hi <= |a| + |b|
    ensures (a + b)[lo..hi] ==
            a[Min(lo, |a|)..Min(hi, |a|)] + b[Max(lo, |a|) - |a|..Max(hi, |a|) - |a|]
  {
  }
}
