/** A byte stream cut into a grid of equal shards, and shards cut into groups. */
module Shards {
  import opened ByteSeqs

  // ---- one shard ----------------------------------------------------------

  /** The bytes of the stream that shard `i` covers. The last shard may be short. */
  function Slice(d: Bytes, s: nat, i: nat): Bytes {
    d[Min(i * s, |d|)..Min(i * s + s, |d|)]
  }

  function Padded(x: Bytes, s: nat): Bytes {
    if |x| < s then x + Zeros(s - |x|) else x
  }

  /** Shard `i`: its slice, padded with zeros to the shard size. */
  function ShardAt(d: Bytes, s: nat, i: nat): Bytes {
    Padded(Slice(d, s, i), s)
  }

  lemma ShardLength(d: Bytes, s: nat, i: nat)
    ensures |ShardAt(d, s, i)| == s && |Slice(d, s, i)| <= s
    ensures ShardAt(d, s, i)[..|Slice(d, s, i)|] == Slice(d, s, i)
  {
  }

  lemma CeilBounds(n: nat, d: nat)
    requires d > 0
    ensures n <= CeilDiv(n, d) * d < n + d
    ensures forall i: nat :: i < CeilDiv(n, d) <==> i * d < n
  {
    var c := CeilDiv(n, d);
    var m := n + d - 1;
    assert m == c * d + m % d;
    forall i: nat
      ensures i < c <==> i * d < n
    {
      LessMul(i, c, d);
      if c <= i {
        MulMono(c, i, d);
      }
    }
  }

  /** Slots past the end of the stream are all zero. */
  lemma VirtualShardIsZero(d: Bytes, s: nat, i: nat)
    requires 0 < s && CeilDiv(|d|, s) <= i
    ensures Slice(d, s, i) == [] && ShardAt(d, s, i) == Zeros(s)
  {
    CeilBounds(|d|, s);
    assert i * s >= |d|;
    assert Slice(d, s, i) == [];
  }

  /** A stream is determined by its slices. */
  lemma SlicesDetermine(a: Bytes, b: Bytes, s: nat)
    requires 0 < s && |a| == |b|
    requires forall i: nat :: i < CeilDiv(|a|, s) ==> Slice(a, s, i) == Slice(b, s, i)
    ensures a == b
  {
    forall j | 0 <= j < |a|
      ensures a[j] == b[j]
    {
      var i, o := j / s, j % s;
      assert i * s + o == j;
      CeilBounds(|a|, s);
      assert i < CeilDiv(|a|, s);
      assert Slice(a, s, i) == Slice(b, s, i);
      assert a[j] == Slice(a, s, i)[o] && b[j] == Slice(b, s, i)[o];
    }
  }

  /** Equal slices of equally long streams are equal shards, and the other way round. */
  lemma SameShard(a: Bytes, b: Bytes, s: nat, i: nat)
    requires |a| == |b|
    ensures Slice(a, s, i) == Slice(b, s, i) <==> ShardAt(a, s, i) == ShardAt(b, s, i)
  {
    ShardLength(a, s, i);
    ShardLength(b, s, i);
    assert |Slice(a, s, i)| == |Slice(b, s, i)|;
  }

  // ---- writing a shard back ------------------------------------------------

  /** The stream with shard `i` overwritten, padding dropped. */
  function PutShard(d: Bytes, s: nat, i: nat, shard: Bytes): Bytes
    requires |shard| == s
  {
    var start, end := Min(i * s, |d|), Min(i * s + s, |d|);
    d[..start] + shard[..end - start] + d[end..]
  }

  lemma PutShardAt(d: Bytes, s: nat, i: nat, shard: Bytes)
    requires |shard| == s
    ensures |PutShard(d, s, i, shard)| == |d|
    ensures Slice(PutShard(d, s, i, shard), s, i) == shard[..|Slice(d, s, i)|]
    ensures forall j: nat :: j != i ==> Slice(PutShard(d, s, i, shard), s, j) == Slice(d, s, j)
  {
    var d1 := PutShard(d, s, i, shard);
    forall j: nat | j != i
      ensures Slice(d1, s, j) == Slice(d, s, j)
    {
      Apart(s, i, j);
      PutShardElsewhere(d, s, i, shard, j);
    }
  }

  lemma Apart(s: nat, i: nat, j: nat)
    requires i != j
    ensures i * s + s <= j * s || j * s + s <= i * s
  {
    LessMul(i, j, s);
    LessMul(j, i, s);
  }

  lemma PutShardElsewhere(d: Bytes, s: nat, i: nat, shard: Bytes, j: nat)
    requires |shard| == s && (i * s + s <= j * s || j * s + s <= i * s)
    ensures Slice(PutShard(d, s, i, shard), s, j) == Slice(d, s, j)
  {
    Clipped(d, s, shard, i * s, j * s);
  }

  lemma Clipped(d: Bytes, s: nat, shard: Bytes, x: nat, y: nat)
    requires |shard| == s && (x + s <= y || y + s <= x)
    ensures var start, end, a, b := Min(x, |d|), Min(x + s, |d|), Min(y, |d|), Min(y + s, |d|);
            var d1 := d[..start] + shard[..end - start] + d[end..];
            |d1| == |d| && d1[a..b] == d[a..b]
  {
  }

  // ---- groups -------------------------------------------------------------

  /** Number `j` of the `g`-th group of `width`. */
  function Member(width: nat, g: nat, j: nat): nat {
    g * width + j
  }

  /** The group of shard `i`, and its place there. */
  function GroupIndex(k: nat, i: nat): nat {
    if k == 0 then 0 else i / k
  }

  function Place(k: nat, i: nat): nat {
    if k == 0 then 0 else i % k
  }

  /** Shard `i` is number `i % k` of group `i / k`, and of no other. */
  lemma GroupOf(k: nat, g: nat, local: nat)
    requires local < k
    ensures GroupIndex(k, Member(k, g, local)) == g && Place(k, Member(k, g, local)) == local
  {
    DivUnique(Member(k, g, local), k, g, local);
  }

  lemma InGroup(k: nat, i: nat)
    requires 0 < k
    ensures Place(k, i) < k && i == Member(k, GroupIndex(k, i), Place(k, i))
  {
  }
}
