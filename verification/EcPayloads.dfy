/** The serialized parity payload: header, checksum tables, parity bytes. */
module EcPayloads {
  import opened Wrappers
  import opened ByteSeqs

  const PAYLOAD_MAGIC: Bytes := [0x41, 0x56, 0x45, 0x43]
  const PAYLOAD_VERSION: nat := 2
  const PAYLOAD_HEADER_LEN: nat := 32
  /** Where the meaning of the header ends; the rest is reserved and ignored. */
  const HEADER_FIELDS_LEN: nat := 22
  const CKSUM_LEN: nat := 16

  datatype EcError =
    | TooShort
    | BadMagic
    | BadVersion
    | ZeroGeometry
    | GeometryOverflow
    | PayloadLength
    | StreamLength
    | CodeParameters

  /** The grid: `k` data and `p` parity shards of `s` bytes a group, over a stream of `total` bytes. */
  datatype Geometry = Geometry(k: nat, p: nat, s: nat, total: nat) {
    predicate Valid() {
      && 0 < k < U16_LIMIT && 0 < p < U16_LIMIT && 0 < s < U32_LIMIT
      && total < U64_LIMIT
    }

    function DataShards(): nat {
      if s == 0 then 0 else CeilDiv(total, s)
    }

    function Groups(): nat {
      if k == 0 then 0 else CeilDiv(DataShards(), k)
    }

    function ParityShards(): nat { Groups() * p }

    /** The exact length of a payload with this geometry. */
    function PayloadLen(): nat {
      PAYLOAD_HEADER_LEN + CKSUM_LEN * (DataShards() + ParityShards()) + ParityShards() * s
    }
  }

  datatype Payload = Payload(geo: Geometry, dataSums: seq<Bytes>, paritySums: seq<Bytes>, parityData: Bytes)

  predicate AllWide(sums: seq<Bytes>) {
    forall i :: 0 <= i < |sums| ==> |sums[i]| == CKSUM_LEN
  }

  /** The tables have the sizes the geometry gives, and the whole fits in 64 bits. */
  predicate WellFormed(pl: Payload) {
    && pl.geo.Valid()
    && |pl.dataSums| == pl.geo.DataShards() && AllWide(pl.dataSums)
    && |pl.paritySums| == pl.geo.ParityShards() && AllWide(pl.paritySums)
    && |pl.parityData| == pl.geo.ParityShards() * pl.geo.s
    && pl.geo.PayloadLen() < U64_LIMIT
  }

  // ---- header -------------------------------------------------------------

  function HeaderFields(geo: Geometry): (b: Bytes)
    ensures |b| == HEADER_FIELDS_LEN
  {
    PAYLOAD_MAGIC + Le(PAYLOAD_VERSION, 2) + Le(geo.k, 2) + Le(geo.p, 2) + Le(geo.s, 4) + Le(geo.total, 8)
  }

  function HeaderBytes(geo: Geometry): (b: Bytes)
    ensures |b| == PAYLOAD_HEADER_LEN
  {
    HeaderFields(geo) + Zeros(10)
  }

  function ParseHeader(data: Bytes): Result<Geometry, EcError> {
    if |data| < PAYLOAD_HEADER_LEN then Err(TooShort)
    else if data[0..4] != PAYLOAD_MAGIC then Err(BadMagic)
    else if Val(data[4..6]) != PAYLOAD_VERSION then Err(BadVersion)
    else
      var geo := Geometry(Val(data[6..8]), Val(data[8..10]), Val(data[10..14]), Val(data[14..22]));
      if geo.k == 0 || geo.p == 0 || geo.s == 0 then Err(ZeroGeometry) else Ok(geo)
  }

  /** A written header is read back, whatever its reserved bytes and whatever follows it. */
  lemma HeaderRoundTrip(geo: Geometry, data: Bytes)
    requires geo.Valid()
    requires |data| >= PAYLOAD_HEADER_LEN && data[..HEADER_FIELDS_LEN] == HeaderFields(geo)
    ensures ParseHeader(data) == Ok(geo)
  {
    hide Le, Val;
    Le2(PAYLOAD_VERSION);
    Le2(geo.k);
    Le2(geo.p);
    Le4(geo.s);
    Le8(geo.total);
    var b := data[..HEADER_FIELDS_LEN];
    hide HeaderFields;
    HeaderSlices(geo);
    assert data[0..4] == b[0..4] && data[4..6] == b[4..6] && data[6..8] == b[6..8];
    assert data[8..10] == b[8..10] && data[10..14] == b[10..14] && data[14..22] == b[14..22];
  }

  lemma HeaderSlices(geo: Geometry)
    ensures var b := HeaderFields(geo);
            && b[0..4] == PAYLOAD_MAGIC && b[4..6] == Le(PAYLOAD_VERSION, 2) && b[6..8] == Le(geo.k, 2)
            && b[8..10] == Le(geo.p, 2) && b[10..14] == Le(geo.s, 4) && b[14..22] == Le(geo.total, 8)
  {
    hide Le;
  }

  /** An accepted header re-encodes to the bytes it was read from, up to the reserved ones. */
  lemma HeaderCanonical(data: Bytes)
    requires ParseHeader(data).Ok?
    ensures ParseHeader(data).value.Valid()
    ensures HeaderFields(ParseHeader(data).value) == data[..HEADER_FIELDS_LEN]
  {
    hide Le, Val;
    ReEncode(data[4..6]);
    ReEncode(data[6..8]);
    ReEncode(data[8..10]);
    ReEncode(data[10..14]);
    ReEncode(data[14..22]);
    assert data[..22] == data[0..4] + data[4..6] + data[6..8] + data[8..10] + data[10..14] + data[14..22];
  }

  // ---- length -------------------------------------------------------------

  function CheckedMul(a: nat, b: nat): Option<nat> {
    if a * b < U64_LIMIT then Some(a * b) else None
  }

  function CheckedAdd(a: nat, b: nat): Option<nat> {
    if a + b < U64_LIMIT then Some(a + b) else None
  }

  /** The payload length by 64-bit checked arithmetic, step by step. */
  function ExpectedLen(geo: Geometry): Option<nat> {
    var parity := CheckedMul(geo.Groups(), geo.p);
    if parity.None? then None
    else
      var shards := CheckedAdd(geo.DataShards(), parity.value);
      if shards.None? then None
      else
        var table := CheckedMul(shards.value, CKSUM_LEN);
        var parityLen := CheckedMul(parity.value, geo.s);
        if table.None? || parityLen.None? then None
        else
          var withTable := CheckedAdd(PAYLOAD_HEADER_LEN, table.value);
          if withTable.None? then None else CheckedAdd(withTable.value, parityLen.value)
  }

  /** The checked steps fail exactly when the true length does not fit, so no crafted header
      wraps round to a small length. */
  lemma ExpectedLenExact(geo: Geometry)
    requires geo.k > 0 && geo.s > 0
    ensures ExpectedLen(geo) == if geo.PayloadLen() < U64_LIMIT then Some(geo.PayloadLen()) else None
  {
  }

  // ---- payload ------------------------------------------------------------

  function Serialize(pl: Payload): Bytes {
    HeaderBytes(pl.geo) + Flatten(pl.dataSums) + Flatten(pl.paritySums) + pl.parityData
  }

  /** Consecutive checksums. */
  function Chop(b: Bytes): (sums: seq<Bytes>)
    decreases |b|
  {
    if |b| < CKSUM_LEN then [] else [b[..CKSUM_LEN]] + Chop(b[CKSUM_LEN..])
  }

  function Parse(data: Bytes): Result<Payload, EcError> {
    var header := ParseHeader(data);
    if header.Err? then Err(header.error)
    else
      var geo := header.value;
      var expected := ExpectedLen(geo);
      if expected.None? then Err(GeometryOverflow)
      else if |data| != expected.value then Err(PayloadLength)
      else
        ExpectedLenExact(geo);
        var a := PAYLOAD_HEADER_LEN + CKSUM_LEN * geo.DataShards();
        var b := a + CKSUM_LEN * geo.ParityShards();
        Ok(Payload(geo, Chop(data[PAYLOAD_HEADER_LEN..a]), Chop(data[a..b]), data[b..]))
  }

  lemma {:induction false} ChopFlatten(sums: seq<Bytes>)
    requires AllWide(sums)
    ensures |Flatten(sums)| == CKSUM_LEN * |sums| && Chop(Flatten(sums)) == sums
  {
    if sums != [] {
      ChopFlatten(sums[1..]);
      var b := Flatten(sums);
      assert b[..CKSUM_LEN] == sums[0] && b[CKSUM_LEN..] == Flatten(sums[1..]);
    }
  }

  lemma {:induction false} FlattenChop(b: Bytes, n: nat)
    requires |b| == CKSUM_LEN * n
    ensures |Chop(b)| == n && AllWide(Chop(b)) && Flatten(Chop(b)) == b
    decreases n
  {
    if n > 0 {
      FlattenChop(b[CKSUM_LEN..], n - 1);
      assert Chop(b)[1..] == Chop(b[CKSUM_LEN..]);
    }
  }

  lemma SerializedLength(pl: Payload)
    requires WellFormed(pl)
    ensures |Serialize(pl)| == pl.geo.PayloadLen()
  {
    ChopFlatten(pl.dataSums);
    ChopFlatten(pl.paritySums);
  }

  lemma ParseSerialize(pl: Payload)
    requires WellFormed(pl)
    ensures Parse(Serialize(pl)) == Ok(pl)
  {
    ParseWithReserved(pl, Zeros(10));
  }

  /** Parsing inverts serializing, and does not look at the reserved bytes. */
  lemma ParseWithReserved(pl: Payload, reserved: Bytes)
    requires WellFormed(pl) && |reserved| == 10
    ensures Parse(HeaderFields(pl.geo) + reserved + Flatten(pl.dataSums) + Flatten(pl.paritySums) + pl.parityData)
            == Ok(pl)
  {
    hide Chop, Flatten, Val, Le, ParseHeader, HeaderFields, ExpectedLen;
    var data := HeaderFields(pl.geo) + reserved + Flatten(pl.dataSums) + Flatten(pl.paritySums) + pl.parityData;
    assert data[..HEADER_FIELDS_LEN] == HeaderFields(pl.geo);
    HeaderRoundTrip(pl.geo, data);
    ChopFlatten(pl.dataSums);
    ChopFlatten(pl.paritySums);
    ExpectedLenExact(pl.geo);
    var a := PAYLOAD_HEADER_LEN + |Flatten(pl.dataSums)|;
    var b := a + |Flatten(pl.paritySums)|;
    assert data[PAYLOAD_HEADER_LEN..a] == Flatten(pl.dataSums);
    assert data[a..b] == Flatten(pl.paritySums);
    assert data[b..] == pl.parityData;
  }

  /** Whatever parses is a well-formed payload and serializes to the same bytes, up to the
      reserved ones. */
  lemma SerializeParse(data: Bytes)
    requires Parse(data).Ok?
    ensures WellFormed(Parse(data).value)
    ensures Serialize(Parse(data).value) == data[..HEADER_FIELDS_LEN] + Zeros(10) + data[PAYLOAD_HEADER_LEN..]
  {
    hide Chop, Flatten, Val, Le, ParseHeader, HeaderFields, ExpectedLen;
    var pl := Parse(data).value;
    HeaderCanonical(data);
    ExpectedLenExact(pl.geo);
    var a := PAYLOAD_HEADER_LEN + CKSUM_LEN * pl.geo.DataShards();
    var b := a + CKSUM_LEN * pl.geo.ParityShards();
    FlattenChop(data[PAYLOAD_HEADER_LEN..a], pl.geo.DataShards());
    FlattenChop(data[a..b], pl.geo.ParityShards());
    assert data[PAYLOAD_HEADER_LEN..] == data[PAYLOAD_HEADER_LEN..a] + data[a..b] + data[b..];
  }

  method ToBytes(pl: Payload) returns (out: Bytes)
    ensures out == Serialize(pl)
  {
    out := HeaderBytes(pl.geo);
    out := AppendSums(out, pl.dataSums);
    out := AppendSums(out, pl.paritySums);
    out := out + pl.parityData;
  }

  method AppendSums(start: Bytes, sums: seq<Bytes>) returns (out: Bytes)
    ensures out == start + Flatten(sums)
  {
    out := start;
    for i := 0 to |sums|
      invariant out == start + Flatten(sums[..i])
    {
      FlattenSplit(sums, i);
      out := out + sums[i];
    }
    assert sums[..|sums|] == sums;
  }

  method FromBytes(data: Bytes) returns (r: Result<Payload, EcError>)
    ensures r == Parse(data)
  {
    var header := ParseHeader(data);
    if header.Err? {
      return Err(header.error);
    }
    var geo := header.value;
    var expected := ExpectedLen(geo);
    if expected.None? {
      return Err(GeometryOverflow);
    }
    if |data| != expected.value {
      return Err(PayloadLength);
    }
    ExpectedLenExact(geo);
    var off := PAYLOAD_HEADER_LEN;
    var dataSums, paritySums;
    dataSums, off := ReadSums(data, off, geo.DataShards());
    paritySums, off := ReadSums(data, off, geo.ParityShards());
    r := Ok(Payload(geo, dataSums, paritySums, data[off..]));
  }

  method ReadSums(data: Bytes, start: nat, count: nat) returns (sums: seq<Bytes>, off: nat)
    requires start + CKSUM_LEN * count <= |data|
    ensures off == start + CKSUM_LEN * count && sums == Chop(data[start..off])
  {
    sums, off := [], start;
    ghost var end := start + CKSUM_LEN * count;
    for i := 0 to count
      invariant off == start + CKSUM_LEN * i
      invariant sums + Chop(data[off..end]) == Chop(data[start..end])
    {
      assert data[off..end][..CKSUM_LEN] == data[off..off + CKSUM_LEN];
      assert data[off..end][CKSUM_LEN..] == data[off + CKSUM_LEN..end];
      sums := sums + [data[off..off + CKSUM_LEN]];
      off := off + CKSUM_LEN;
    }
  }
}
