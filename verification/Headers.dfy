/** The fixed 1024-byte container header. */
module Headers {
  import opened Wrappers
  import opened ByteSeqs

  const HEADER_SIZE: nat := 1024
  const MAC_OFFSET: nat := 960
  const MAC_SIZE: nat := 64
  const RESERVED_AT: nat := 194
  const SALT_SIZE: nat := 32
  const WRAPPED_KEY_SIZE: nat := 40
  const CONTAINER_MAGIC: Bytes := [0x41, 0x45, 0x52, 0x4F, 0x56, 0x41, 0x55, 0x4C, 0x54, 0x33]
  const CONTAINER_VERSION: byte := 3

  datatype HeaderError = Truncated | NotAVault | UnsupportedVersion | HeaderLength | ReservedNotZero

  datatype Header = Header(
    flags: byte,
    salt: Bytes,
    wrappedMaster: Bytes,
    wrappedMac: Bytes,
    dataOffset: nat,
    dataLen: nat,
    manifestOffset: nat,
    manifestLen: nat,
    dirOffset: nat,
    dirLen: nat,
    payloadOffset: nat,
    payloadLen: nat,
    wrapperVersion: nat,
    mac: Bytes)
  {
    /** Every field has the width its place in the header gives it. */
    predicate Fits() {
      && |salt| == SALT_SIZE && |wrappedMaster| == |wrappedMac| == WRAPPED_KEY_SIZE && |mac| == MAC_SIZE
      && dataOffset < U64_LIMIT && dataLen < U64_LIMIT && manifestOffset < U64_LIMIT && manifestLen < U64_LIMIT
      && dirOffset < U64_LIMIT && dirLen < U64_LIMIT && payloadOffset < U64_LIMIT && payloadLen < U64_LIMIT
      && wrapperVersion < U16_LIMIT
    }
  }

  // ---- layout -------------------------------------------------------------

  function KeyPart(h: Header): Bytes {
    CONTAINER_MAGIC + [CONTAINER_VERSION, h.flags] + h.salt + h.wrappedMaster + h.wrappedMac + Le(HEADER_SIZE, 4)
  }

  function RangePart(h: Header): (b: Bytes)
    ensures |b| == 66
  {
    Le(h.dataOffset, 8) + Le(h.dataLen, 8) + Le(h.manifestOffset, 8) + Le(h.manifestLen, 8)
    + Le(h.dirOffset, 8) + Le(h.dirLen, 8) + Le(h.payloadOffset, 8) + Le(h.payloadLen, 8) + Le(h.wrapperVersion, 2)
  }

  /** Everything the MAC covers besides itself. */
  function Covered(h: Header): Bytes {
    KeyPart(h) + RangePart(h) + Zeros(MAC_OFFSET - RESERVED_AT)
  }

  function HeaderImage(h: Header): Bytes { Covered(h) + h.mac }

  /** The bytes the MAC is computed over: the whole header with the MAC field zeroed. */
  function MacInput(h: Header): Bytes { Covered(h) + Zeros(MAC_SIZE) }

  function DecodeHeader(data: Bytes): Result<Header, HeaderError> {
    if |data| < HEADER_SIZE then Err(Truncated)
    else if data[0..10] != CONTAINER_MAGIC then Err(NotAVault)
    else if data[10] != CONTAINER_VERSION then Err(UnsupportedVersion)
    else if Val(data[124..128]) != HEADER_SIZE then Err(HeaderLength)
    else if exists i :: RESERVED_AT <= i < MAC_OFFSET && data[i] != 0 then Err(ReservedNotZero)
    else
      Ok(Header(data[11], data[12..44], data[44..84], data[84..124],
                Val(data[128..136]), Val(data[136..144]), Val(data[144..152]), Val(data[152..160]),
                Val(data[160..168]), Val(data[168..176]), Val(data[176..184]), Val(data[184..192]),
                Val(data[192..194]), data[960..1024]))
  }

  // ---- round trips --------------------------------------------------------

  lemma ImageParts(h: Header)
    requires h.Fits()
    ensures |KeyPart(h)| == 128 && |Covered(h)| == MAC_OFFSET && |HeaderImage(h)| == HEADER_SIZE
    ensures var b := HeaderImage(h);
            && b[0..128] == KeyPart(h) && b[128..194] == RangePart(h)
            && b[194..960] == Zeros(766) && b[960..1024] == h.mac
  {
    hide Le, RangePart;
  }

  lemma KeyFields(h: Header)
    requires h.Fits()
    ensures var b := KeyPart(h);
            && |b| == 128 && b[0..10] == CONTAINER_MAGIC && b[10] == CONTAINER_VERSION && b[11] == h.flags
            && b[12..44] == h.salt && b[44..84] == h.wrappedMaster && b[84..124] == h.wrappedMac
            && b[124..128] == Le(HEADER_SIZE, 4)
  {
  }

  lemma RangeFields(h: Header)
    ensures var b := RangePart(h);
            && b[0..8] == Le(h.dataOffset, 8) && b[8..16] == Le(h.dataLen, 8)
            && b[16..24] == Le(h.manifestOffset, 8) && b[24..32] == Le(h.manifestLen, 8)
            && b[32..40] == Le(h.dirOffset, 8) && b[40..48] == Le(h.dirLen, 8)
            && b[48..56] == Le(h.payloadOffset, 8) && b[56..64] == Le(h.payloadLen, 8)
            && b[64..66] == Le(h.wrapperVersion, 2)
  {
    hide Le;
  }

  lemma Within(data: Bytes, a: nat, b: nat, x: nat, y: nat)
    requires a <= b <= |data| && x <= y <= b - a
    ensures data[a + x..a + y] == data[a..b][x..y]
  {
    var part := data[a..b];
    assert forall i :: 0 <= i < y - x ==> data[a + x..a + y][i] == part[x..y][i];
  }

  /** A written header is read back, whatever follows it. */
  lemma HeaderReadBack(h: Header, rest: Bytes)
    requires h.Fits()
    ensures DecodeHeader(HeaderImage(h) + rest) == Ok(h)
  {
    hide Le, Val, KeyPart, RangePart, Covered, HeaderImage;
    ImageParts(h);
    KeyFields(h);
    RangeFields(h);
    var data := HeaderImage(h) + rest;
    assert data[0..128] == KeyPart(h) && data[128..194] == RangePart(h) && data[194..960] == Zeros(766) && data[960..1024] == h.mac by {
      Within(data, 0, 1024, 0, 128);
      assert data[0..1024] == HeaderImage(h);
      Within(data, 0, 1024, 128, 194);
      Within(data, 0, 1024, 194, 960);
      Within(data, 0, 1024, 960, 1024);
    }
    KeyFieldsRead(h, data);
    RangeFieldsRead(h, data);
    forall i | RESERVED_AT <= i < MAC_OFFSET
      ensures data[i] == 0
    {
      assert data[i] == data[194..960][i - 194];
    }
  }

  lemma KeyFieldsRead(h: Header, data: Bytes)
    requires h.Fits() && |data| >= HEADER_SIZE && data[0..128] == KeyPart(h)
    ensures data[0..10] == CONTAINER_MAGIC && data[10] == CONTAINER_VERSION && data[11] == h.flags
    ensures data[12..44] == h.salt && data[44..84] == h.wrappedMaster && data[84..124] == h.wrappedMac
    ensures Val(data[124..128]) == HEADER_SIZE
  {
    hide Le, Val, KeyPart;
    KeyFields(h);
    Le4(HEADER_SIZE);
    Within(data, 0, 128, 0, 10);
    assert data[10] == data[0..128][10] && data[11] == data[0..128][11];
    Within(data, 0, 128, 12, 44);
    Within(data, 0, 128, 44, 84);
    Within(data, 0, 128, 84, 124);
    Within(data, 0, 128, 124, 128);
  }

  lemma RangeFieldsRead(h: Header, data: Bytes)
    requires h.Fits() && |data| >= HEADER_SIZE && data[128..194] == RangePart(h)
    ensures Val(data[128..136]) == h.dataOffset && Val(data[136..144]) == h.dataLen
    ensures Val(data[144..152]) == h.manifestOffset && Val(data[152..160]) == h.manifestLen
    ensures Val(data[160..168]) == h.dirOffset && Val(data[168..176]) == h.dirLen
    ensures Val(data[176..184]) == h.payloadOffset && Val(data[184..192]) == h.payloadLen
    ensures Val(data[192..194]) == h.wrapperVersion
  {
    hide Le, Val, RangePart;
    RangeFields(h);
    Within(data, 128, 194, 0, 8);
    Within(data, 128, 194, 8, 16);
    Within(data, 128, 194, 16, 24);
    Within(data, 128, 194, 24, 32);
    Within(data, 128, 194, 32, 40);
    Within(data, 128, 194, 40, 48);
    Within(data, 128, 194, 48, 56);
    Within(data, 128, 194, 56, 64);
    Within(data, 128, 194, 64, 66);
    Le8(h.dataOffset);
    Le8(h.dataLen);
    Le8(h.manifestOffset);
    Le8(h.manifestLen);
    Le8(h.dirOffset);
    Le8(h.dirLen);
    Le8(h.payloadOffset);
    Le8(h.payloadLen);
    Le2(h.wrapperVersion);
  }

  /** An accepted header encodes to the very bytes it was read from, so the MAC of the parsed header
      is a MAC of the raw bytes with the MAC field zeroed. */
  lemma HeaderCanonical(data: Bytes)
    requires DecodeHeader(data).Ok?
    ensures var h := DecodeHeader(data).value;
            && h.Fits() && HeaderImage(h) == data[..HEADER_SIZE]
            && MacInput(h) == data[..MAC_OFFSET] + Zeros(MAC_SIZE)
  {
    hide Le, Val, KeyPart, RangePart;
    var h := DecodeHeader(data).value;
    RawFits(data, h);
    KeyPartRaw(data, h);
    RangePartRaw(data, h);
    ImageParts(h);
    assert data[194..960] == Zeros(766);
    assert data[..960] == data[..128] + data[128..194] + data[194..960];
    assert data[..1024] == data[..960] + data[960..1024];
  }

  lemma RawFits(data: Bytes, h: Header)
    requires DecodeHeader(data) == Ok(h)
    ensures h.Fits()
  {
    hide Le, Val;
    ReEncode(data[128..136]);
    ReEncode(data[136..144]);
    ReEncode(data[144..152]);
    ReEncode(data[152..160]);
    ReEncode(data[160..168]);
    ReEncode(data[168..176]);
    ReEncode(data[176..184]);
    ReEncode(data[184..192]);
    ReEncode(data[192..194]);
  }

  lemma KeyPartRaw(data: Bytes, h: Header)
    requires DecodeHeader(data) == Ok(h)
    ensures KeyPart(h) == data[..128]
  {
    hide Le, Val;
    ReEncode(data[124..128]);
    assert data[..128] == data[0..10] + [data[10], data[11]] + data[12..44] + data[44..84] + data[84..124] + data[124..128];
  }

  lemma RangePartRaw(data: Bytes, h: Header)
    requires DecodeHeader(data) == Ok(h)
    ensures RangePart(h) == data[128..194]
  {
    hide Le, Val;
    ReEncode(data[128..136]);
    ReEncode(data[136..144]);
    ReEncode(data[144..152]);
    ReEncode(data[152..160]);
    ReEncode(data[160..168]);
    ReEncode(data[168..176]);
    ReEncode(data[176..184]);
    ReEncode(data[184..192]);
    ReEncode(data[192..194]);
    assert data[128..194] == data[128..136] + data[136..144] + data[144..152] + data[152..160]
                             + data[160..168] + data[168..176] + data[176..184] + data[184..192] + data[192..194];
  }

  // ---- filling the buffer -------------------------------------------------

  /** Writes the next field of a buffer that is zero from `at` on. */
  method Put(buf: array<byte>, at: nat, field: Bytes)
    requires at + |field| <= buf.Length && forall j :: at <= j < buf.Length ==> buf[j] == 0
    modifies buf
    ensures buf[..at + |field|] == old(buf[..at]) + field
    ensures forall j :: at + |field| <= j < buf.Length ==> buf[j] == 0
  {
    ghost var was := buf[..at];
    for i := 0 to |field|
      invariant buf[..at + i] == was + field[..i]
      invariant forall j :: at + i <= j < buf.Length ==> buf[j] == 0
    {
      buf[at + i] := field[i];
      assert buf[..at + i + 1] == buf[..at + i] + [field[i]];
    }
    assert field[..|field|] == field;
  }

  /** Fills a zeroed buffer field by field. */
  method EncodeHeader(h: Header) returns (buf: array<byte>)
    requires h.Fits()
    ensures fresh(buf) && buf[..] == HeaderImage(h)
  {
    hide Le, RangePart;
    buf := new byte[HEADER_SIZE](_ => 0);
    PutKeys(buf, h);
    PutRanges(buf, h);
    ImageParts(h);
    assert buf[..MAC_OFFSET] == Covered(h) by {
      assert buf[..MAC_OFFSET] == buf[..RESERVED_AT] + Zeros(MAC_OFFSET - RESERVED_AT);
    }
    Put(buf, MAC_OFFSET, h.mac);
    assert buf[..] == buf[..HEADER_SIZE];
  }

  method PutKeys(buf: array<byte>, h: Header)
    requires h.Fits() && buf.Length == HEADER_SIZE && forall j :: 0 <= j < buf.Length ==> buf[j] == 0
    modifies buf
    ensures buf[..128] == KeyPart(h) && forall j :: 128 <= j < buf.Length ==> buf[j] == 0
  {
    hide Le;
    Put(buf, 0, CONTAINER_MAGIC);
    Put(buf, 10, [CONTAINER_VERSION, h.flags]);
    Put(buf, 12, h.salt);
    Put(buf, 44, h.wrappedMaster);
    Put(buf, 84, h.wrappedMac);
    Put(buf, 124, Le(HEADER_SIZE, 4));
  }

  method PutRanges(buf: array<byte>, h: Header)
    requires buf.Length == HEADER_SIZE && forall j :: 128 <= j < buf.Length ==> buf[j] == 0
    modifies buf
    ensures buf[..RESERVED_AT] == old(buf[..128]) + RangePart(h)
    ensures forall j :: RESERVED_AT <= j < buf.Length ==> buf[j] == 0
  {
    hide Le;
    Put(buf, 128, Le(h.dataOffset, 8));
    Put(buf, 136, Le(h.dataLen, 8));
    Put(buf, 144, Le(h.manifestOffset, 8));
    Put(buf, 152, Le(h.manifestLen, 8));
    Put(buf, 160, Le(h.dirOffset, 8));
    Put(buf, 168, Le(h.dirLen, 8));
    Put(buf, 176, Le(h.payloadOffset, 8));
    Put(buf, 184, Le(h.payloadLen, 8));
    Put(buf, 192, Le(h.wrapperVersion, 2));
  }
}
