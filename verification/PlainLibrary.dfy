/** Writings of a manifest and of an extension directory that can be read back. */
module PlainLibrary {
  import opened Wrappers
  import opened ByteSeqs
  import opened VaultTypes
  import opened Stores
  import opened Headers
  import opened Containers

  // ---- writings that end where they end -----------------------------------

  /** What is written tells what it was, whatever follows. */
  ghost predicate PrefixFree<T(!new)>(enc: T -> Bytes) {
    forall x, y, r, s :: Ends(enc, x, y, r, s)
  }

  ghost predicate Ends<T>(enc: T -> Bytes, x: T, y: T, r: Bytes, s: Bytes) {
    enc(x) + r == enc(y) + s ==> x == y && r == s
  }

  function WriteNat(n: nat): Bytes {
    if n == 0 then [0] else [1] + WriteNat(n - 1)
  }

  lemma {:induction false} NatEnds(x: nat, y: nat, r: Bytes, s: Bytes)
    requires WriteNat(x) + r == WriteNat(y) + s
    ensures x == y && r == s
  {
    assert (WriteNat(x) + r)[0] == (WriteNat(y) + s)[0];
    if x == 0 {
      assert (WriteNat(x) + r)[1..] == r && (WriteNat(y) + s)[1..] == s;
    } else {
      assert (WriteNat(x) + r)[1..] == WriteNat(x - 1) + r && (WriteNat(y) + s)[1..] == WriteNat(y - 1) + s;
      NatEnds(x - 1, y - 1, r, s);
    }
  }

  const NAT: nat -> Bytes := (n: nat) => WriteNat(n)

  lemma NatFree()
    ensures PrefixFree(NAT)
  {
    forall x, y, r, s
      ensures Ends(NAT, x, y, r, s)
    {
      if NAT(x) + r == NAT(y) + s { NatEnds(x, y, r, s); }
    }
  }

  // ---- composite writings -------------------------------------------------

  function Both<A, B>(a: A -> Bytes, b: B -> Bytes): ((A, B)) -> Bytes {
    (p: (A, B)) => a(p.0) + b(p.1)
  }

  lemma BothFree<A(!new), B(!new)>(a: A -> Bytes, b: B -> Bytes)
    requires PrefixFree(a) && PrefixFree(b)
    ensures PrefixFree(Both(a, b))
  {
    var enc := Both(a, b);
    forall x, y, r, s
      ensures Ends(enc, x, y, r, s)
    {
      assert enc(x) + r == a(x.0) + (b(x.1) + r) && enc(y) + s == a(y.0) + (b(y.1) + s);
      assert Ends(a, x.0, y.0, b(x.1) + r, b(y.1) + s) && Ends(b, x.1, y.1, r, s);
    }
  }

  /** A value written as another. */
  function Via<A, B>(f: A -> B, b: B -> Bytes): A -> Bytes {
    (x: A) => b(f(x))
  }

  ghost predicate OneToOne<A(!new), B>(f: A -> B) {
    forall x, y :: f(x) == f(y) ==> x == y
  }

  lemma ViaFree<A(!new), B(!new)>(f: A -> B, b: B -> Bytes)
    requires PrefixFree(b) && OneToOne(f)
    ensures PrefixFree(Via(f, b))
  {
    forall x, y, r, s
      ensures Ends(Via(f, b), x, y, r, s)
    {
      assert Ends(b, f(x), f(y), r, s);
    }
  }

  function WriteAll<A>(a: A -> Bytes, xs: seq<A>): Bytes {
    if xs == [] then [0] else [1] + (a(xs[0]) + WriteAll(a, xs[1..]))
  }

  function Many<A>(a: A -> Bytes): seq<A> -> Bytes {
    (xs: seq<A>) => WriteAll(a, xs)
  }

  lemma {:induction false} AllEnds<A(!new)>(a: A -> Bytes, x: seq<A>, y: seq<A>, r: Bytes, s: Bytes)
    requires PrefixFree(a) && WriteAll(a, x) + r == WriteAll(a, y) + s
    ensures x == y && r == s
  {
    hide PrefixFree;
    assert (WriteAll(a, x) + r)[0] == (WriteAll(a, y) + s)[0];
    assert x == [] <==> y == [];
    if x == [] {
      assert (WriteAll(a, x) + r)[1..] == r && (WriteAll(a, y) + s)[1..] == s;
    } else {
      assert (WriteAll(a, x) + r)[1..] == a(x[0]) + (WriteAll(a, x[1..]) + r);
      assert (WriteAll(a, y) + s)[1..] == a(y[0]) + (WriteAll(a, y[1..]) + s);
      FreeEnds(a, x[0], y[0], WriteAll(a, x[1..]) + r, WriteAll(a, y[1..]) + s);
      AllEnds(a, x[1..], y[1..], r, s);
      assert x == [x[0]] + x[1..] && y == [y[0]] + y[1..];
    }
  }

  lemma FreeEnds<A(!new)>(a: A -> Bytes, x: A, y: A, r: Bytes, s: Bytes)
    requires PrefixFree(a)
    ensures Ends(a, x, y, r, s)
  {
  }

  lemma ManyFree<A(!new)>(a: A -> Bytes)
    requires PrefixFree(a)
    ensures PrefixFree(Many(a))
  {
    hide WriteAll;
    forall x, y, r, s
      ensures Ends(Many(a), x, y, r, s)
    {
      if Many(a)(x) + r == Many(a)(y) + s { AllEnds(a, x, y, r, s); }
    }
  }

  // ---- the parts of a manifest --------------------------------------------

  function CharNat(c: char): nat { c as int }

  function ByteNat(b: byte): nat { b }

  function BoolNat(b: bool): nat { if b then 1 else 0 }

  function OffsetNat(o: Option<nat>): nat { if o.None? then 0 else o.value + 1 }

  const CHAR: char -> Bytes := Via(CharNat, NAT)
  const TEXT: string -> Bytes := Many(CHAR)
  const BYTE: byte -> Bytes := Via(ByteNat, NAT)
  const BYTES: Bytes -> Bytes := Many(BYTE)
  const BOOL: bool -> Bytes := Via(BoolNat, NAT)
  const OFFSET: Option<nat> -> Bytes := Via(OffsetNat, NAT)

  lemma PartsFree()
    ensures PrefixFree(NAT) && PrefixFree(TEXT) && PrefixFree(BYTES) && PrefixFree(BOOL) && PrefixFree(OFFSET)
  {
    hide PrefixFree, Via, Many;
    NatFree();
    ViaFree(CharNat, NAT);
    ManyFree(CHAR);
    ViaFree(ByteNat, NAT);
    ManyFree(BYTE);
    ViaFree(BoolNat, NAT);
    ViaFree(OffsetNat, NAT);
  }

  function EntryParts(e: Entry): (string, (nat, (bool, (seq<string>, Option<nat>)))) {
    (e.path, (e.size, (e.isDir, (e.chunks, e.packOffset))))
  }

  const ENTRY: Entry -> Bytes := Via(EntryParts, Both(TEXT, Both(NAT, Both(BOOL, Both(Many(TEXT), OFFSET)))))

  lemma EntryFree()
    ensures PrefixFree(ENTRY)
  {
    hide PrefixFree, Via, Many, Both;
    PartsFree();
    ManyFree(TEXT);
    BothFree(Many(TEXT), OFFSET);
    BothFree(BOOL, Both(Many(TEXT), OFFSET));
    BothFree(NAT, Both(BOOL, Both(Many(TEXT), OFFSET)));
    BothFree(TEXT, Both(NAT, Both(BOOL, Both(Many(TEXT), OFFSET))));
    ViaFree(EntryParts, Both(TEXT, Both(NAT, Both(BOOL, Both(Many(TEXT), OFFSET)))));
  }

  function RecordParts(rec: ChunkRecord): ((string, seq<nat>), (Bytes, bool)) {
    ((rec.id, [rec.blockIndex, rec.dataOffset, rec.blockLen, rec.plaintextLen, rec.compressedLen]), (rec.cipherHash, rec.storedRaw))
  }

  const RECORD: ChunkRecord -> Bytes := Via(RecordParts, Both(Both(TEXT, Many(NAT)), Both(BYTES, BOOL)))

  lemma RecordFree()
    ensures PrefixFree(RECORD)
  {
    hide PrefixFree, Via, Many, Both;
    PartsFree();
    ManyFree(NAT);
    BothFree(TEXT, Many(NAT));
    BothFree(BYTES, BOOL);
    BothFree(Both(TEXT, Many(NAT)), Both(BYTES, BOOL));
    RecordPartsApart();
    ViaFree(RecordParts, Both(Both(TEXT, Many(NAT)), Both(BYTES, BOOL)));
  }

  lemma RecordPartsApart()
    ensures OneToOne(RecordParts)
  {
    forall x, y | RecordParts(x) == RecordParts(y)
      ensures x == y
    {
      var a, b := RecordParts(x).0.1, RecordParts(y).0.1;
      assert a[0] == b[0] && a[1] == b[1] && a[2] == b[2] && a[3] == b[3] && a[4] == b[4];
    }
  }

  // ---- chunk records ------------------------------------------------------

  /** The records, in some order. */
  ghost function Listed(m: Records): seq<(string, ChunkRecord)>
    decreases |m|
  {
    if m == map[] then []
    else
      var id :| id in m;
      [(id, m[id])] + Listed(m - {id})
  }

  function Unlisted(xs: seq<(string, ChunkRecord)>): Records {
    if xs == [] then map[] else Unlisted(xs[1..])[xs[0].0 := xs[0].1]
  }

  lemma {:induction false} ListedBack(m: Records)
    ensures Unlisted(Listed(m)) == m
    decreases |m|
  {
    if m != map[] {
      var xs := Listed(m);
      var id := xs[0].0;
      assert xs[1..] == Listed(m - {id});
      ListedBack(m - {id});
    }
  }

  lemma ListedApart()
    ensures OneToOne(Listed)
  {
    forall x, y | Listed(x) == Listed(y)
      ensures x == y
    {
      ListedBack(x);
      ListedBack(y);
    }
  }

  ghost const RECORDS: Records -> Bytes := Via(Listed, Many(Both(TEXT, RECORD)))

  lemma RecordsFree()
    ensures PrefixFree(RECORDS)
  {
    hide PrefixFree, Via, Many, Both;
    PartsFree();
    RecordFree();
    BothFree(TEXT, RECORD);
    ManyFree(Both(TEXT, RECORD));
    ListedApart();
    ViaFree(Listed, Many(Both(TEXT, RECORD)));
  }

  // ---- the library --------------------------------------------------------

  function ManifestParts(m: Manifest): ((nat, nat), ((bool, bool), (seq<Entry>, Records))) {
    ((m.format, m.parityPct), ((m.plaintext, m.supported), (m.entries, m.chunks)))
  }

  ghost const MANIFEST: Manifest -> Bytes :=
    Via(ManifestParts, Both(Both(NAT, NAT), Both(Both(BOOL, BOOL), Both(Many(ENTRY), RECORDS))))

  lemma ManifestFree()
    ensures PrefixFree(MANIFEST)
  {
    hide PrefixFree, Via, Many, Both;
    PartsFree();
    EntryFree();
    RecordsFree();
    ManyFree(ENTRY);
    BothFree(NAT, NAT);
    BothFree(BOOL, BOOL);
    BothFree(Many(ENTRY), RECORDS);
    BothFree(Both(BOOL, BOOL), Both(Many(ENTRY), RECORDS));
    BothFree(Both(NAT, NAT), Both(Both(BOOL, BOOL), Both(Many(ENTRY), RECORDS)));
    ViaFree(ManifestParts, Both(Both(NAT, NAT), Both(Both(BOOL, BOOL), Both(Many(ENTRY), RECORDS))));
  }

  function ExtensionParts(x: Extension): ((string, string), ((nat, bool), (nat, nat))) {
    ((x.id, x.algorithm), ((x.version, x.critical), (x.offset, x.length)))
  }

  const DIRECTORY: seq<Extension> -> Bytes :=
    Many(Via(ExtensionParts, Both(Both(TEXT, TEXT), Both(Both(NAT, BOOL), Both(NAT, NAT)))))

  lemma DirectoryFree()
    ensures PrefixFree(DIRECTORY)
  {
    hide PrefixFree, Via, Many, Both;
    PartsFree();
    BothFree(TEXT, TEXT);
    BothFree(NAT, BOOL);
    BothFree(NAT, NAT);
    BothFree(Both(NAT, BOOL), Both(NAT, NAT));
    BothFree(Both(TEXT, TEXT), Both(Both(NAT, BOOL), Both(NAT, NAT)));
    ViaFree(ExtensionParts, Both(Both(TEXT, TEXT), Both(Both(NAT, BOOL), Both(NAT, NAT))));
    ManyFree(Via(ExtensionParts, Both(Both(TEXT, TEXT), Both(Both(NAT, BOOL), Both(NAT, NAT)))));
  }

  ghost function ReadBack<T(!new)>(show: T -> Bytes, b: Bytes): Option<T> {
    if exists x :: show(x) == b then
      var x :| show(x) == b;
      Some(x)
    else None
  }

  lemma ReadsBack<T(!new)>(show: T -> Bytes, x: T)
    requires PrefixFree(show)
    ensures ReadBack(show, show(x)) == Some(x)
  {
    forall y | show(y) == show(x)
      ensures y == x
    {
      assert show(y) + [] == show(x) + [];
      assert Ends(show, y, x, [], []);
    }
  }

  ghost const PLAIN_LIBRARY := Library(
    (salt: Bytes, wrapped: Bytes) => Some(wrapped),
    (salt: Bytes, wrapped: Bytes) => Some(wrapped),
    [],
    [],
    (key: Bytes, x: Bytes) => Zeros(MAC_SIZE),
    (key: Bytes, n: Nonce, m: Manifest) => MANIFEST(m),
    (key: Bytes, b: Bytes) => ReadBack(MANIFEST, b),
    MANIFEST,
    (b: Bytes) => ReadBack(MANIFEST, b),
    DIRECTORY,
    (b: Bytes) => ReadBack(DIRECTORY, b))

  /** What is asked of keys, MAC, AEAD and JSON can be met. */
  lemma LibraryExists()
    ensures LibraryOk(PLAIN_LIBRARY)
  {
    hide PrefixFree, ReadBack;
    ManifestFree();
    DirectoryFree();
    forall m: Manifest
      ensures ReadBack(MANIFEST, MANIFEST(m)) == Some(m)
    {
      ReadsBack(MANIFEST, m);
    }
    forall d: seq<Extension>
      ensures ReadBack(DIRECTORY, DIRECTORY(d)) == Some(d)
    {
      ReadsBack(DIRECTORY, d);
    }
  }
}
