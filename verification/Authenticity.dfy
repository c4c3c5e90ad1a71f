/** What vouches for the header of a vault that opens, said of its bytes. */
module Authenticity {
  import opened Wrappers
  import opened ByteSeqs
  import opened Sidecars
  import opened Manifests
  import opened Headers
  import opened Containers
  import opened VaultSidecars
  import opened Opening
  import EC = ErrorCorrection

  // ---- the bytes of a header ----------------------------------------------

  /** Magic, version and length are right, and the reserved bytes zero. */
  predicate WellFormed(image: Bytes)
    requires |image| == HEADER_SIZE
  {
    && image[..10] == CONTAINER_MAGIC && image[10] == CONTAINER_VERSION && image[124..128] == Le(HEADER_SIZE, 4)
    && forall i :: RESERVED_AT <= i < MAC_OFFSET ==> image[i] == 0
  }

  /** The bit that says the content is not encrypted. */
  predicate LaneBit(image: Bytes)
    requires |image| == HEADER_SIZE
  {
    image[11] % 2 == 1
  }

  /** The last 64 bytes are the MAC, under `key`, of the header with those bytes zeroed. */
  predicate MacHolds(lib: Library, key: Bytes, image: Bytes)
    requires |image| == HEADER_SIZE
  {
    lib.mac(key, image[..960] + Zeros(64)) == image[960..]
  }

  /** They are so under the key that the password unwraps from the salt and the wrapped key in the header. */
  predicate PasswordMacHolds(lib: Library, image: Bytes)
    requires |image| == HEADER_SIZE
  {
    var key := lib.unwrapMac(image[12..44], image[84..124]);
    key.Some? && MacHolds(lib, key.value, image)
  }

  predicate SupportedVersion(image: Bytes)
    requires |image| == HEADER_SIZE
  {
    image[192..194] == Le(SUPPORTED_WRAPPER_VERSION, 2)
  }

  /** All that it takes to unlock a header by password, */
  predicate OpensByPassword(lib: Library, image: Bytes)
    requires |image| == HEADER_SIZE
  {
    && WellFormed(image) && PasswordMacHolds(lib, image) && SupportedVersion(image)
    && lib.unwrapMaster(image[12..44], image[44..84]).Some?
  }

  /** and one whose content is not encrypted. */
  predicate OpensPublicly(lib: Library, image: Bytes)
    requires |image| == HEADER_SIZE
  {
    WellFormed(image) && MacHolds(lib, lib.publicMacKey, image) && SupportedVersion(image)
  }

  // ---- what the code goes by is that --------------------------------------

  lemma DecodesIff(image: Bytes)
    requires |image| == HEADER_SIZE
    ensures DecodeHeader(image).Ok? <==> WellFormed(image)
    ensures WellFormed(image) ==>
              var h := DecodeHeader(image).value;
              && h.Fits() && HeaderImage(h) == image && MacInput(h) == image[..960] + Zeros(64) && h.mac == image[960..]
              && h.flags == image[11] && h.salt == image[12..44] && h.wrappedMaster == image[44..84] && h.wrappedMac == image[84..124]
              && (h.wrapperVersion == SUPPORTED_WRAPPER_VERSION <==> SupportedVersion(image))
  {
    hide Le, Val, HeaderImage, MacInput;
    Le4(HEADER_SIZE);
    ReEncode(image[124..128]);
    Le2(SUPPORTED_WRAPPER_VERSION);
    ReEncode(image[192..194]);
    assert image[0..10] == image[..10] && image[960..1024] == image[960..] && image[..HEADER_SIZE] == image;
    if DecodeHeader(image).Ok? {
      HeaderCanonical(image);
    }
  }

  lemma LaneIs(image: Bytes)
    requires |image| == HEADER_SIZE
    ensures PlainLane(image) <==> WellFormed(image) && LaneBit(image)
  {
    hide DecodeHeader, WellFormed, HeaderImage, MacInput;
    DecodesIff(image);
  }

  lemma UnlockIs(lib: Library, image: Bytes)
    requires |image| == HEADER_SIZE
    ensures UnlockBytes(lib, image).Ok? <==> OpensByPassword(lib, image)
    ensures UnlockBytes(lib, image).Ok? ==> HeaderImage(UnlockBytes(lib, image).value.0) == image
    ensures UnlockImage(lib, image).Some? <==> OpensByPassword(lib, image)
    ensures UnlockImage(lib, image).Some? ==> HeaderImage(UnlockImage(lib, image).value.0) == image
  {
    hide DecodeHeader, WellFormed, HeaderImage, MacInput, SupportedVersion;
    DecodesIff(image);
  }

  lemma UnlockOf(lib: Library, h: Header)
    requires h.Fits()
    ensures |HeaderImage(h)| == HEADER_SIZE
    ensures UnlockWithPassword(lib, h).Ok? <==> OpensByPassword(lib, HeaderImage(h))
  {
    hide DecodeHeader, HeaderImage, OpensByPassword, UnlockWithPassword;
    ImageParts(h);
    HeaderReadBack(h, []);
    assert HeaderImage(h) + [] == HeaderImage(h);
    UnlockIs(lib, HeaderImage(h));
  }

  lemma PublicIs(lib: Library, image: Bytes)
    requires |image| == HEADER_SIZE && PlainLane(image)
    ensures Unlock(lib, DecodeHeader(image).value).Ok? <==> OpensPublicly(lib, image)
    ensures HeaderImage(DecodeHeader(image).value) == image
  {
    hide DecodeHeader, WellFormed, HeaderImage, MacInput, SupportedVersion;
    DecodesIff(image);
  }

  // ---- vaults that open ---------------------------------------------------

  /** The header an opening goes by is the one found, and its MAC holds on the found bytes, under the public key or the
      password's as the lane says; or it was rebuilt from the recovery file, the one found not saying that the content is not
      encrypted and not unlocking, and the password's holds on the rebuilt bytes. */
  ghost predicate VouchedFor(lib: Library, e: EC.Engine, hs: Hashes, found: Bytes, sidecar: Option<Bytes>, image: Bytes, rebuilt: bool)
    requires |found| == |image| == HEADER_SIZE
  {
    if !rebuilt then
      && image == found
      && if LaneBit(found) then OpensPublicly(lib, found) else OpensByPassword(lib, found)
    else
      && !(WellFormed(found) && LaneBit(found)) && !OpensByPassword(lib, found)
      && SidecarRebuilt(e, hs, sidecar, HEADER_SEGMENT, found, Some(image)) && OpensByPassword(lib, image)
  }

  lemma HeadVouchedFor(lib: Library, e: EC.Engine, hs: Hashes, found: Bytes, sidecar: Option<Bytes>,
                       head: Result<(Header, Keys, bool), OpenError>)
    requires |found| == HEADER_SIZE && HeaderOutcome(lib, e, hs, found, sidecar, head) && head.Ok?
    ensures |HeaderImage(head.value.0)| == HEADER_SIZE
    ensures VouchedFor(lib, e, hs, found, sidecar, HeaderImage(head.value.0), head.value.2)
  {
    hide DecodeHeader, WellFormed, HeaderImage, OpensPublicly, OpensByPassword, UnlockWithPassword, Unlock, SidecarRebuilt;
    LaneIs(found);
    if PlainLane(found) {
      PublicIs(lib, found);
    } else {
      UnlockIs(lib, found);
      if UnlockBytes(lib, found).Err? {
        var first := UnlockBytes(lib, found).error;
        var image :| SidecarRebuilt(e, hs, sidecar, HEADER_SEGMENT, found, image) && head == RebuiltHeader(lib, image, first);
        RebuiltLength(e, hs, sidecar, found, image.value);
        UnlockIs(lib, image.value);
      } else {
        OpensWellFormed(lib, found);
      }
    }
  }

  lemma OpensWellFormed(lib: Library, image: Bytes)
    requires |image| == HEADER_SIZE && OpensByPassword(lib, image)
    ensures WellFormed(image)
  {
  }

  lemma RebuiltLength(e: EC.Engine, hs: Hashes, sidecar: Option<Bytes>, found: Bytes, image: Bytes)
    requires SidecarRebuilt(e, hs, sidecar, HEADER_SEGMENT, found, Some(image))
    ensures |image| == |found|
  {
  }

  /** Whatever file and recovery file are given, a vault that opens has a header vouched for in that sense. Its data is the
      file's where that header says; its manifest is for the same lane, and its paths are unique and canonical. */
  lemma OpenedIsVouchedFor(lib: Library, e: EC.Engine, hs: Hashes, file: Bytes, sidecar: Option<Bytes>, r: Result<OpenedFile, OpenError>)
    requires OpenOutcome(lib, e, hs, file, sidecar, r) && r.Ok?
    ensures |file| >= HEADER_SIZE && |HeaderImage(r.value.vault.header)| == HEADER_SIZE
    ensures VouchedFor(lib, e, hs, file[..HEADER_SIZE], sidecar, HeaderImage(r.value.vault.header), r.value.headerRebuilt)
    ensures SectionsInside(r.value.vault.header, |file|)
    ensures NoneCritical(r.value.vault.exts, r.value.vault.header.payloadLen)
    ensures var v := r.value.vault;
            && v.data == file[HEADER_SIZE..HEADER_SIZE + v.header.dataLen]
            && v.manifest.format == MANIFEST_FORMAT && v.manifest.supported && PathsValid(v.manifest.entries)
            && (v.manifest.plaintext <==> !r.value.headerRebuilt && LaneBit(file[..HEADER_SIZE]))
  {
    hide HeaderOutcome, ManifestOutcome, ValidExtensions, DropMeta, HeaderImage, DecodeHeader, PathsValid, WellFormed,
      OpensPublicly, MacHolds, SidecarRebuilt, NoneCritical;
    var head :| HeaderOutcome(lib, e, hs, file[..HEADER_SIZE], sidecar, head) && head.Ok? &&
      (var (h, keys, rebuilt) := head.value;
       ValidRanges(h, |file|) && SectionsOutcome(lib, e, hs, PlainLane(file[..HEADER_SIZE]), h, keys, rebuilt, file, sidecar, r));
    HeadVouchedFor(lib, e, hs, file[..HEADER_SIZE], sidecar, head);
    LaneIs(file[..HEADER_SIZE]);
    PubliclyWellFormed(lib, file[..HEADER_SIZE]);
    var h := head.value.0;
    var exts := lib.readDir(ReadSection(file, h.dirOffset, h.dirLen)).value;
    KeptNotCritical(exts, h.payloadLen);
  }

  /** The data follows the header, and no section reaches past the end of the file nor over its size limit. */
  predicate SectionsInside(h: Header, fileLen: nat) {
    && h.dataOffset == HEADER_SIZE && HEADER_SIZE + h.dataLen <= fileLen && h.manifestOffset + h.manifestLen <= fileLen
    && h.dirOffset + h.dirLen <= fileLen && h.payloadOffset + h.payloadLen <= fileLen
    && h.manifestLen <= 0x800_0000 && h.dirLen <= 0x100_0000
  }

  /** No extension that must be understood, none twice, and every payload inside the payload region. */
  ghost predicate NoneCritical(exts: seq<Extension>, payloadLen: nat) {
    && (forall x :: x in exts ==> !x.critical && x.offset + x.length <= payloadLen)
    && forall i, j :: 0 <= i < j < |exts| ==> exts[i].id != exts[j].id
  }

  lemma {:induction false} KeptNotCritical(exts: seq<Extension>, payloadLen: nat)
    requires ValidExtensions(exts, payloadLen)
    ensures NoneCritical(DropMeta(exts), payloadLen) && forall x :: x in DropMeta(exts) ==> x in exts
  {
    if exts != [] {
      var front, last := exts[..|exts| - 1], exts[|exts| - 1];
      KeptNotCritical(front, payloadLen);
      assert forall x :: x in front ==> x in exts;
      assert forall x :: x in front ==> x.id != last.id;
      var kept := DropMeta(front);
      assert forall i :: 0 <= i < |kept| ==> kept[i] in front;
    }
  }

  lemma PubliclyWellFormed(lib: Library, image: Bytes)
    requires |image| == HEADER_SIZE
    ensures OpensPublicly(lib, image) ==> WellFormed(image)
  {
  }
}
