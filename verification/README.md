# AeroVault: a verified model of its content store and its error correction

AeroVault keeps files in one encrypted container and, beside or inside it, Reed-Solomon parity to
repair the container with. This project models both halves and proves, for all inputs and all runs,
what they are for:

* **The store is a map from path to bytes.** Files are cut by content, or batched into packs and then
  cut; chunks are shared by id, sealed, and appended as length-prefixed cells; deletion collects
  garbage; moves and copies rewrite a path tree. `Vault.OpenVault` is that object with its fields. Every
  method is proved to do to the plain tree (`Trees.Tree`) what its name says, for any argument or exactly
  for those for which that holds, and `Run` carries this over any sequence of operations, failed ones
  included: with nothing wrong outside the tree, a run is exactly the plain map's.
* **Repair restores, or does nothing.** A stream is cut into windows, shards and groups; shards whose
  checksum fails are erasures. Repair never changes a shard whose checksum matches, restores every
  group within its budget, leaves every other group alone, and the layers above adopt a result only when
  it verifies. Nothing is opened or handed out that the MAC or a recorded hash does not vouch for. A vault
  whose header and manifest are damaged within budget opens as it was sealed exactly under the two
  conditions given below.

## How the model is built

| files | what they are |
|---|---|
| `ByteSeqs`, `Words`, `Wrappers`, `Ordering`, `Paths` | bytes and little-endian integers, 64-bit words as numbers, results, sorting, vault paths |
| `Chunking`, `Packing` | the gear cutter on a whole buffer and on a stream; packs and the chunks that cover a member |
| `VaultTypes`, `Stores`, `Ingestion`, `Trees`, `Manifests` | one block; the chunk store and its tiling invariant; which chunks adding files stores; the plain tree; entries as a tree |
| `Directories`, `FileSteps`, `PackSteps`, `Batches`, `Collection`, `Relocation`, `Extraction` | each group of operations on the entries, for any argument, and what it means on the tree |
| `Vault`, `Runs`, `ManifestChecks`, `DamagedExtraction` | the vault; runs of operations; the path check at open; extracting from damaged data by any records |
| `ErasureCode`, `FieldCode`, `Shards`, `EcPayloads`, `ErrorCorrection` | what is asked of the code; a code over the field of 256 elements that has it; grid geometry; the payload codec; encoding |
| `Reconstruction`, `ParityRepair`, `EncodeRepair` | what repair writes and achieves; the repair and scan loops; encode, damage, repair |
| `AvecLengths`, `Sidecars`, `SidecarHealing`, `SidecarReaders`, `ReaderDifferences`, `Windows` | payload lengths and the reader's cap; the sidecar format; what damage it survives; its loops; files its readers disagree on; windows and size estimates |
| `StreamRepair`, `StreamGuarantees` | repairing a stream in memory and streamed; soundness, agreement, completeness |
| `VaultRepair`, `VaultRepairGuarantees`, `VaultSidecars` | scrub and repair of a vault; exact restoration; the vault's recovery file |
| `Headers`, `Containers`, `Opening`, `Authenticity`, `OpeningGuarantees` | the 1024-byte header; sealing and saving a container; opening one, damaged or not; what vouches for one that opens; which damage it survives |
| `LegacyVaults` | moving, copying and compacting in the older format |
| `Witnesses`, `PlainLibrary` | values that meet the hypotheses below |

Library code is a parameter with a stated hypothesis, never an axiom: `Primitives` and `Sound` (the probe
for incompressible chunks, compression, sealing), `Code` with `Shaped` and `AnyKDetermine` (erasure code),
`Engine` and `EngineOk` (shard checksums), `Hashes` and `HashesOk`, `Library` and `LibraryOk` (key
unwrapping, MAC, AEAD, JSON), `ChunkCipher` and `CipherOk`. The gear table is any sequence of 256 words. Hash collisions are not
assumed away: the vault has a ghost flag `collided`, set when a chunk is given the id of a different
stored chunk, and content claims hold while it is false; repair claims assume that a matching
checksum means an original shard (`Reconstruction.Truthful`).

Integers are unbounded; where the source's 64-bit arithmetic can matter (checked payload lengths,
saturating estimates, field widths) it is written out.

## Where the code does not do what it seems to promise

Each is stated with the exact condition under which the promise holds.

* **The sidecar writer exceeds its reader's cap** exactly for windows of 16385 to 16412 bytes at 10 to
  44 percent, so a sidecar generated at the default level for such a file is refused by its own reader
  (`AvecLengths.WithinCapExactly`, `StreamGuarantees.GeneratedReadsBack`).
* **One flipped bit can lock a vault that its recovery file would save.** Opening takes the lane from the
  header as found, before anything vouches for it. A damaged header that says the content is not encrypted is
  refused at once, and the recovery file, which the documentation says a damaged header is rebuilt from, is
  never read (`OpeningGuarantees.OneBitLocksOut`). A header whose damage that file undoes comes back exactly
  when it is whole, or the content is encrypted and the bytes as found neither say otherwise nor are ones the
  password opens (`HeaderReturns`); so it does whenever their MAC fails and their lane bit is clear
  (`FailedMacIsRebuilt`). On the plaintext lane a damaged header never comes back (`PlainHeaderStaysLost`).
* **Embedded parity can stop the recovery file from being used.** For a manifest that does not decode, that file
  is read exactly when the embedded parity is absent or empty or leaves the manifest as found
  (`OpeningGuarantees.RecoveryFileUsed`). One damaged byte at the start of the embedded parity, and the opening
  ends there, whatever the recovery file holds (`RefusedParityStops`). A manifest that still decodes is
  taken as it is. `DamagedVaultOpens` puts both conditions together for the whole file.
* **The writer writes locators its readers refuse**: exactly those over the region the readers buffer
  (`SidecarHealing.LocatorTooLarge`, `StreamGuarantees.GeneratedReadsBack`).
* **Path normalisation is not idempotent.** It strips blanks, then slashes, once each, so normalising again
  changes nothing exactly when no blank is left at either end of the argument (`Paths.NormalizeTwice`);
  `"/ a"` gives `" a"`, which gives `"a"` (`NormalizeNotIdempotent`). Making a directory normalises every
  parent again on the way up. In a well-formed vault, and for any argument, the manifest that leaves can be
  opened again exactly when stripping leaves no blank at the ends and no part all blanks after a blank,
  and every path keeps its parents exactly when it leaves no blank at the ends or before a slash
  (`Directories.MkdirAnyArgument`). So `"/ a"` makes a vault that is refused when opened
  (`SlashBlankCannotReopen`), and `"x /y"` one that opens but lacks the directory `"x "`
  (`BlankParentIsMissing`). The same conditions hold for adding files, singly or in batches, and for
  moving and copying to a path (`FileSteps.FileAnyPath`, `Relocation.MoveMeansMove`).
* **A move can report success and move nothing**: the check before a move or copy normalises the paths once
  more than the work does, so with `"a"` in the vault `"a /"` passes as a source
  (`Relocation.BlankEndMovesNothing`). To a good destination a source moves as it should exactly when its own
  argument is good; one that is not moves nothing that was there, to any destination
  (`Relocation.MoveMeansMove`). In a vault that holds both `"a"` and `"a "`, a move of `"a /"` to `"a"` leaves
  two entries at one path (`MoveOntoAnother`).
* **Chunk bounds may exceed what extraction accepts.** Every form in which a chunk may be stored is within
  the block limit exactly when the largest chunk and what protecting it adds are
  (`Extraction.FitIsExact`); where they are not, a largest chunk stored raw can be written and not read
  (`OversizedIsRefused`), and bounds of 128 MiB pass the check and make one such chunk of every file of
  that size (`WideBoundsAccepted`, `WideFileIsRefused`). `Extraction.ExtractionIff` says exactly which
  entries extract.
* **Extracting a directory can fail where extracting its files succeeds**: the path inside the directory is
  checked as a path of its own. It is accepted exactly when, without the blanks and then the slashes
  it starts with, it is no drive and does not start with a dot part (`Paths.RelativeNormalizes`). `"a/b:c"` and
  `"a/ .."` can be stored and fail it (`DriveInsideDirectory`, `DotsInsideDirectory`).
* **Batches reorder files**: large files first, then small ones by path. A batch succeeds exactly when its
  files would in the order given, and leaves the same tree exactly when, at every path with a small
  file, the last file given there is small too or has the same bytes (`Batches.BatchOrderShows`). A small
  file and then a large one at one path leave the small one (`SmallOvertakes`).
* **The two sidecar readers differ**: what the in-memory reader accepts the streaming reader accepts. The
  streaming one opens a file the other refuses exactly when the first tried count that leads to a locator
  has bad fields there and another tried count has good ones (`Sidecars.ReadersPart`): never when the three
  slots agree (`SameSlotsAgree`), and, whatever the hash functions are, for the 669 bytes of
  `ReaderDifferences.StreamingReaderAcceptsMore`.
* **The sidecar's format document says the segment count is recovered byte by byte**, in its section on
  locator recovery; the code tries whole slots (aerovault/src/error_correction/sidecar.rs:339-352). The original
  directory is the one read exactly when the first tried count that is not zero, fits the file and leads to a
  locator is the true one (`SidecarHealing.OriginalIsRead`). Two whole slots are enough, and so is one when
  what the others hold leads nowhere (`TwoSlotsSuffice`, `OneSlotSuffices`); three slots that a vote byte by
  byte would mend are refused (`ReaderDifferences.VotedCountIsNotTried`).

## Model

| member | source | states |
|---|---|---|
| Chunking.ChunkRangesWith | aerovault/src/v3/chunking.rs:90-117 | the loop's ranges follow one another from 0 to the end of the input, delimit its chunks, and none is longer than the maximum nor, but for the last, shorter than the minimum; for valid bounds each ends where `FirstCutWhere` says |
| Chunking.FirstCutWhere | aerovault/src/v3/chunking.rs:87-117 | for valid bounds the first chunk ends at a length if and only if that is the first from the minimum on at which the hash of the bytes so far, as a number, is a multiple of the average size, or the maximum if there is none before, or the end |
| Chunking.RollingIs | aerovault/src/v3/chunking.rs:104-105 | rotating and adding, byte by byte, is arithmetic modulo 2^64: twice the hash with its top bit brought round, plus the entry |
| Words.MaskDivides | aerovault/src/v3/chunking.rs:99-107 | masking with one less than a power of two leaves nothing exactly when that power divides the word as a number |
| Words.RotationIsNotAdditive | aerovault/src/v3/chunking.rs:104-105 | rotation does not distribute over the wrapping addition, so the hash is no sum of rotated entries |
| Chunking.ZeroTableCuts | aerovault/src/v3/chunking.rs:90-117 | with a table of zeros every chunk but the last has the minimum length |
| Chunking.ChunksCover | aerovault/src/v3/chunking.rs:90-117 | chunks concatenate to the input and have the promised sizes |
| Chunking.RangesDelimitChunks | aerovault/src/v3/chunking.rs:90-117 | ranges delimit exactly the chunks, in place |
| Chunking.CutSplitsChunks | aerovault/src/v3/chunking.rs:90-117 | a position is a cut if and only if both sides are cut as they would be alone |
| Chunking.Resynchronise | aerovault/src/v3/chunking.rs:90-117 | after a common cut two streams with the same tail are cut identically |
| Chunking.StreamingChunker.constructor | aerovault/src/v3/chunking.rs:151-162 | a fresh chunker has everything still to emit |
| Chunking.StreamingChunker.Fill | aerovault/src/v3/chunking.rs:169-178 | one read of any length keeps the scan and adds at most one refill to the buffer |
| Chunking.StreamingChunker.NextChunk | aerovault/src/v3/chunking.rs:183-218 | for every schedule of short reads the next chunk is the whole-buffer cutter's first chunk of what remains; the buffer stays bounded; it terminates; it fails only if the source does, and does not end before a source that fails has |
| Chunking.ChunkStream | aerovault/src/v3/chunking.rs:132-218 | draining the chunker yields exactly the whole-buffer chunks, and succeeds exactly when reading the source to its end does |
| Packing.BatchesPartition | aerovault/src/v3/packing.rs:35-58 | packs partition the small files in order and each closes when it first reaches the target |
| Packing.AssemblePacks | aerovault/src/v3/packing.rs:35-58 | the loop builds exactly the packs of the files sorted by path |
| Packing.MemberSpan | aerovault/src/v3/packing.rs:35-58 | a member's recorded span of its pack is the file's bytes |
| Packing.CoveringSlice | aerovault/src/v3/packing.rs:64-86 | for any contiguous chunking, the covering chunks sliced at the recorded offset are the member's bytes |
| Packing.Cover | aerovault/src/v3/packing.rs:64-86 | the loop finds exactly the covering chunks and the offset in the first, and fails exactly when none covers |
| Packing.ClampedWrite | aerovault/src/v3/vault.rs:1608-1619 | what the clamped write of one block adds is that block's part of the wanted slice |
| Paths.NormalizeTwice | aerovault/src/v3/vault.rs:646-659 | normalising what normalising gave changes nothing if and only if stripping leaves no blank at either end of the argument |
| Paths.NormalizeNotIdempotent | aerovault/src/v3/vault.rs:646-659 | a path on which normalising twice differs from once |
| Paths.CanonicalIsShape | aerovault/src/v3/vault.rs:622-659 | the fixed points of normalisation, spelled out |
| Paths.CleanIffAncestorsCanonical | aerovault/src/v3/vault.rs:744-746 | all ancestors of a canonical path are canonical if and only if no component ends in a blank |
| Paths.BlankBeforeSlashIsNotClean | aerovault/src/v3/vault.rs:744-746 | a canonical path whose parent is not canonical |
| Paths.RemapOneToOne | aerovault/src/v3/vault.rs:1275-1281 | remapping a subtree is one to one, lands in the destination, and is undone by remapping back |
| Paths.RelativeNormalizes | aerovault/src/v3/vault.rs:2271-2281 | the path of an entry inside a directory above it is accepted if and only if, without leading blanks and then slashes, it is no drive and does not start with a dot part |
| Paths.DriveInsideDirectory | aerovault/src/v3/vault.rs:2271-2281 | an entry that can be stored but not extracted with its directory |
| Paths.DotsInsideDirectory | aerovault/src/v3/vault.rs:2271-2281 | another, with no drive in sight: a blank hid the dots |
| Trees.BelowAt | aerovault/src/v3/vault.rs:2262-2281 | what is below a directory, path by path |
| VaultTypes.StoredBlockDecodes | aerovault/src/v3/vault.rs:877-944 | the block ingest stores, raw or compressed, sealed or plain, decodes to the chunk |
| Ingestion.StoredIsRecorded | aerovault/src/v3/vault.rs:877-944 | a new chunk is recorded as kept raw exactly when it is held incompressible or its compressed form is no shorter, and what is kept is never longer than it |
| VaultTypes.ReadCellAt | aerovault/src/v3/vault.rs:1538-1572 | a cell in the data section is fetched whole, unless its block is over the block limit |
| VaultTypes.EffectiveBoundsFit | aerovault/src/v3/manifest.rs:200-208 | the effective chunk bounds never let a chunk exceed the plaintext a block may declare |
| Stores.StoreRead | aerovault/src/v3/vault.rs:1538-1572 | in a sound store every record fetches its own block, unless over the limit |
| Stores.StoreAppend | aerovault/src/v3/vault.rs:903-938 | appending a cell at the end keeps the records, in index order, tiling the data section |
| Stores.CompactedStoreOk | aerovault/src/v3/vault.rs:1160-1225 | keeping the live cells in index order gives a sound store again |
| Stores.OffsetsFollowIndices | aerovault/src/v3/ec.rs:218-243 | in a sound store, sorting by data offset is sorting by block index |
| Trees.TreeOkMeaning | aerovault/src/v3/vault.rs:674-692 | in a well-formed tree no file has descendants and every path has only canonical ancestors |
| Trees.MkdirKeepsTree | aerovault/src/v3/vault.rs:795-832 | making a directory keeps the tree well formed |
| Trees.AddFileKeepsTree | aerovault/src/v3/vault.rs:946-1006 | adding or replacing a file keeps it well formed |
| Trees.DeleteKeepsTree | aerovault/src/v3/vault.rs:1227-1273 | deleting keeps it well formed |
| Trees.DeleteMeaning | aerovault/src/v3/vault.rs:1227-1273 | in a well-formed tree a deletion succeeds exactly when the path is there and, unless recursive, nothing is below it, and takes away both |
| Trees.MoveKeepsTree | aerovault/src/v3/vault.rs:1305-1322 | moving keeps it well formed |
| Trees.RelocationSucceeds | aerovault/src/v3/vault.rs:1283-1303 | in a well-formed tree a move or a copy to another path succeeds exactly when the source is there, nothing is at or below the destination, no file above it, and it is not inside the source |
| Trees.CopyKeepsTree | aerovault/src/v3/vault.rs:1324-1351 | copying keeps it well formed |
| Trees.MoveMeaning | aerovault/src/v3/vault.rs:1283-1322 | a move carries the subtree one to one onto the destination, leaves the rest, creates only missing ancestors |
| Trees.CopyMeaning | aerovault/src/v3/vault.rs:1283-1351 | a copy does the same and also keeps the source |
| Trees.MoveBack | aerovault/src/v3/vault.rs:1305-1322 | moving back undoes a move that made no directory |
| Trees.AddAllMeaning | aerovault/src/v3/vault.rs:1090-1155 | adding files, at whatever paths, succeeds exactly when each is addable, and leaves at each path the last of them |
| Trees.AddOrderMatters | aerovault/src/v3/vault.rs:1090-1155 | two batches of the same files both succeed or both fail, and leave the same tree if and only if the last file at each path has the same bytes in both |
| Manifests.TreeRelocate | aerovault/src/v3/vault.rs:1305-1322 | renaming entries in place is the move on the tree |
| Manifests.TreeClones | aerovault/src/v3/vault.rs:1324-1351 | pushing renamed clones is the copy on the tree |
| Manifests.TreeRetain | aerovault/src/v3/vault.rs:1227-1273 | retaining entries removes exactly their nodes |
| Manifests.TreePush | aerovault/src/v3/vault.rs:994-1001 | pushing an entry adds exactly its node |
| Manifests.TreeSort | aerovault/src/v3/vault.rs:791-793 | sorting entries leaves the tree alone |
| Manifests.TreeLedger | aerovault/src/v3/vault.rs:877-944 | growing the store leaves every entry's bytes alone |
| Directories.MkdirEntriesIsMkdir | aerovault/src/v3/vault.rs:795-825 | for a good argument, what making a directory does to the entries is the tree's mkdir |
| Directories.MkdirAnyArgument | aerovault/src/v3/vault.rs:795-825 | for any argument in a well-formed vault: when the manifest left behind can be opened again, and when its tree is well formed, by the argument alone |
| Directories.SlashBlankCannotReopen | aerovault/src/v3/vault.rs:795-825 | an argument that makes a manifest refused at open |
| Directories.BlankParentIsMissing | aerovault/src/v3/vault.rs:795-825 | one that makes a manifest which opens but lacks a parent |
| Directories.ParentsAreDirs | aerovault/src/v3/vault.rs:827-832 | for a clean path, exactly the missing ancestors are made, or a file stands above it |
| FileSteps.RoomSpares | aerovault/src/v3/vault.rs:951-968 | for any path, making room takes away at most the file there and adds directories alone |
| FileSteps.FileAnyPath | aerovault/src/v3/vault.rs:946-1006 | for any path: when the manifest with the file in it can be opened again, and when its tree is well formed |
| Batches.BatchOrderShows | aerovault/src/v3/vault.rs:1090-1155 | for all jobs: a batch succeeds exactly when its files would in the order given, and leaves the same tree if and only if no path's last small file is overtaken by a large one with other bytes |
| Batches.SmallOvertakes | aerovault/src/v3/vault.rs:1090-1155 | a batch whose last file is not the one left |
| Batches.SaneHasNoFault | aerovault/src/v3/vault.rs:1090-1155 | when every target is a path, every file can be looked at and read, the bounds are valid and every chunk can be stored, there is no reason outside the tree for a batch to fail |
| PackSteps.PackedEntry | aerovault/src/v3/vault.rs:1012-1085 | the entry recorded for a pack member has the member's bytes as content |
| PackSteps.FoundIsCover | aerovault/src/v3/vault.rs:1056-1073 | the loop written out in `flush_pack` finds what the separate `cover` finds |
| Collection.PackLive | aerovault/src/v3/vault.rs:1160-1225 | the copying loop of garbage collection lays the live cells end to end and relocates their records, or fails on a block over the limit |
| Relocation.PreparedIs | aerovault/src/v3/vault.rs:1283-1303 | in a well-formed vault the check before a move is the tree's, on arguments normalised once more |
| Relocation.MoveMeansMove | aerovault/src/v3/vault.rs:1305-1322 | for any arguments: good ones move as the tree does; a good source is carried, node for node, to any destination, and the tree stays well formed, and the manifest can be opened again, exactly for the destinations described above; a source that is not good moves nothing that was there, to any destination, and yet succeeds |
| Relocation.CopyMeansCopy | aerovault/src/v3/vault.rs:1324-1351 | for any arguments: good ones copy as the tree does; a good source is duplicated at any destination, and the tree stays well formed, and the manifest can be opened again, exactly for those destinations; a source that is not good is not found at a good one and adds directories alone at another |
| Relocation.GoodArgsAnywhere | aerovault/src/v3/vault.rs:1305-1351 | in any consistent vault, well formed or not, good arguments carry or duplicate the subtree, and an error changes nothing |
| Relocation.MoveOntoAnother | aerovault/src/v3/vault.rs:1305-1322 | other arguments can leave two entries at one path |
| Relocation.BlankEndMovesNothing | aerovault/src/v3/vault.rs:1305-1351 | a move that succeeds and moves nothing |
| Extraction.ExtractionIff | aerovault/src/v3/vault.rs:1478-1639 | extraction succeeds exactly when every chunk it needs is within the block limit, and then yields the content |
| Extraction.ExtractedContent | aerovault/src/v3/vault.rs:1478-1639 | the same for an entry of the vault; with bounds that leave room every file extracts to its content |
| Extraction.FitMeansWithinLimit | aerovault/src/v3/chunking.rs:51-64 | with such bounds no stored block is over the limit |
| Extraction.FitIsExact | aerovault/src/v3/vault.rs:877-944 | every form in which any chunk may be stored is within the limit if and only if the bounds leave room |
| Extraction.OversizedIsRefused | aerovault/src/v3/vault.rs:1538-1572 | for every setup whose bounds do not, a largest chunk stored raw makes a sound store from which its file cannot be extracted |
| Extraction.WideBoundsAccepted | aerovault/src/v3/chunking.rs:51-64 | bounds that are accepted, leave no room, and make one chunk of every file of 128 MiB |
| Extraction.WideFileIsRefused | aerovault/src/v3/vault.rs:1538-1572 | so under them such a file, stored raw, is recorded as it should be and cannot be extracted |
| DamagedExtraction.NothingUnvouched | aerovault/src/v3/vault.rs:1530-1577 | with any records and any data section, when an extraction succeeds every chunk it needs is at its recorded offset with its recorded length, within the limits, and with a block whose hash is the recorded one |
| DamagedExtraction.NothingCutShort | aerovault/src/v3/vault.rs:1578-1606 | and each opens and holds, or inflates to, exactly as much as is recorded |
| DamagedExtraction.DamagedExtractsOrErrs | aerovault/src/v3/vault.rs:1478-1639 | from a vault that was sound and whose data was damaged in any way the hash tells, extraction yields the content or an error; an error exactly when a needed chunk is no longer intact or is over the block limit |
| ManifestChecks.ValidateManifestPaths | aerovault/src/v3/vault.rs:674-692 | the check at open accepts exactly unique canonical paths |
| ManifestChecks.ReachableManifestsReopen | aerovault/src/v3/vault.rs:674-692 | every manifest of a valid vault passes it |
| Vault.OpenVault.constructor | aerovault/src/v3/vault.rs:1764-1885 | an empty vault is valid and denotes the empty tree |
| Vault.OpenVault.EnsureNoFileAncestor | aerovault/src/v3/vault.rs:776-789 | for any entries, fails exactly when one of them is a file above the path |
| Vault.OpenVault.CreateDirectory | aerovault/src/v3/vault.rs:795-825 | for any argument, what is made of the entries; for a good one, the tree's mkdir with its errors; on success the vault stays valid, and can be opened again, exactly for the arguments described above |
| Vault.OpenVault.EnsureParents | aerovault/src/v3/vault.rs:827-832 | for any path, what is made of the entries; for a clean one, exactly the missing ancestors, or no change |
| Vault.OpenVault.NextBlockIndex | aerovault/src/v3/manifest.rs:253-261 | one more than the largest index in use |
| Vault.OpenVault.IngestChunk | aerovault/src/v3/vault.rs:877-944 | succeeds exactly when the chunk is there or can be stored; shares the stored chunk or appends one cell and records it as the last; keeps the tiling and every entry; flags a collision exactly when there is one |
| Vault.OpenVault.MakeRoom | aerovault/src/v3/vault.rs:951-968 | for any path, the room made and everything else spared; for a clean one, exactly when a file may go there |
| Vault.OpenVault.IngestStream | aerovault/src/v3/vault.rs:980-992 | records the chunks of the whole stream and its length; fails only for a source that fails or a chunk that cannot be stored |
| Vault.OpenVault.AppendFileAt | aerovault/src/v3/vault.rs:946-1006 | for any argument, on success the file is there with its bytes, and always the rest is spared; for a good one it is the tree's add-or-replace, with its errors; on success the vault stays valid, and can be opened again, exactly for the arguments described above; the store gains exactly the file's chunks; for a good argument and a file that can be read and stored it succeeds exactly when the tree lets it |
| Vault.OpenVault.IngestPack | aerovault/src/v3/vault.rs:1025-1030 | stores a pack as contiguous placed chunks; fails only for a chunk that cannot be stored |
| Vault.OpenVault.RecordMember | aerovault/src/v3/vault.rs:1039-1083 | one pack member becomes an entry at its path with its bytes, the rest spared; for a clean path as the tree says |
| Vault.OpenVault.FlushPack | aerovault/src/v3/vault.rs:1012-1085 | every member of a pack lands under its path, and failed or not the rest is spared; for clean paths as the tree says |
| Vault.OpenVault.AppendSmall | aerovault/src/v3/vault.rs:1126-1150 | all small files land, by path, and failed or not the rest is spared; for clean paths as the tree says; the store gains exactly the chunks of the packs of the sorted files |
| Vault.OpenVault.AppendLarge | aerovault/src/v3/vault.rs:1090-1120 | the first pass over a batch adds the large files and keeps the small ones, or fails as the batch does, for its reasons |
| Vault.OpenVault.AppendSourcesBatched | aerovault/src/v3/vault.rs:1090-1155 | for any jobs, on success the last file of each path is there, and failed or not every other path keeps its node; for good jobs the result is the tree's in batch order, with its errors; on success the vault stays valid exactly for good jobs, and can be opened again exactly for jobs described above; the store gains exactly the chunks of the large files and of the packs; good jobs whose files can be read and stored succeed exactly when all can be added |
| Vault.OpenVault.CompactLiveChunks | aerovault/src/v3/vault.rs:1160-1225 | keeps exactly the referenced records, changes only offsets, keeps every entry's bytes; fails exactly when a live block is over the limit |
| Vault.OpenVault.DeleteEntries | aerovault/src/v3/vault.rs:1227-1273 | in any consistent vault, is the tree's deletions in turn, with their errors, then garbage collection; leaves exactly what those before the first that fails leave; a valid vault stays valid |
| Vault.OpenVault.PrepareRelocation | aerovault/src/v3/vault.rs:1283-1303 | for any arguments, which of the refusals there is; in a valid vault, the tree's |
| Vault.OpenVault.MoveEntry | aerovault/src/v3/vault.rs:1305-1322 | for any arguments, what is made of the entries, and in a valid vault what that means; errors change nothing |
| Vault.OpenVault.CopyEntry | aerovault/src/v3/vault.rs:1324-1351 | for any arguments, what is made of the entries, and in a valid vault what that means |
| Vault.OpenVault.ExtractFileEntry | aerovault/src/v3/vault.rs:1487-1639 | block by block with clamped writes and early stop, yields the slice of the decoded stream, with every check's error |
| Vault.OpenVault.ExtractDirectory | aerovault/src/v3/vault.rs:2241-2302 | in any consistent vault and unless chunks collided, succeeds exactly when every path below normalises, whole and on its own, and every chunk needed is within the block limit, and then yields what is below; in a valid one the first is the condition described above |
| Vault.OpenVault.ExtractEntry | aerovault/src/v3/vault.rs:2208-2309 | the same for the file or directory at a path, explicit or implied by what is below; nothing there is an error |
| Vault.OpenVault.Apply | aerovault/src/v3/vault.rs:464-562 | in any consistent vault an operation does what its kind can do to the tree; in a valid one a good operation is the plain map's, or fails, for its reason or one from outside, and leaves what such a failure leaves; additions and directories keep the vault valid exactly when they are good; with no reason to fail from outside it is exactly the plain map's, failed or not |
| Vault.OpenVault.Run | aerovault/src/v3/vault.rs:877-1351 | along any run on a consistent vault, failures included, every step is so; good operations on a valid vault keep it valid; and if none has a reason to fail from outside and no two chunks collide, results and tree are exactly the plain map's |
| Runs.AllSucceed | aerovault/src/v3/vault.rs:464-563 | a run of good operations in which nothing fails ends where they take the plain map |
| Runs.HealthyRun | aerovault/src/v3/vault.rs:464-563 | a run of good operations with no reason to fail from outside is exactly the plain map's: what can succeed does, what cannot fails with its reason, and the tree is what they leave |
| Runs.SaneStep | aerovault/src/v3/vault.rs:464-563 | the same for one operation |
| Runs.RunLeaves | aerovault/src/v3/vault.rs:464-563 | whatever fails, and whatever the arguments, a path that no operation takes away or replaces is at the end what it was at the start |
| FieldCode.FieldCodeIsMds | aerovault/src/error_correction/mod.rs:325-350 | the hypotheses on the code can be met: one code, with one or two parity shards, from any K of whose shards the rest follows, for every group size in use |
| Witnesses.EngineExists | aerovault/src/error_correction/mod.rs:75-81 | one engine meets every hypothesis at every overhead |
| Shards.PutShardAt | aerovault/src/error_correction/mod.rs:474-486 | writing a shard back changes its slice, drops its padding, and no other slice |
| Shards.SlicesDetermine | aerovault/src/error_correction/mod.rs:424-432 | a stream is determined by its slices |
| Shards.VirtualShardIsZero | aerovault/src/error_correction/mod.rs:448-452 | slots past the stream are zero shards |
| EcPayloads.HeaderRoundTrip | aerovault/src/error_correction/mod.rs:109-147 | a written payload header reads back, whatever its reserved bytes and what follows |
| EcPayloads.HeaderCanonical | aerovault/src/error_correction/mod.rs:121-147 | an accepted header re-encodes to its own bytes, up to the reserved ones |
| EcPayloads.ExpectedLenExact | aerovault/src/error_correction/mod.rs:196-225 | the checked length arithmetic fails exactly when the true length does not fit in 64 bits |
| EcPayloads.ParseSerialize | aerovault/src/error_correction/mod.rs:175-250 | parsing inverts serialising |
| EcPayloads.SerializeParse | aerovault/src/error_correction/mod.rs:175-250 | what parses is well formed and serialises to the same bytes, up to the reserved ones |
| EcPayloads.ToBytes | aerovault/src/error_correction/mod.rs:175-188 | the writing loops produce the serialised form |
| EcPayloads.FromBytes | aerovault/src/error_correction/mod.rs:190-250 | the reading loops are the parse |
| ErrorCorrection.GridBounds | aerovault/src/error_correction/mod.rs:75-81 | every level gives 4 to 20 data and 1 or 2 parity shards |
| ErrorCorrection.GridNearest | aerovault/src/error_correction/mod.rs:75-81 | no other number of data shards comes nearer to the level, clamped to 5 to 50 percent |
| ErrorCorrection.ComputeShards | aerovault/src/error_correction/mod.rs:275-364 | the encoder's loops produce the payload that protects the concatenated blocks, and its counts |
| ErrorCorrection.ParityIndex | aerovault/src/error_correction/mod.rs:325-350 | parity shard g*P+p is shard p of group g |
| ErrorCorrection.ProtectionWellFormed | aerovault/src/error_correction/mod.rs:275-364 | the encoder's payload is well formed |
| ErrorCorrection.ProtectionParity | aerovault/src/error_correction/mod.rs:455-466 | reconstruction finds each parity shard where the encoder put it |
| Reconstruction.FillIffWithinBudget | aerovault/src/error_correction/mod.rs:468-473 | a group can be filled exactly when its damaged data shards are at most its matching parity shards |
| Reconstruction.BudgetMeans | aerovault/src/error_correction/mod.rs:441-473 | that is, when no more of its data shards fail to hash to their recorded checksums than parity shards do |
| Reconstruction.RecoveredCounts | aerovault/src/error_correction/mod.rs:436-490 | the shards a repair reports are the mismatched ones of the groups in which parity can make up for them |
| Reconstruction.MatchingShardsKept | aerovault/src/error_correction/mod.rs:440-490 | repair with any payload never alters a matching shard, nor any group over budget |
| Reconstruction.RepairRestores | aerovault/src/error_correction/mod.rs:392-503 | for any stream, group size and damage to data, parity or checksums: groups within budget are restored and the others untouched; the stream is restored if and only if every shard that differs is in a group within budget |
| Reconstruction.IntactParityIsTruthful | aerovault/src/error_correction/mod.rs:275-364 | undamaged parity is truthful when no two shards in play share a checksum |
| ParityRepair.Reconstruct | aerovault/src/error_correction/mod.rs:392-503 | the in-place repair of blocks: its errors, its result, the returned count, every block's length kept |
| ParityRepair.Reslice | aerovault/src/error_correction/mod.rs:493-501 | the repaired stream is put back over the blocks |
| ParityRepair.Scan | aerovault/src/error_correction/mod.rs:530-606 | what each health counter grows by, or that nothing changes |
| ParityRepair.ScanAgrees | aerovault/src/error_correction/mod.rs:438-490 | the scan's unrecoverable groups are exactly those repair cannot fill; recovered shards and those in such groups make up the damaged ones |
| ParityRepair.ScanAfterRepair | aerovault/src/error_correction/mod.rs:569-603 | with intact checksums a scan after repair finds damage only in the groups repair skipped |
| EncodeRepair.FreshPayloadAccepted | aerovault/src/error_correction/mod.rs:275-424 | what the encoder writes is accepted for any stream of that length |
| EncodeRepair.EncodeDamageRepair | aerovault/src/error_correction/mod.rs:275-503 | encode, damage at most P data shards a group, repair: the original stream |
| AvecLengths.GridLevels | aerovault/src/error_correction/mod.rs:75-81 | the group sizes by level band |
| AvecLengths.OneGroup | aerovault/src/error_correction/mod.rs:289-297 | a stream of at most K maximal shards is one group, of shards of the least size that fits, and what its payload weighs |
| AvecLengths.ManyGroups | aerovault/src/error_correction/mod.rs:289-297 | a larger stream uses shards of the maximal size |
| AvecLengths.AvecLenFits | aerovault/src/error_correction/sidecar.rs:571-593 | no 64-bit stream length overflows the payload length, at any level |
| AvecLengths.ProtectLength | aerovault/src/error_correction/sidecar.rs:571-593 | the closed form is the length of the payload the encoder writes |
| AvecLengths.WithinCapExactly | aerovault/src/error_correction/sidecar.rs:595-604 | the encoder's payload is within the reader's cap if and only if not (10 to 44 percent and 16385 to 16412 bytes) |
| AvecLengths.ShortestTooLong | aerovault/src/error_correction/sidecar.rs:595-604 | 16385 bytes at 15 percent: 8336 written, 8322 allowed |
| Sidecars.MajorityFirst | aerovault/src/error_correction/sidecar.rs:339-352 | a count two slots hold is tried first |
| Sidecars.AcceptedPrefix | aerovault/src/error_correction/sidecar.rs:197-212 | what either reader accepts starts with the magic number and the version and has all three counts |
| Sidecars.StreamingReaderFollows | aerovault/src/error_correction/sidecar.rs:755-821 | whatever the in-memory reader accepts the streaming reader opens, serving the same locator and payloads |
| Sidecars.ReadersPart | aerovault/src/error_correction/sidecar.rs:755-821 | for every file: the streaming reader opens what the other refuses if and only if the first count that leads to a locator has bad fields and another tried count has good ones |
| Sidecars.LaterCount | aerovault/src/error_correction/sidecar.rs:755-821 | that other count is tried later, with nothing found before the first |
| Sidecars.SameSlotsAgree | aerovault/src/error_correction/sidecar.rs:755-821 | with three equal slots the readers accept the same files |
| SidecarHealing.RecordsDecode | aerovault/src/error_correction/sidecar.rs:476-522 | written directory records decode to themselves, or are refused exactly when a payload is over its cap |
| SidecarHealing.LocatorSurvives | aerovault/src/error_correction/sidecar.rs:401-438 | under the true count the original directory is recovered when the copies give it |
| SidecarHealing.LocatorGiven | aerovault/src/error_correction/sidecar.rs:401-438 | in a file of the right length with a whole prefix, only then |
| SidecarHealing.RecoversWhat | aerovault/src/error_correction/sidecar.rs:401-438 | the directory recovered is a given one if and only if it is the first copy that passes; or none passes, it is self-consistent, and each of its bytes is in two copies, or in the first while the three differ |
| SidecarHealing.TwoCopiesSuffice | aerovault/src/error_correction/sidecar.rs:401-438 | it is enough that each byte is whole in two copies and that a copy that passes is the original |
| SidecarHealing.OriginalIsRead | aerovault/src/error_correction/sidecar.rs:214-238 | whatever the slots hold, the original directory is the one read if and only if the first count that is not zero, fits and leads to a locator is the true one |
| SidecarHealing.TwoSlotsSuffice | aerovault/src/error_correction/sidecar.rs:339-352 | two whole slots are enough for that |
| SidecarHealing.OneSlotSuffices | aerovault/src/error_correction/sidecar.rs:339-352 | so is one, when what the others hold leads nowhere |
| SidecarHealing.SelfHeals | aerovault/src/error_correction/sidecar.rs:214-238 | then the sidecar reads back to its own locator with every payload header restored, whatever the payloads hold |
| SidecarHealing.HealedPayloadParses | aerovault/src/error_correction/sidecar.rs:526-553 | a healed payload parses with its original geometry |
| SidecarHealing.WrittenParts | aerovault/src/error_correction/sidecar.rs:174-195 | the sidecar's layout: prefix, three counts, three directories, parity |
| SidecarHealing.RoundTrip | aerovault/src/error_correction/sidecar.rs:174-238 | what is written is read back exactly, unless a payload is over its cap |
| SidecarHealing.LocatorTooLarge | aerovault/src/error_correction/sidecar.rs:373-393 | a larger locator is written and refused by both readers |
| ReaderDifferences.StreamingReaderAcceptsMore | aerovault/src/error_correction/sidecar.rs:790-801 | whatever the hash functions are, bytes the streaming reader opens and the in-memory reader refuses |
| ReaderDifferences.VotedCountIsNotTried | aerovault/src/error_correction/sidecar.rs:339-352 | a sidecar undamaged but for its slots, which a vote byte by byte would mend, is refused |
| SidecarReaders.EncodeDirectory | aerovault/src/error_correction/sidecar.rs:157-172 | the loop writes the directory |
| SidecarReaders.WriteSidecar | aerovault/src/error_correction/sidecar.rs:174-195 | the loops write the sidecar |
| SidecarReaders.OrderCandidates | aerovault/src/error_correction/sidecar.rs:339-352 | the loops give majority counts first, then the rest, without repeats |
| SidecarReaders.RecoverDirectory | aerovault/src/error_correction/sidecar.rs:401-438 | the loop takes the first passing copy or the byte vote |
| SidecarReaders.VoteByte | aerovault/src/error_correction/sidecar.rs:416-430 | the counting loop elects the byte two copies have, or the first copy's when the three differ |
| SidecarReaders.ParseFields | aerovault/src/error_correction/sidecar.rs:476-522 | the loop decodes and bounds-checks every record |
| SidecarReaders.ReadFromMemory | aerovault/src/error_correction/sidecar.rs:214-238 | the search over candidate counts |
| SidecarReaders.ReadSegments | aerovault/src/error_correction/sidecar.rs:526-553 | payloads are cut out and their headers healed |
| SidecarReaders.OpenForStreaming | aerovault/src/error_correction/sidecar.rs:755-821 | the streaming search, from the head of the file alone |
| Windows.ComputeWindows | aerovault/src/error_correction/sidecar.rs:618-631 | the loop's windows |
| Windows.FromTiles | aerovault/src/error_correction/sidecar.rs:618-631 | windows tile the stream and none is longer than asked |
| Windows.ValidateTiling | aerovault/src/error_correction/sidecar.rs:660-694 | accepts exactly the lists of windows that tile the stream |
| Windows.TilesDetermine | aerovault/src/error_correction/sidecar.rs:660-694 | streams that agree on every window of a tiling agree |
| Windows.BuildWindowed | aerovault/src/error_correction/sync.rs:117-137 | the loop builds the sidecar with one protected segment a window |
| Windows.EstimateExact | aerovault/src/error_correction/sidecar.rs:637-653 | the saturating closed form is the exact sum, or all ones when that does not fit |
| Windows.EstimateIsTrueLength | aerovault/src/error_correction/sync.rs:111-137 | that sum is the serialised length of the generated sidecar |
| StreamRepair.RepairPart | aerovault/src/error_correction/sync.rs:364-368 | one window repaired on a copy |
| StreamRepair.RepairWindows | aerovault/src/error_correction/sync.rs:359-369 | every window is repaired from its own payload, or the first unusable one stops the repair |
| StreamRepair.CheckSidecar | aerovault/src/error_correction/sync.rs:323-345 | binding, length and tiling, in that order |
| StreamRepair.VerifyRepairBytes | aerovault/src/error_correction/sync.rs:347-376 | its whole outcome; on error the buffer is unchanged, on success it has the expected hash |
| StreamRepair.StreamWindows | aerovault/src/error_correction/sync.rs:542-567 | the streamed loop repairs the same windows |
| StreamRepair.VerifyRepairStreamed | aerovault/src/error_correction/sync.rs:495-593 | the same outcome from the streaming reader, the file replaced only when the whole output verifies |
| StreamGuarantees.ReadersAgree | aerovault/src/error_correction/sidecar.rs:941-961 | the streamed repair sees the sidecar the in-memory one reads, whenever that one reads it |
| StreamGuarantees.OutcomeUnique | aerovault/src/error_correction/sync.rs:347-376 | the two repairs end alike |
| StreamGuarantees.OnlyItsOwnSidecar | aerovault/src/error_correction/sync.rs:323-376 | a stream is changed, or reported repaired, only by a sidecar that parsed, is bound to the expected content, is for a stream of its length, and has windows that follow one another over all of it; and it is changed only to bytes of the expected hash |
| StreamGuarantees.GeneratedReadsBack | aerovault/src/error_correction/sync.rs:139-183 | a generated sidecar is read back exactly, unless its locator is over the region the reader buffers or some window has one of the lengths that go wrong; then it is refused |
| StreamGuarantees.RepairCompletes | aerovault/src/error_correction/sync.rs:347-376 | sidecar damage its locator survives plus, in each window, damage only in groups within budget: the repair succeeds and returns the original stream |
| VaultRepair.Scrub | aerovault/src/v3/ec.rs:440-505 | lists exactly the records whose block is not as recorded; empty if and only if all are |
| VaultRepair.ParityPrecedence | aerovault/src/v3/ec.rs:270-303 | a named recovery file decides whatever else there is, then the sidecar beside the vault whatever is embedded; one that does not parse is an error even so |
| VaultRepair.CollectLiveBlocks | aerovault/src/v3/ec.rs:218-243 | the protected blocks in offset order |
| VaultRepair.VerifiedIsIntact | aerovault/src/v3/ec.rs:593-630 | verified blocks laid end to end are a vault with no damage, its records changed only in offset |
| VaultRepair.CheckBlocks | aerovault/src/v3/ec.rs:593-609 | accepts exactly when every block matches its recorded length and hash |
| VaultRepair.Rebuild | aerovault/src/v3/ec.rs:613-626 | the new data section and records |
| VaultRepair.RepairVault | aerovault/src/v3/ec.rs:511-634 | with any parity: nothing changes, or every block verifies and records differ only in offset; its whole outcome |
| VaultRepairGuarantees.ProtectedStreamIsData | aerovault/src/v3/ec.rs:218-243 | in a sound store the protected stream is the whole data section |
| VaultRepairGuarantees.LiveStreamIsData | aerovault/src/v3/ec.rs:218-243 | so what a save or an export protects of a sound vault is its data section |
| VaultRepairGuarantees.HealthyIsIntact | aerovault/src/v3/ec.rs:440-505 | a sound store scrubs clean |
| VaultRepairGuarantees.PaddedStream | aerovault/src/v3/ec.rs:559-578 | the blocks handed to reconstruction are the damaged data section at its old length |
| VaultRepairGuarantees.VaultRestored | aerovault/src/v3/ec.rs:511-634 | parity of the undamaged data section, with every shard that differs in a group within budget, restores data and records exactly |
| VaultSidecars.ExportParity | aerovault/src/v3/ec.rs:336-384 | writes the three-segment recovery file of a vault, sound or not, its data segment over the cells the records point at |
| VaultSidecars.ExportReadsBack | aerovault/src/v3/ec.rs:145-303 | it is read back whole and its data parity resolved, unless manifest or data has one of the lengths that go wrong |
| VaultSidecars.RecoverHeader | aerovault/src/v3/ec.rs:640-678 | a rebuilt header is accepted only if it unlocks |
| VaultSidecars.HeaderRecovered | aerovault/src/v3/ec.rs:640-678 | a header damaged only in groups within budget is rebuilt to the original |
| Headers.HeaderReadBack | aerovault/src/v3/format.rs:50-117 | a written header reads back |
| Headers.HeaderCanonical | aerovault/src/v3/format.rs:72-128 | an accepted header re-encodes to its exact 1024 bytes, so its MAC covers the raw header |
| Headers.EncodeHeader | aerovault/src/v3/format.rs:50-70 | the field-by-field writes fill the buffer with the header image |
| Containers.WriteContainer | aerovault/src/v3/block.rs:95-174 | the step-by-step layout, the injected manifest parity and the MAC give the container |
| Containers.SectionsTile | aerovault/src/v3/block.rs:148-172 | sections are contiguous, disjoint, in order, and with the header are the whole file |
| Containers.ValidateRanges | aerovault/src/v3/vault.rs:2043-2070 | accepts exactly ranges inside the file with the data right after the header |
| Containers.ValidateExtensions | aerovault/src/v3/vault.rs:702-734 | accepts exactly directories with no critical entry, no repeated id and no payload outside |
| Opening.OpenFile | aerovault/src/v3/vault.rs:1887-2041 | its whole outcome: the checks in turn, a header that does not unlock rebuilt from the recovery file, a manifest that does not decode rebuilt from embedded parity or that file |
| OpeningGuarantees.UndamagedOpens | aerovault/src/v3/vault.rs:1887-2041 | a file that opens as it is opens that way, with nothing rebuilt |
| Authenticity.OpenedIsVouchedFor | aerovault/src/v3/vault.rs:1887-2041 | whatever file and recovery file are given, a vault that opens goes by the header bytes found, whose MAC holds under the public key or the password's as their lane bit says, or by rebuilt bytes whose MAC holds under the password's where the found ones did not open; its sections are inside the file and the size limits, its manifest is for the same lane with unique canonical paths, and no extension must be understood |
| Authenticity.DecodesIff | aerovault/src/v3/format.rs:72-138 | a header is accepted exactly when magic, version and length are right and the reserved bytes zero, and its MAC is over its raw bytes with the MAC zeroed |
| Authenticity.UnlockIs | aerovault/src/v3/vault.rs:1740-1762 | the password unlocks exactly well-formed bytes whose MAC holds under the key it unwraps, of the supported version, whose master key it unwraps |
| OpeningGuarantees.HeaderReturns | aerovault/src/v3/vault.rs:1902-1930 | a header whose damage the recovery file undoes is the one opened with if and only if it is whole, or the content is encrypted and the bytes as found neither say otherwise nor are ones the password opens |
| OpeningGuarantees.FailedMacIsRebuilt | aerovault/src/v3/vault.rs:1902-1930 | so an encrypted header on whose bytes the MAC fails, and whose damage the recovery file undoes, is rebuilt unless its lane bit is set |
| OpeningGuarantees.OneBitLocksOut | aerovault/src/v3/vault.rs:1902-1930 | with the lane bit of an encrypted vault's header flipped, damage the exported recovery file undoes, the file cannot be opened |
| OpeningGuarantees.PlainHeaderStaysLost | aerovault/src/v3/vault.rs:1902-1930 | a header on the plaintext lane that no longer unlocks is an error, whatever the recovery file holds |
| OpeningGuarantees.ExportUndoes | aerovault/src/v3/ec.rs:145-384 | the exported recovery file undoes, in the header and in the manifest, damage to as many data shards a group as its grid has parity shards |
| OpeningGuarantees.RecoveryFileUsed | aerovault/src/v3/vault.rs:1982-2001 | for a manifest that does not decode, the recovery file decides if the embedded parity is absent or empty or leaves the manifest as found, and makes no difference otherwise |
| OpeningGuarantees.ManifestReturns | aerovault/src/v3/vault.rs:1982-2001 | a manifest that does not decode, and whose damage some parity undoes, comes back if and only if the embedded parity gives it or leaves it to the recovery file |
| OpeningGuarantees.EmbeddedUndoes | aerovault/src/v3/ec.rs:733-785 | embedded parity that undoes the damage, itself damaged or not, gives the manifest |
| OpeningGuarantees.SealedManifestHeals | aerovault/src/v3/ec.rs:733-785 | the parity a seal embeds, while it is whole, gives the manifest back after such damage to it |
| OpeningGuarantees.RefusedParityStops | aerovault/src/v3/vault.rs:1982-2001 | one damaged byte at the start of the embedded parity ends the opening before the recovery file is tried |
| OpeningGuarantees.DamagedVaultOpens | aerovault/src/v3/vault.rs:1887-2041 | a sealed vault whose header, manifest and extension payloads were damaged, in ways that parity undoes, opens as what was sealed if and only if its header comes back and its manifest does, in the senses above, and says which was rebuilt |
| OpeningGuarantees.EmbeddedIsFound | aerovault/src/v3/ec.rs:733-785 | the manifest parity a seal embeds is found where opening looks for it, and none is found when it embeds none |
| Containers.SealThenOpen | aerovault/src/v3/block.rs:95-174 | opening a sealed file gives the same manifest, data and extensions |
| Containers.Save | aerovault/src/v3/vault.rs:2100-2182 | saving, of a sound store or not, recomputes the data parity over the cells the records point at |
| Containers.SoundSave | aerovault/src/v3/vault.rs:2100-2182 | of a sound store that is parity over the whole data section |
| Containers.SavedDirectoryValid | aerovault/src/v3/vault.rs:2108-2150 | with no extension or data parity alone the saved directory is valid and finds its parity |
| Containers.SaveThenOpen | aerovault/src/v3/vault.rs:2100-2182 | saving then opening is the identity on manifest and data, with fresh parity recorded |
| LegacyVaults.CompactEntry | aerovault/src/vault.rs:1183-1253 | an entry's chunks are re-encrypted to chunks that read back the same |
| LegacyVaults.Compact | aerovault/src/vault.rs:1138-1287 | succeeds exactly when every entry is readable; keeps every entry's plaintext; lays entries with data end to end |
| LegacyVaults.RegionsApart | aerovault/src/vault.rs:1174-1254 | the regions so laid are disjoint and inside the data section, even for entries that shared an offset before |
| LegacyVaults.CopyEntry | aerovault/src/vault.rs:1010-1130 | its result, or its error and no change, the limit on path bytes included |
| LegacyVaults.CopyMeaning | aerovault/src/vault.rs:1010-1130 | existing entries stay, every chosen entry is cloned, names stay unique, parents are directories |
| LegacyVaults.CopySucceeds | aerovault/src/vault.rs:1010-1130 | a copy succeeds exactly when its names are acceptable and differ, the source is there, the clones' names are new and distinct, and every parent is then a directory |
| LegacyVaults.CloneReadsSource | aerovault/src/vault.rs:1010-1130 | a clone shares its source's offset and reads its source's plaintext |
| LegacyVaults.MoveEntry | aerovault/src/vault.rs:858-978 | its result, or its error and no change, the limit on path bytes included |
| LegacyVaults.MoveMeaning | aerovault/src/vault.rs:858-978 | exactly the chosen entries are renamed, nothing else changes, names stay unique, parents are directories |
| LegacyVaults.MoveSucceeds | aerovault/src/vault.rs:858-978 | a move to another name succeeds exactly when the names are acceptable, the source is there, the names it leaves are distinct, and every parent is then a directory |
| LegacyVaults.AddedNames | aerovault/src/vault.rs:1086-1102 | the table check accepts exactly distinct new names |

## Left out

- Cipher, key derivation, key wrapping, MAC, hash and compression internals, and the algebra of the erasure code: parameters with the hypotheses named above.
- Files on disk: temporary files, atomic rename, permissions, symlink checks, directory walking and where extraction writes; a file is a byte sequence replaced whole.
- Timestamps, telemetry, progress callbacks, zeroisation, floating-point overhead figures and the texts of error messages; errors are told apart only where the code tells them apart.
- The save guard (file length and header MAC): nothing is claimed about concurrent writers.
- The version-1 sidecar reader: a version-1 sidecar is reported as an unsupported version.
- The re-save that a repair with nothing to do makes of a vault opened with a rebuilt header or manifest.
- Unknown extensions on re-seal: their payloads are dropped while their entries stay, so `SaveThenOpen` is about vaults with data parity or nothing.
- Password change, peek and summary, extracting many files, renaming within a directory (a move), and the standalone verify and scan wrappers.
- `Vec` lengths near the machine limit: additions of positions and lengths the code leaves unchecked are taken not to wrap.
- A failed read leaves zero padding in the streaming chunker's buffer; `Fill` claims nothing after an error, and the chunker must then be dropped.
- Vault.OpenVault.Run: moves and copies in a run have good arguments; others can leave two entries at one path (`Relocation.MoveOntoAnother`), where a tree no longer says what the vault holds. `Apply` says what one of them does to a valid vault.
- VaultRepair.Scrub: records at equal offsets, which only a corrupt manifest has, are listed in any order.
- Containers.SealThenOpen: assumes the manifest and directory are under the reader's size limits, which the writer does not check.
- LegacyVaults.CopyEntry: names are compared decrypted.
- LegacyVaults.MoveEntry: likewise.
