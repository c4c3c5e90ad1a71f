/** The older vault format: a table of entries pointing at offsets of a data section, where copies
    share their source's bytes and deletion leaves its bytes behind. */
module LegacyVaults {
  import opened Wrappers
  import opened ByteSeqs
  import opened Paths

  type Nonce = Bytes

  datatype LegacyEntry = LegacyEntry(
    name: string,
    size: nat,
    offset: nat,
    chunkCount: nat,
    fileId: Option<Bytes>,
    isDir: bool)
  {
    predicate HasData() { !isDir && chunkCount > 0 }
  }

  datatype LegacyError =
    | EmptyName
    | InvalidName
    | IntoItself
    | PathTooLong
    | NotFound
    | TargetExists
    | ParentMissing
    | Unreadable

  /** Chunk encryption under one vault's keys, bound to the chunk's place in its file. */
  datatype ChunkCipher = ChunkCipher(
    seal: (Nonce, nat, Option<Bytes>, nat, Bytes) -> Bytes,
    unseal: (nat, Option<Bytes>, nat, Bytes) -> Option<Bytes>,
    overhead: nat,
    chunkSize: nat)

  /** Decryption inverts encryption, and both change the length by the overhead. */
  ghost predicate CipherOk(c: ChunkCipher) {
    && (forall n, i: nat, f, k: nat, x :: c.unseal(i, f, k, c.seal(n, i, f, k, x)) == Some(x))
    && (forall n, i: nat, f, k: nat, x :: |c.seal(n, i, f, k, x)| == |x| + c.overhead)
    && (forall i: nat, f, k: nat, x :: c.unseal(i, f, k, x).Some? ==> |x| == |c.unseal(i, f, k, x).value| + c.overhead)
  }

  // ---- reading an entry ---------------------------------------------------

  /** The plaintext chunks read so far, and where the next one starts. */
  datatype Progress = Progress(plains: seq<Bytes>, at: nat)

  /** The encrypted chunk at `at`: its length prefix must be within bounds. */
  function ChunkAt(c: ChunkCipher, data: Bytes, at: nat): Option<Bytes> {
    if at + 4 > |data| then None
    else
      var len := Val(data[at..at + 4]);
      if len > c.chunkSize + c.overhead || len > |data| - (at + 4) then None
      else Some(data[at + 4..at + 4 + len])
  }

  /** The first `n` chunks of an entry, or nothing when one cannot be read or decrypted. */
  function ReadUpTo(c: ChunkCipher, data: Bytes, e: LegacyEntry, n: nat): Option<Progress> {
    if n == 0 then Some(Progress([], e.offset))
    else
      var before := ReadUpTo(c, data, e, n - 1);
      if before.None? then None
      else
        var chunk := ChunkAt(c, data, before.value.at);
        var plain := if chunk.None? then None else c.unseal(n - 1, e.fileId, e.chunkCount, chunk.value);
        if plain.None? then None
        else Some(Progress(before.value.plains + [plain.value], before.value.at + 4 + |chunk.value|))
  }

  function ReadEntry(c: ChunkCipher, data: Bytes, e: LegacyEntry): Option<Progress> {
    ReadUpTo(c, data, e, if e.HasData() then e.chunkCount else 0)
  }

  /** The plaintext of an entry. */
  function Plaintext(c: ChunkCipher, data: Bytes, e: LegacyEntry): Option<Bytes> {
    var read := ReadEntry(c, data, e);
    if read.None? then None else Some(Flatten(read.value.plains))
  }

  lemma {:induction false} ReadStops(c: ChunkCipher, data: Bytes, e: LegacyEntry, n: nat, m: nat)
    requires n <= m && ReadUpTo(c, data, e, n).None?
    ensures ReadUpTo(c, data, e, m).None?
  {
    if n < m {
      ReadStops(c, data, e, n, m - 1);
    }
  }

  /** Bytes added after the data section do not change what is read before them. */
  lemma {:induction false} ReadExtends(c: ChunkCipher, data: Bytes, more: Bytes, e: LegacyEntry, n: nat)
    requires ReadUpTo(c, data, e, n).Some?
    ensures ReadUpTo(c, data + more, e, n) == ReadUpTo(c, data, e, n)
  {
    hide ChunkAt;
    if n > 0 {
      ReadExtends(c, data, more, e, n - 1);
      ChunkExtends(c, data, more, ReadUpTo(c, data, e, n - 1).value.at);
    }
  }

  lemma ChunkExtends(c: ChunkCipher, data: Bytes, more: Bytes, at: nat)
    requires ChunkAt(c, data, at).Some?
    ensures ChunkAt(c, data + more, at) == ChunkAt(c, data, at)
  {
    assert (data + more)[at..at + 4] == data[at..at + 4];
    var len := Val(data[at..at + 4]);
    assert (data + more)[at + 4..at + 4 + len] == data[at + 4..at + 4 + len];
  }

  /** An encrypted chunk written at the end is the chunk read there. */
  lemma ChunkWritten(c: ChunkCipher, data: Bytes, chunk: Bytes)
    requires |chunk| <= c.chunkSize + c.overhead && |chunk| < U32_LIMIT
    ensures ChunkAt(c, data + (Le(|chunk|, 4) + chunk), |data|) == Some(chunk)
  {
    hide Le, Val;
    Le4(|chunk|);
    CellWritten(data, Le(|chunk|, 4), chunk);
  }

  lemma CellWritten(data: Bytes, prefix: Bytes, chunk: Bytes)
    ensures var d := data + (prefix + chunk);
            && d[|data|..|data| + |prefix|] == prefix
            && d[|data| + |prefix|..|data| + |prefix| + |chunk|] == chunk
  {
  }

  // ---- compaction ---------------------------------------------------------

  /** Entries with data lie one after another from `at` to the end; the others point at zero. */
  predicate LaidOut(c: ChunkCipher, data: Bytes, entries: seq<LegacyEntry>, at: nat)
    decreases |entries|
  {
    if entries == [] then at == |data|
    else if !entries[0].HasData() then entries[0].offset == 0 && LaidOut(c, data, entries[1..], at)
    else
      var read := ReadEntry(c, data, entries[0]);
      entries[0].offset == at && read.Some? && at < read.value.at && LaidOut(c, data, entries[1..], read.value.at)
  }

  /** `b` is `a` with another offset, and reads back to the same plaintext. */
  ghost predicate SameEntry(c: ChunkCipher, data: Bytes, a: LegacyEntry, data1: Bytes, b: LegacyEntry) {
    && b == a.(offset := b.offset)
    && Plaintext(c, data1, b).Some? && Plaintext(c, data1, b) == Plaintext(c, data, a)
  }

  ghost predicate AllReadable(c: ChunkCipher, data: Bytes, entries: seq<LegacyEntry>) {
    forall i :: 0 <= i < |entries| ==> ReadEntry(c, data, entries[i]).Some?
  }

  class LegacyVault {
    var entries: seq<LegacyEntry>
    var data: Bytes

    constructor (e: seq<LegacyEntry>, d: Bytes)
      ensures entries == e && data == d
    {
      entries, data := e, d;
    }
  }

  /** Rewrites the vault with fresh encryptions of the chunks that entries still refer to. */
  method Compact(c: ChunkCipher, vault: LegacyVault) returns (r: Result<(), LegacyError>)
    requires CipherOk(c)
    modifies vault
    ensures r.Ok? <==> AllReadable(c, old(vault.data), old(vault.entries))
    ensures r.Err? ==> vault.entries == old(vault.entries) && vault.data == old(vault.data)
    ensures r.Ok? ==>
              && |vault.entries| == |old(vault.entries)|
              && LaidOut(c, vault.data, vault.entries, 0)
              && forall i :: 0 <= i < |vault.entries| ==>
                   SameEntry(c, old(vault.data), old(vault.entries)[i], vault.data, vault.entries[i])
  {
    hide CipherOk, ReadUpTo, SameEntry, LaidOut;
    var entries, data := CompactEntries(c, vault.data, vault.entries);
    if entries.Err? {
      return Err(entries.error);
    }
    vault.entries, vault.data := entries.value, data;
    return Ok(());
  }

  method CompactEntries(c: ChunkCipher, data: Bytes, entries: seq<LegacyEntry>)
    returns (r: Result<seq<LegacyEntry>, LegacyError>, out: Bytes)
    requires CipherOk(c)
    ensures r.Ok? <==> AllReadable(c, data, entries)
    ensures r.Ok? ==>
              && |r.value| == |entries| && LaidOut(c, out, r.value, 0)
              && forall i :: 0 <= i < |entries| ==> SameEntry(c, data, entries[i], out, r.value[i])
  {
    hide CipherOk, ReadUpTo, SameEntry, LaidOut;
    var done: seq<LegacyEntry> := [];
    out := [];
    LaidOutNothing(c);
    for i := 0 to |entries|
      invariant |done| == i && LaidOut(c, out, done, 0)
      invariant forall j :: 0 <= j < i ==> SameEntry(c, data, entries[j], out, done[j]) && ReadEntry(c, data, entries[j]).Some?
    {
      var e := entries[i];
      ghost var before := out;
      if !e.HasData() {
        AppendEmpty(c, data, out, done, e);
        done := done + [e.(offset := 0)];
        continue;
      }
      var ok, written := CompactEntry(c, data, e, out);
      if !ok {
        return Err(Unreadable), out;
      }
      AppendEntry(c, out, written, done, e.(offset := |out|));
      KeepEntries(c, data, entries, out, written, done);
      KeepEntry(c, data, e, out + written, e.(offset := |out|));
      done := done + [e.(offset := |out|)];
      out := out + written;
    }
    r := Ok(done);
  }

  lemma LaidOutNothing(c: ChunkCipher)
    ensures LaidOut(c, [], [], 0)
  {
  }

  /** Decrypts and re-encrypts one entry's chunks with fresh nonces. */
  method CompactEntry(c: ChunkCipher, data: Bytes, e: LegacyEntry, out: Bytes) returns (ok: bool, written: Bytes)
    requires CipherOk(c) && e.HasData()
    ensures ok <==> ReadEntry(c, data, e).Some?
    ensures ok ==>
              var read, again := ReadEntry(c, data, e), ReadEntry(c, out + written, e.(offset := |out|));
              && again.Some? && again.value.plains == read.value.plains && again.value.at == |out + written|
              && |out| < again.value.at
  {
    hide CipherOk, ReadUpTo, ChunkAt;
    written := [];
    var at: nat := e.offset;
    ghost var e1 := e.(offset := |out|);
    ghost var plains: seq<Bytes> := [];
    assert out + written == out;
    ReadNothing(c, data, e);
    ReadNothing(c, out, e1);
    for i := 0 to e.chunkCount
      invariant ReadUpTo(c, data, e, i) == Some(Progress(plains, at))
      invariant ReadUpTo(c, out + written, e1, i) == Some(Progress(plains, |out + written|))
      invariant i > 0 ==> |written| > 0
    {
      var chunk := ChunkAt(c, data, at);
      var plain := if chunk.None? then None else c.unseal(i, e.fileId, e.chunkCount, chunk.value);
      ReadNext(c, data, e, i, plains, at);
      if plain.None? {
        ReadStops(c, data, e, i + 1, e.chunkCount);
        return false, written;
      }
      var nonce: Nonce := *;
      var sealed := c.seal(nonce, i, e.fileId, e.chunkCount, plain.value);
      Resealed(c, data, at, i, e, nonce);
      var cell := Le(|sealed|, 4) + sealed;
      ReadExtends(c, out + written, cell, e1, i);
      ChunkWritten(c, out + written, sealed);
      assert out + (written + cell) == (out + written) + cell;
      ReadNext(c, (out + written) + cell, e1, i, plains, |out + written|);
      plains := plains + [plain.value];
      written := written + cell;
      at := at + 4 + |chunk.value|;
    }
    ok := true;
  }

  lemma ReadNothing(c: ChunkCipher, data: Bytes, e: LegacyEntry)
    ensures ReadUpTo(c, data, e, 0) == Some(Progress([], e.offset))
  {
  }

  lemma ReadNext(c: ChunkCipher, data: Bytes, e: LegacyEntry, i: nat, plains: seq<Bytes>, at: nat)
    requires ReadUpTo(c, data, e, i) == Some(Progress(plains, at))
    ensures var chunk := ChunkAt(c, data, at);
            var plain := if chunk.None? then None else c.unseal(i, e.fileId, e.chunkCount, chunk.value);
            ReadUpTo(c, data, e, i + 1) == if plain.None? then None else Some(Progress(plains + [plain.value], at + 4 + |chunk.value|))
  {
  }

  /** A chunk that was read and decrypted re-encrypts to one that is no longer. */
  lemma Resealed(c: ChunkCipher, data: Bytes, at: nat, i: nat, e: LegacyEntry, nonce: Nonce)
    requires CipherOk(c) && ChunkAt(c, data, at).Some?
    requires c.unseal(i, e.fileId, e.chunkCount, ChunkAt(c, data, at).value).Some?
    ensures var plain := c.unseal(i, e.fileId, e.chunkCount, ChunkAt(c, data, at).value).value;
            var sealed := c.seal(nonce, i, e.fileId, e.chunkCount, plain);
            && |sealed| == |ChunkAt(c, data, at).value| <= c.chunkSize + c.overhead && |sealed| < U32_LIMIT
            && c.unseal(i, e.fileId, e.chunkCount, sealed) == Some(plain)
  {
    ReEncode(data[at..at + 4]);
  }

  // ---- the compacted table grows ------------------------------------------

  lemma {:induction false} LaidOutEnd(c: ChunkCipher, data: Bytes, entries: seq<LegacyEntry>, at: nat, more: Bytes, e: LegacyEntry)
    requires LaidOut(c, data, entries, at)
    requires e.HasData() ==> e.offset == |data| && ReadEntry(c, data + more, e).Some?
                             && |data| < ReadEntry(c, data + more, e).value.at == |data + more|
    requires !e.HasData() ==> e.offset == 0 && more == []
    ensures LaidOut(c, data + more, entries + [e], at)
    decreases |entries|
  {
    hide ReadUpTo;
    var grown := entries + [e];
    if entries == [] {
      assert grown[1..] == [];
      assert data + [] == data;
    } else {
      assert grown[0] == entries[0] && grown[1..] == entries[1..] + [e];
      if !entries[0].HasData() {
        LaidOutEnd(c, data, entries[1..], at, more, e);
      } else {
        ReadExtends(c, data, more, entries[0], entries[0].chunkCount);
        LaidOutEnd(c, data, entries[1..], ReadEntry(c, data, entries[0]).value.at, more, e);
      }
    }
  }

  lemma AppendEmpty(c: ChunkCipher, data: Bytes, out: Bytes, done: seq<LegacyEntry>, e: LegacyEntry)
    requires LaidOut(c, out, done, 0) && !e.HasData()
    ensures LaidOut(c, out, done + [e.(offset := 0)], 0)
    ensures SameEntry(c, data, e, out, e.(offset := 0)) && ReadEntry(c, data, e).Some?
  {
    LaidOutEnd(c, out, done, 0, [], e.(offset := 0));
    assert out + [] == out;
  }

  lemma AppendEntry(c: ChunkCipher, out: Bytes, written: Bytes, done: seq<LegacyEntry>, e: LegacyEntry)
    requires LaidOut(c, out, done, 0) && e.HasData() && e.offset == |out|
    requires var again := ReadEntry(c, out + written, e); again.Some? && |out| < again.value.at == |out + written|
    ensures LaidOut(c, out + written, done + [e], 0)
  {
    LaidOutEnd(c, out, done, 0, written, e);
  }

  lemma KeepEntries(c: ChunkCipher, data: Bytes, entries: seq<LegacyEntry>, out: Bytes, written: Bytes, done: seq<LegacyEntry>)
    requires |done| <= |entries| && forall j :: 0 <= j < |done| ==> SameEntry(c, data, entries[j], out, done[j])
    ensures forall j :: 0 <= j < |done| ==> SameEntry(c, data, entries[j], out + written, done[j])
  {
    hide ReadUpTo, Flatten;
    forall j | 0 <= j < |done|
      ensures SameEntry(c, data, entries[j], out + written, done[j])
    {
      assert SameEntry(c, data, entries[j], out, done[j]);
      ReadExtends(c, out, written, done[j], if done[j].HasData() then done[j].chunkCount else 0);
    }
  }

  lemma KeepEntry(c: ChunkCipher, data: Bytes, e: LegacyEntry, data1: Bytes, e1: LegacyEntry)
    requires e1 == e.(offset := e1.offset) && ReadEntry(c, data, e).Some? && ReadEntry(c, data1, e1).Some?
    requires ReadEntry(c, data, e).value.plains == ReadEntry(c, data1, e1).value.plains
    ensures SameEntry(c, data, e, data1, e1)
  {
  }

  /** Regions of a laid-out table do not overlap: of two entries with data, the later starts where
      or after the earlier ends, and both end inside the data section. */
  lemma {:induction false} RegionsApart(c: ChunkCipher, data: Bytes, entries: seq<LegacyEntry>, at: nat, i: nat, j: nat)
    requires LaidOut(c, data, entries, at) && i < j < |entries| && entries[i].HasData() && entries[j].HasData()
    ensures ReadEntry(c, data, entries[i]).Some? && ReadEntry(c, data, entries[j]).Some?
    ensures at <= entries[i].offset < ReadEntry(c, data, entries[i]).value.at <= entries[j].offset
    ensures entries[j].offset < ReadEntry(c, data, entries[j]).value.at <= |data|
    decreases |entries|
  {
    hide ReadUpTo;
    var next := if entries[0].HasData() then ReadEntry(c, data, entries[0]).value.at else at;
    if i > 0 {
      RegionsApart(c, data, entries[1..], next, i - 1, j - 1);
    } else {
      RegionInside(c, data, entries[1..], next, j - 1);
    }
  }

  lemma {:induction false} RegionInside(c: ChunkCipher, data: Bytes, entries: seq<LegacyEntry>, at: nat, j: nat)
    requires LaidOut(c, data, entries, at) && j < |entries| && entries[j].HasData()
    ensures ReadEntry(c, data, entries[j]).Some?
    ensures at <= entries[j].offset < ReadEntry(c, data, entries[j]).value.at <= |data|
    decreases |entries|
  {
    hide ReadUpTo;
    var next := if entries[0].HasData() then ReadEntry(c, data, entries[0]).value.at else at;
    LaidOutBound(c, data, entries[1..], next);
    if j > 0 {
      RegionInside(c, data, entries[1..], next, j - 1);
    }
  }

  lemma {:induction false} LaidOutBound(c: ChunkCipher, data: Bytes, entries: seq<LegacyEntry>, at: nat)
    requires LaidOut(c, data, entries, at)
    ensures at <= |data|
    decreases |entries|
  {
    hide ReadUpTo;
    if entries != [] {
      LaidOutBound(c, data, entries[1..], if entries[0].HasData() then ReadEntry(c, data, entries[0]).value.at else at);
    }
  }

  // ---- moving and copying -------------------------------------------------

  function CleanName(name: string): string { Strip(Strip(name, IsWhitespace), IsSlash) }

  predicate HasDotDot(name: string) {
    exists i :: 0 <= i < |name| - 1 && name[i] == '.' && name[i + 1] == '.'
  }

  predicate ValidName(name: string) {
    !HasDotDot(name) && (name != "" ==> name[0] != '/' && name[0] != '\\') && '\0' !in name
  }

  const MAX_PATH_BYTES: nat := 4096

  /** The length of a string in UTF-8. */
  function ByteLen(s: string): nat {
    if s == "" then 0
    else
      var c := s[|s| - 1] as int;
      ByteLen(s[..|s| - 1]) + if c < 0x80 then 1 else if c < 0x800 then 2 else if c < 0x1_0000 then 3 else 4
  }

  predicate TooLong(from: string, to: string) {
    ByteLen(from) > MAX_PATH_BYTES || ByteLen(to) > MAX_PATH_BYTES
  }

  /** The source entry and everything below it, if it is a directory. */
  predicate Chosen(name: string, from: string, dir: bool) {
    name == from || (dir && IsDescendant(name, from))
  }

  function IndexOf(entries: seq<LegacyEntry>, name: string): Option<nat> {
    if entries == [] then None
    else if entries[0].name == name then Some(0)
    else
      var rest := IndexOf(entries[1..], name);
      if rest.None? then None else Some(rest.value + 1)
  }

  /** Names to directory flags, later entries over earlier ones. */
  function Table(entries: seq<LegacyEntry>): map<string, bool> {
    if entries == [] then map[]
    else
      var last := entries[|entries| - 1];
      Table(entries[..|entries| - 1])[last.name := last.isDir]
  }

  predicate UniqueNames(entries: seq<LegacyEntry>) {
    forall i, j :: 0 <= i < j < |entries| ==> entries[i].name != entries[j].name
  }

  /** Every name's parent, if it has one, is a directory of the table. */
  predicate ParentsPresent(table: map<string, bool>) {
    forall name :: name in table ==>
      var parent := Parent(name);
      parent.Some? && parent.value != "" ==> parent.value in table && table[parent.value]
  }

  /** The checks on the two names; a move onto itself succeeds at once. */
  function NamesRefused(from: string, to: string): Option<LegacyError> {
    if from == "" || to == "" then Some(EmptyName)
    else if !ValidName(from) || !ValidName(to) then Some(InvalidName)
    else None
  }

  function Clones(entries: seq<LegacyEntry>, from: string, to: string, dir: bool): seq<LegacyEntry> {
    if entries == [] then []
    else
      var last := entries[|entries| - 1];
      Clones(entries[..|entries| - 1], from, to, dir)
      + if Chosen(last.name, from, dir) then [last.(name := Remap(last.name, from, to))] else []
  }

  function Renamed(entries: seq<LegacyEntry>, from: string, to: string, dir: bool): seq<LegacyEntry> {
    seq(|entries|, i requires 0 <= i < |entries| =>
      if Chosen(entries[i].name, from, dir) then entries[i].(name := Remap(entries[i].name, from, to)) else entries[i])
  }

  /** Adds clones one by one to the table; one whose name is taken stops the copy. */
  function AddToTable(table: map<string, bool>, entries: seq<LegacyEntry>): Option<map<string, bool>> {
    if entries == [] then Some(table)
    else
      var last := entries[|entries| - 1];
      var before := AddToTable(table, entries[..|entries| - 1]);
      if before.None? || last.name in before.value then None else Some(before.value[last.name := last.isDir])
  }

  function CopyResult(entries: seq<LegacyEntry>, from: string, to: string): Result<seq<LegacyEntry>, LegacyError> {
    if NamesRefused(from, to).Some? then Err(NamesRefused(from, to).value)
    else if from == to then Err(TargetExists)
    else if IsDescendant(to, from) then Err(IntoItself)
    else if TooLong(from, to) then Err(PathTooLong)
    else
      var source := IndexOf(entries, from);
      if source.None? || source.value >= |entries| then Err(NotFound)
      else
        var clones := Clones(entries, from, to, entries[source.value].isDir);
        var table := AddToTable(Table(entries), clones);
        if table.None? then Err(TargetExists)
        else if !ParentsPresent(table.value) then Err(ParentMissing)
        else Ok(entries + clones)
  }

  function MoveResult(entries: seq<LegacyEntry>, from: string, to: string): Result<seq<LegacyEntry>, LegacyError> {
    if NamesRefused(from, to).Some? then Err(NamesRefused(from, to).value)
    else if from == to then Ok(entries)
    else if IsDescendant(to, from) then Err(IntoItself)
    else if TooLong(from, to) then Err(PathTooLong)
    else
      var source := IndexOf(entries, from);
      if source.None? || source.value >= |entries| then Err(NotFound)
      else
        var moved := Renamed(entries, from, to, entries[source.value].isDir);
        var table := AddToTable(map[], moved);
        if table.None? then Err(TargetExists)
        else if !ParentsPresent(table.value) then Err(ParentMissing)
        else Ok(moved)
  }

  method FindIndex(entries: seq<LegacyEntry>, name: string) returns (r: Option<nat>)
    ensures r == IndexOf(entries, name)
    ensures r.Some? ==> r.value < |entries| && entries[r.value].name == name
  {
    assert entries[0..] == entries;
    for i := 0 to |entries|
      invariant IndexOf(entries, name) == Shifted(IndexOf(entries[i..], name), i)
    {
      assert entries[i..][1..] == entries[i + 1..];
      if entries[i].name == name {
        return Some(i);
      }
    }
    r := None;
  }

  function Shifted(r: Option<nat>, n: nat): Option<nat> {
    if r.None? then None else Some(r.value + n)
  }

  method BuildTable(start: map<string, bool>, entries: seq<LegacyEntry>) returns (r: Option<map<string, bool>>)
    ensures r == AddToTable(start, entries)
  {
    var table := start;
    for i := 0 to |entries|
      invariant AddToTable(start, entries[..i]) == Some(table)
    {
      assert entries[..i + 1][..i] == entries[..i];
      if entries[i].name in table {
        TableStops(start, entries, i + 1);
        return None;
      }
      table := table[entries[i].name := entries[i].isDir];
    }
    assert entries[..|entries|] == entries;
    r := Some(table);
  }

  lemma {:induction false} TableStops(start: map<string, bool>, entries: seq<LegacyEntry>, n: nat)
    requires n <= |entries| && AddToTable(start, entries[..n]).None?
    ensures AddToTable(start, entries).None?
    decreases |entries| - n
  {
    if n < |entries| {
      assert entries[..n + 1][..n] == entries[..n];
      TableStops(start, entries, n + 1);
    } else {
      assert entries[..n] == entries;
    }
  }

  method CopyEntry(vault: LegacyVault, source: string, target: string) returns (r: Result<(), LegacyError>)
    modifies vault`entries
    ensures var after := CopyResult(old(vault.entries), CleanName(source), CleanName(target));
            match after
            case Ok(entries) => r == Ok(()) && vault.entries == entries
            case Err(e) => r == Err(e) && vault.entries == old(vault.entries)
  {
    hide ParentsPresent, Parent, Clones, AddToTable, Table, IndexOf, NamesRefused, Strip;
    var from, to := CleanName(source), CleanName(target);
    var refused := NamesRefused(from, to);
    if refused.Some? {
      return Err(refused.value);
    }
    if from == to {
      return Err(TargetExists);
    }
    if IsDescendant(to, from) {
      return Err(IntoItself);
    }
    if TooLong(from, to) {
      return Err(PathTooLong);
    }
    var at := FindIndex(vault.entries, from);
    if at.None? {
      return Err(NotFound);
    }
    var clones := CloneEntries(vault.entries, from, to, vault.entries[at.value].isDir);
    var table := BuildTable(Table(vault.entries), clones);
    if table.None? {
      return Err(TargetExists);
    }
    if !ParentsPresent(table.value) {
      return Err(ParentMissing);
    }
    vault.entries := vault.entries + clones;
    r := Ok(());
  }

  method CloneEntries(entries: seq<LegacyEntry>, from: string, to: string, dir: bool) returns (clones: seq<LegacyEntry>)
    ensures clones == Clones(entries, from, to, dir)
  {
    hide Remap, IsDescendant;
    clones := [];
    for i := 0 to |entries|
      invariant clones == Clones(entries[..i], from, to, dir)
    {
      assert entries[..i + 1][..i] == entries[..i];
      if Chosen(entries[i].name, from, dir) {
        clones := clones + [entries[i].(name := Remap(entries[i].name, from, to))];
      }
    }
    assert entries[..|entries|] == entries;
  }

  method MoveEntry(vault: LegacyVault, source: string, target: string) returns (r: Result<(), LegacyError>)
    modifies vault`entries
    ensures var after := MoveResult(old(vault.entries), CleanName(source), CleanName(target));
            match after
            case Ok(entries) => r == Ok(()) && vault.entries == entries
            case Err(e) => r == Err(e) && vault.entries == old(vault.entries)
  {
    hide ParentsPresent, Parent, AddToTable, IndexOf, NamesRefused, Strip, Remap;
    var from, to := CleanName(source), CleanName(target);
    var refused := NamesRefused(from, to);
    if refused.Some? {
      return Err(refused.value);
    }
    if from == to {
      return Ok(());
    }
    if IsDescendant(to, from) {
      return Err(IntoItself);
    }
    if TooLong(from, to) {
      return Err(PathTooLong);
    }
    var at := FindIndex(vault.entries, from);
    if at.None? {
      return Err(NotFound);
    }
    var moved := RenameEntries(vault.entries, from, to, vault.entries[at.value].isDir);
    var table := BuildTable(map[], moved);
    if table.None? {
      return Err(TargetExists);
    }
    if !ParentsPresent(table.value) {
      return Err(ParentMissing);
    }
    vault.entries := moved;
    r := Ok(());
  }

  method RenameEntries(entries: seq<LegacyEntry>, from: string, to: string, dir: bool) returns (moved: seq<LegacyEntry>)
    ensures moved == Renamed(entries, from, to, dir)
  {
    hide Remap, IsDescendant;
    moved := entries;
    for i := 0 to |entries|
      invariant |moved| == |entries|
      invariant forall j :: 0 <= j < i ==> moved[j] == Renamed(entries, from, to, dir)[j]
      invariant forall j :: i <= j < |entries| ==> moved[j] == entries[j]
    {
      if Chosen(entries[i].name, from, dir) {
        moved := moved[i := entries[i].(name := Remap(entries[i].name, from, to))];
      }
    }
  }

  // ---- what moving and copying mean ---------------------------------------

  ghost predicate Named(entries: seq<LegacyEntry>, name: string) {
    exists i :: 0 <= i < |entries| && entries[i].name == name
  }

  lemma NamedSplit(a: seq<LegacyEntry>, b: seq<LegacyEntry>, name: string)
    ensures Named(a + b, name) <==> Named(a, name) || Named(b, name)
  {
    if Named(a, name) {
      var i :| 0 <= i < |a| && a[i].name == name;
      assert (a + b)[i] == a[i];
    }
    if Named(b, name) {
      var i :| 0 <= i < |b| && b[i].name == name;
      assert (a + b)[|a| + i] == b[i];
    }
  }

  lemma NamedOne(e: LegacyEntry, name: string)
    ensures Named([e], name) <==> e.name == name
  {
    assert [e][0].name == e.name;
  }

  lemma {:induction false} TableNames(entries: seq<LegacyEntry>, name: string)
    ensures name in Table(entries) <==> Named(entries, name)
  {
    if entries != [] {
      hide Named;
      var front, last := entries[..|entries| - 1], entries[|entries| - 1];
      TableNames(front, name);
      assert entries == front + [last];
      NamedSplit(front, [last], name);
      NamedOne(last, name);
    }
  }

  lemma UniqueSnoc(front: seq<LegacyEntry>, last: LegacyEntry)
    ensures UniqueNames(front + [last]) <==> UniqueNames(front) && !Named(front, last.name)
  {
    var all := front + [last];
    assert forall i :: 0 <= i < |front| ==> all[i] == front[i];
    assert all[|front|] == last;
    if UniqueNames(all) {
      assert forall i, j :: 0 <= i < j < |front| ==> all[i].name != all[j].name;
    }
  }

  ghost predicate NoneNamed(first: seq<LegacyEntry>, more: seq<LegacyEntry>) {
    forall j :: 0 <= j < |more| ==> !Named(first, more[j].name)
  }

  lemma NoneNamedSnoc(first: seq<LegacyEntry>, front: seq<LegacyEntry>, last: LegacyEntry)
    ensures NoneNamed(first, front + [last]) <==> NoneNamed(first, front) && !Named(first, last.name)
  {
    hide Named;
    var all := front + [last];
    assert all[|front|] == last;
    assert forall j :: 0 <= j < |front| ==> all[j] == front[j];
  }

  /** Adding succeeds exactly when the new names are distinct and new, and gives the larger table. */
  lemma {:induction false} AddedNames(first: seq<LegacyEntry>, more: seq<LegacyEntry>)
    ensures AddToTable(Table(first), more).Some? <==> UniqueNames(more) && NoneNamed(first, more)
    ensures AddToTable(Table(first), more).Some? ==> AddToTable(Table(first), more) == Some(Table(first + more))
  {
    if more == [] {
      assert first + more == first;
    } else {
      hide Named, UniqueNames, NoneNamed;
      var front, last := more[..|more| - 1], more[|more| - 1];
      AddedNames(first, front);
      assert more == front + [last];
      assert (first + more)[..|first + more| - 1] == first + front;
      TableNames(first + front, last.name);
      NamedSplit(first, front, last.name);
      UniqueSnoc(front, last);
      NoneNamedSnoc(first, front, last);
    }
  }

  lemma {:induction false} ClonesAre(entries: seq<LegacyEntry>, from: string, to: string, dir: bool, i: nat) returns (s: nat)
    requires i < |Clones(entries, from, to, dir)|
    ensures s < |entries| && Chosen(entries[s].name, from, dir)
    ensures Clones(entries, from, to, dir)[i] == entries[s].(name := Remap(entries[s].name, from, to))
  {
    var n := |entries| - 1;
    var front := Clones(entries[..n], from, to, dir);
    if i < |front| {
      s := ClonesAre(entries[..n], from, to, dir, i);
    } else {
      s := n;
    }
  }

  lemma {:induction false} NameIrrelevant(c: ChunkCipher, data: Bytes, e: LegacyEntry, name: string, n: nat)
    ensures ReadUpTo(c, data, e.(name := name), n) == ReadUpTo(c, data, e, n)
  {
    hide ChunkAt;
    if n > 0 {
      NameIrrelevant(c, data, e, name, n - 1);
    }
  }

  /** The first entry of that name is a directory. */
  predicate DirectoryNamed(entries: seq<LegacyEntry>, name: string) {
    var at := IndexOf(entries, name);
    at.Some? && at.value < |entries| && entries[at.value].isDir
  }

  /** A name taken along with `from`: its own, and if that is a directory the names below it. */
  predicate TakenAlong(entries: seq<LegacyEntry>, name: string, from: string) {
    name == from || (DirectoryNamed(entries, from) && IsDescendant(name, from))
  }

  /** A copy leaves every entry where it was, adds a clone of each chosen one, and keeps names unique
      and every parent a directory. */
  lemma CopyMeaning(entries: seq<LegacyEntry>, from: string, to: string)
    requires CopyResult(entries, from, to).Ok? && UniqueNames(entries)
    ensures var after := CopyResult(entries, from, to).value;
            && |entries| <= |after| && after[..|entries|] == entries
            && UniqueNames(after) && ParentsPresent(Table(after))
            && forall s: nat :: s < |entries| && TakenAlong(entries, entries[s].name, from) ==>
                 entries[s].(name := Remap(entries[s].name, from, to)) in after
  {
    hide ParentsPresent, Table, AddToTable, Clones, Remap, NamesRefused, UniqueNames, NoneNamed;
    var after := CopyResult(entries, from, to).value;
    var dir := entries[IndexOf(entries, from).value].isDir;
    var clones := Clones(entries, from, to, dir);
    AddedNames(entries, clones);
    UniqueJoin(entries, clones);
    forall s: nat | s < |entries| && Chosen(entries[s].name, from, dir)
      ensures entries[s].(name := Remap(entries[s].name, from, to)) in after
    {
      ClonedToo(entries, from, to, dir, s);
    }
  }

  /** Every entry a copy adds is a clone of a chosen one, sharing its offset, so both read alike. */
  lemma CloneReadsSource(entries: seq<LegacyEntry>, from: string, to: string, c: ChunkCipher, data: Bytes, j: nat) returns (s: nat)
    requires CopyResult(entries, from, to).Ok? && |entries| <= j < |CopyResult(entries, from, to).value|
    ensures s < |entries| && TakenAlong(entries, entries[s].name, from)
    ensures var clone := CopyResult(entries, from, to).value[j];
            && clone == entries[s].(name := Remap(entries[s].name, from, to))
            && Plaintext(c, data, clone) == Plaintext(c, data, entries[s])
  {
    hide ParentsPresent, Table, AddToTable, Clones, Remap, NamesRefused, Flatten, ReadUpTo;
    var dir := entries[IndexOf(entries, from).value].isDir;
    s := ClonesAre(entries, from, to, dir, j - |entries|);
    NameIrrelevant(c, data, entries[s], Remap(entries[s].name, from, to), if entries[s].HasData() then entries[s].chunkCount else 0);
  }

  lemma {:induction false} ClonedToo(entries: seq<LegacyEntry>, from: string, to: string, dir: bool, s: nat)
    requires s < |entries| && Chosen(entries[s].name, from, dir)
    ensures entries[s].(name := Remap(entries[s].name, from, to)) in Clones(entries, from, to, dir)
  {
    hide Remap, IsDescendant;
    if s < |entries| - 1 {
      ClonedToo(entries[..|entries| - 1], from, to, dir, s);
    }
  }

  lemma UniqueJoin(a: seq<LegacyEntry>, b: seq<LegacyEntry>)
    requires UniqueNames(a) && UniqueNames(b) && NoneNamed(a, b)
    ensures UniqueNames(a + b)
  {
  }

  /** A move renames the source and, if it is a directory, everything below it, one to one; it
      changes nothing else, and leaves names unique and every parent a directory. */
  lemma MoveMeaning(entries: seq<LegacyEntry>, from: string, to: string, c: ChunkCipher, data: Bytes)
    requires MoveResult(entries, from, to).Ok? && from != to
    ensures var after := MoveResult(entries, from, to).value;
            && |after| == |entries| && UniqueNames(after) && UniqueNames(entries) && ParentsPresent(Table(after))
            && forall i :: 0 <= i < |entries| ==>
                 && after[i] == entries[i].(name := after[i].name)
                 && after[i].name == (if TakenAlong(entries, entries[i].name, from)
                                      then Remap(entries[i].name, from, to) else entries[i].name)
                 && Plaintext(c, data, after[i]) == Plaintext(c, data, entries[i])
  {
    hide ParentsPresent, Table, AddToTable, Remap, Plaintext, IsDescendant, UniqueNames, Renamed, DirectoryNamed, Chosen,
      TakenAlong, MoveResult;
    var after := MoveResult(entries, from, to).value;
    var dir := DirectoryNamed(entries, from);
    MovedAre(entries, from, to);
    NoTable();
    AddedNames([], after);
    assert [] + after == after;
    RenamedAre(entries, from, to, dir, c, data);
    NamesBefore(entries, from, to, dir);
    TakenIsChosen(entries, from);
  }

  lemma TakenIsChosen(entries: seq<LegacyEntry>, from: string)
    ensures forall name :: TakenAlong(entries, name, from) == Chosen(name, from, DirectoryNamed(entries, from))
  {
    hide DirectoryNamed, IsDescendant;
  }

  lemma MovedAre(entries: seq<LegacyEntry>, from: string, to: string)
    requires MoveResult(entries, from, to).Ok? && from != to
    ensures var after := MoveResult(entries, from, to).value;
            && after == Renamed(entries, from, to, DirectoryNamed(entries, from))
            && AddToTable(map[], after).Some? && ParentsPresent(AddToTable(map[], after).value)
  {
    hide ParentsPresent, AddToTable, Renamed, NamesRefused, IndexOf, ByteLen, IsDescendant;
  }

  lemma RenamedAre(entries: seq<LegacyEntry>, from: string, to: string, dir: bool, c: ChunkCipher, data: Bytes)
    ensures var after := Renamed(entries, from, to, dir);
            && |after| == |entries|
            && forall i :: 0 <= i < |entries| ==>
                 && after[i] == entries[i].(name := after[i].name)
                 && after[i].name == (if Chosen(entries[i].name, from, dir) then Remap(entries[i].name, from, to) else entries[i].name)
                 && Plaintext(c, data, after[i]) == Plaintext(c, data, entries[i])
  {
    hide Remap, Flatten, ReadUpTo, IsDescendant;
    var after := Renamed(entries, from, to, dir);
    forall i | 0 <= i < |entries|
      ensures Plaintext(c, data, after[i]) == Plaintext(c, data, entries[i])
    {
      NameIrrelevant(c, data, entries[i], after[i].name, if entries[i].HasData() then entries[i].chunkCount else 0);
    }
  }

  lemma NamesBefore(entries: seq<LegacyEntry>, from: string, to: string, dir: bool)
    requires UniqueNames(Renamed(entries, from, to, dir))
    ensures UniqueNames(entries)
  {
    hide Remap, IsDescendant;
    var after := Renamed(entries, from, to, dir);
    forall i, j | 0 <= i < j < |entries|
      ensures entries[i].name != entries[j].name
    {
      assert after[i].name != after[j].name;
    }
  }

  lemma NoTable()
    ensures Table([]) == map[]
  {
  }

  // ---- when moving and copying succeed ------------------------------------

  /** The last entry of that name is a directory. */
  ghost predicate LastIsDirectory(entries: seq<LegacyEntry>, name: string) {
    exists j :: 0 <= j < |entries| && entries[j].name == name && entries[j].isDir
                && forall k :: j < k < |entries| ==> entries[k].name != name
  }

  ghost predicate ParentsAreDirectories(entries: seq<LegacyEntry>) {
    forall i :: 0 <= i < |entries| ==>
      var parent := Parent(entries[i].name);
      parent.Some? && parent.value != "" ==> LastIsDirectory(entries, parent.value)
  }

  lemma LastSnoc(front: seq<LegacyEntry>, last: LegacyEntry, name: string)
    ensures LastIsDirectory(front + [last], name) <==> if last.name == name then last.isDir else LastIsDirectory(front, name)
  {
    var all := front + [last];
    assert all[|front|] == last;
    if last.name != name && LastIsDirectory(front, name) {
      var j :| 0 <= j < |front| && front[j].name == name && front[j].isDir && forall k :: j < k < |front| ==> front[k].name != name;
      assert all[j].name == name && all[j].isDir;
    }
    if LastIsDirectory(all, name) {
      var j :| 0 <= j < |all| && all[j].name == name && all[j].isDir && forall k :: j < k < |all| ==> all[k].name != name;
      if j < |front| {
        assert all[|front|].name != name;
        assert forall k :: j < k < |front| ==> front[k] == all[k];
        assert front[j] == all[j];
      }
    }
    if last.name == name && last.isDir {
      assert all[|front|].name == name && all[|front|].isDir;
    }
  }

  lemma {:induction false} TableDirectories(entries: seq<LegacyEntry>, name: string)
    ensures name in Table(entries) && Table(entries)[name] <==> LastIsDirectory(entries, name)
  {
    if entries != [] {
      hide LastIsDirectory;
      var front, last := entries[..|entries| - 1], entries[|entries| - 1];
      TableDirectories(front, name);
      assert entries == front + [last];
      LastSnoc(front, last, name);
    }
  }

  lemma ParentsInTable(entries: seq<LegacyEntry>)
    ensures ParentsPresent(Table(entries)) <==> ParentsAreDirectories(entries)
  {
    hide Table, Named, LastIsDirectory, Parent;
    forall name
      ensures name in Table(entries) <==> Named(entries, name)
      ensures name in Table(entries) && Table(entries)[name] <==> LastIsDirectory(entries, name)
    {
      TableNames(entries, name);
      TableDirectories(entries, name);
    }
    if ParentsPresent(Table(entries)) {
      forall i | 0 <= i < |entries|
        ensures entries[i].name in Table(entries)
      {
        AtIsNamed(entries, i);
      }
    }
    if ParentsAreDirectories(entries) {
      forall name | name in Table(entries)
        ensures exists i :: 0 <= i < |entries| && entries[i].name == name
      {
        var i := NamedAt(entries, name);
      }
    }
  }

  lemma AtIsNamed(entries: seq<LegacyEntry>, i: nat)
    requires i < |entries|
    ensures Named(entries, entries[i].name)
  {
  }

  lemma NamedAt(entries: seq<LegacyEntry>, name: string) returns (i: nat)
    requires Named(entries, name)
    ensures i < |entries| && entries[i].name == name
  {
    i :| 0 <= i < |entries| && entries[i].name == name;
  }

  lemma {:induction false} IndexIffNamed(entries: seq<LegacyEntry>, name: string)
    ensures IndexOf(entries, name).Some? <==> Named(entries, name)
    ensures IndexOf(entries, name).Some? ==> IndexOf(entries, name).value < |entries|
  {
    if entries != [] {
      IndexIffNamed(entries[1..], name);
      assert entries == [entries[0]] + entries[1..];
      NamedSplit([entries[0]], entries[1..], name);
      NamedOne(entries[0], name);
      hide Named;
    }
  }

  /** Not empty, no two dots in a row, no slash in front, no zero character, and at most 4096 bytes. */
  predicate NameAccepted(name: string) {
    && name != "" && (forall i :: 0 < i < |name| ==> !(name[i - 1] == name[i] == '.'))
    && name[0] != '/' && name[0] != '\\' && (forall i :: 0 <= i < |name| ==> name[i] != '\0')
    && ByteLen(name) <= 4096
  }

  lemma AcceptedIs(name: string)
    ensures NameAccepted(name) <==> name != "" && ValidName(name) && ByteLen(name) <= MAX_PATH_BYTES
  {
    hide ByteLen;
    if name != "" && ValidName(name) {
      forall i | 0 < i < |name|
        ensures !(name[i - 1] == name[i] == '.')
      {
        assert !(name[i - 1] == '.' && name[i - 1 + 1] == '.');
      }
    }
    if NameAccepted(name) {
      forall i | 0 <= i < |name| - 1
        ensures !(name[i] == '.' && name[i + 1] == '.')
      {
        assert !(name[i + 1 - 1] == name[i + 1] == '.');
      }
    }
  }

  /** The two names can be moved or copied between. */
  predicate NamesAccepted(from: string, to: string) {
    NameAccepted(from) && NameAccepted(to) && !IsDescendant(to, from)
  }

  /** A copy succeeds exactly when its names are accepted and differ, the source is there, the clones' names are new and
      distinct, and then every parent is a directory. */
  lemma CopySucceeds(entries: seq<LegacyEntry>, from: string, to: string)
    ensures CopyResult(entries, from, to).Ok? <==>
            var clones := Clones(entries, from, to, DirectoryNamed(entries, from));
            && NamesAccepted(from, to) && from != to && Named(entries, from)
            && UniqueNames(clones) && NoneNamed(entries, clones) && ParentsAreDirectories(entries + clones)
  {
    hide NameAccepted, ParentsPresent, ParentsAreDirectories, Table, AddToTable, Clones, UniqueNames, NoneNamed, Named, ValidName, IsDescendant,
      ByteLen, IndexOf;
    AcceptedIs(from);
    AcceptedIs(to);
    IndexIffNamed(entries, from);
    var clones := Clones(entries, from, to, DirectoryNamed(entries, from));
    AddedNames(entries, clones);
    ParentsInTable(entries + clones);
  }

  /** A move to another name succeeds exactly when the names are accepted, the source is there, the names left are distinct, and
      then every parent is a directory. */
  lemma MoveSucceeds(entries: seq<LegacyEntry>, from: string, to: string)
    requires from != to
    ensures MoveResult(entries, from, to).Ok? <==>
            var moved := Renamed(entries, from, to, DirectoryNamed(entries, from));
            && NamesAccepted(from, to) && Named(entries, from) && UniqueNames(moved) && ParentsAreDirectories(moved)
  {
    hide NameAccepted, ParentsPresent, ParentsAreDirectories, Table, AddToTable, Renamed, UniqueNames, Named, ValidName, IsDescendant,
      ByteLen, IndexOf;
    AcceptedIs(from);
    AcceptedIs(to);
    IndexIffNamed(entries, from);
    var moved := Renamed(entries, from, to, DirectoryNamed(entries, from));
    NoTable();
    NoneAtAll(moved);
    AddedNames([], moved);
    assert [] + moved == moved;
    ParentsInTable(moved);
  }

  lemma NoneAtAll(more: seq<LegacyEntry>)
    ensures NoneNamed([], more)
  {
  }
}
