/** What the model asks of the erasure code. */
module ErasureCode {
  import opened Wrappers
  import opened ByteSeqs

  /** A family of systematic codes: `parity(p, data)` gives the parity shards, `fill(k, p, slots)`
      the complete codeword, or nothing when too few slots are present. */
  datatype Code = Code(
    parity: (nat, seq<Bytes>) -> seq<Bytes>,
    fill: (nat, nat, seq<Option<Bytes>>) -> Option<seq<Bytes>>)

  type Slots = seq<Option<Bytes>>

  function Present(slots: Slots): nat {
    if slots == [] then 0
    else Present(slots[..|slots| - 1]) + if slots[|slots| - 1].Some? then 1 else 0
  }

  function Absent(slots: Slots): nat {
    if slots == [] then 0
    else Absent(slots[..|slots| - 1]) + if slots[|slots| - 1].Some? then 0 else 1
  }

  lemma {:induction false} PresentPlusAbsent(slots: Slots)
    ensures Present(slots) + Absent(slots) == |slots|
  {
    if slots != [] {
      PresentPlusAbsent(slots[..|slots| - 1]);
    }
  }

  lemma {:induction false} NoneAbsent(slots: Slots)
    ensures Absent(slots) == 0 <==> forall i :: 0 <= i < |slots| ==> slots[i].Some?
  {
    if slots != [] {
      NoneAbsent(slots[..|slots| - 1]);
    }
  }

  ghost predicate AllOfLength(shards: seq<Bytes>, s: nat) {
    forall i :: 0 <= i < |shards| ==> |shards[i]| == s
  }

  ghost predicate SlotsOfLength(slots: Slots, s: nat) {
    forall i :: 0 <= i < |slots| && slots[i].Some? ==> |slots[i].value| == s
  }

  /** Every slot that is present holds its shard of `word`. */
  ghost predicate Agrees(slots: Slots, word: seq<Bytes>) {
    |slots| == |word| && forall i :: 0 <= i < |slots| && slots[i].Some? ==> slots[i].value == word[i]
  }

  function Codeword(code: Code, p: nat, data: seq<Bytes>): seq<Bytes> {
    data + code.parity(p, data)
  }

  /** `p` parity shards of the data's length. */
  ghost predicate ParityShape(code: Code, k: nat, p: nat) {
    forall data, s: nat :: |data| == k && AllOfLength(data, s) ==>
      |code.parity(p, data)| == p && AllOfLength(code.parity(p, data), s)
  }

  /** Reconstruction needs `k` shards, and then leaves the present ones alone. */
  ghost predicate FillShape(code: Code, k: nat, p: nat) {
    forall slots, s: nat :: |slots| == k + p && SlotsOfLength(slots, s) ==>
      var r := code.fill(k, p, slots);
      && (r.Some? <==> k <= Present(slots))
      && (r.Some? ==> AllOfLength(r.value, s) && Agrees(slots, r.value))
  }

  /** Any `k` shards of a codeword determine it. */
  ghost predicate AnyKDetermine(code: Code, k: nat, p: nat) {
    forall data, slots, s: nat ::
      |data| == k && AllOfLength(data, s) && Agrees(slots, Codeword(code, p, data)) && k <= Present(slots) ==>
        code.fill(k, p, slots) == Some(Codeword(code, p, data))
  }

  /** The most shards one codeword can have. */
  const MAX_CODEWORD: nat := 256

  predicate CodeSize(k: nat, p: nat) { 0 < k && 0 < p && k + p <= MAX_CODEWORD }

  /** Shapes are right for every code size. */
  ghost predicate Shaped(code: Code) {
    forall k: nat, p: nat :: CodeSize(k, p) ==> ParityShape(code, k, p) && FillShape(code, k, p)
  }

  // ---- counting slots -----------------------------------------------------

  lemma {:induction false} PresentConcat(a: Slots, b: Slots)
    ensures Present(a + b) == Present(a) + Present(b)
    decreases |b|
  {
    if b == [] {
      assert a + b == a;
    } else {
      PresentConcat(a, b[..|b| - 1]);
      assert (a + b)[..|a + b| - 1] == a + b[..|b| - 1];
    }
  }

  lemma PresentOne(slot: Option<Bytes>)
    ensures Present([slot]) == if slot.Some? then 1 else 0
  {
  }
}
