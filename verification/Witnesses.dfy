/** Values that meet what the model asks of the library functions, so that no result is about nothing. */
module Witnesses {
  import opened Wrappers
  import opened ByteSeqs
  import opened VaultTypes
  import opened ErasureCode
  import opened FieldCode
  import opened EcPayloads
  import opened LegacyVaults
  import EC = ErrorCorrection
  import Sidecars

  function Fixed(x: Bytes, n: nat): (b: Bytes)
    ensures |b| == n
  {
    if |x| >= n then x[..n] else x + Zeros(n - |x|)
  }

  ghost const FIELD_ENGINE := EC.Engine(FIELD_CODE, (x: Bytes) => Fixed(x, CKSUM_LEN))

  /** One engine meets everything that is asked, at every overhead. */
  lemma EngineExists(pct: nat)
    ensures var (k, p) := EC.GridFor(pct);
            EC.EngineOk(FIELD_ENGINE) && AnyKDetermine(FIELD_ENGINE.code, k, p)
  {
    hide EC.GridFor;
    EC.GridBounds(pct);
    var (k, p) := EC.GridFor(pct);
    FieldCodeIsMds(k, p);
  }

  /** No chunk held to be incompressible, identity compression, and sealing that only adds its overhead. */
  const PLAIN_PRIMITIVES := Primitives(
    (x: Bytes) => "id",
    (x: Bytes) => x,
    (x: Bytes) => false,
    (x: Bytes) => Some(x),
    (z: Bytes, cap: nat) => Some(z[..Min(cap, |z|)]),
    (n: VaultTypes.Nonce, i: nat, id: ChunkId, x: Bytes) => Zeros(SEAL_OVERHEAD) + x,
    (i: nat, id: ChunkId, b: Bytes) => if |b| < SEAL_OVERHEAD then None else Some(b[SEAL_OVERHEAD..]))

  lemma PrimitivesExist()
    ensures Sound(PLAIN_PRIMITIVES)
  {
    forall n, i: nat, id, x
      ensures PLAIN_PRIMITIVES.unseal(i, id, PLAIN_PRIMITIVES.seal(n, i, id, x)) == Some(x)
    {
      assert (Zeros(SEAL_OVERHEAD) + x)[SEAL_OVERHEAD..] == x;
    }
  }

  const PLAIN_CIPHER := ChunkCipher(
    (n: LegacyVaults.Nonce, i: nat, f: Option<Bytes>, k: nat, x: Bytes) => Zeros(28) + x,
    (i: nat, f: Option<Bytes>, k: nat, b: Bytes) => if |b| < 28 then None else Some(b[28..]),
    28,
    65536)

  lemma CipherExists()
    ensures CipherOk(PLAIN_CIPHER)
  {
    forall n, i: nat, f, k: nat, x
      ensures PLAIN_CIPHER.unseal(i, f, k, PLAIN_CIPHER.seal(n, i, f, k, x)) == Some(x)
    {
      assert (Zeros(28) + x)[28..] == x;
    }
  }

  const FIXED_HASHES := Sidecars.Hashes((x: Bytes) => Fixed(x, 32), (x: Bytes) => Fixed(x, 32), (x: Bytes) => Fixed(x, 32))

  lemma HashesExist()
    ensures Sidecars.HashesOk(FIXED_HASHES)
  {
  }
}
