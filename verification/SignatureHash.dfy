/** SHA-512 as the hash of the signature scheme (src/ed25519-donna/ed25519.c, lines 26-42 and 67-71). */
module SignatureHash {
  import opened Bytes
  import opened Sha512
  import opened Signatures

  /** The digest as a hash on all byte strings; what it gives on other sequences does not matter. */
  ghost function Sha(f: Compress): Hash
    requires IsCompress(f)
  {
    m => if IsBytes(m) then Digest(f, m) else []
  }

  /** SHA-512 is a hash the signature scheme can use. */
  lemma ShaIsHash(f: Compress)
    requires IsCompress(f)
    ensures IsHash(Sha(f))
  {
    hide Digest, IsCompress;
    forall m | IsBytes(m)
      ensures |Sha(f)(m)| == 64 && IsBytes(Sha(f)(m))
    {
      DigestIsBytes(f, m);
    }
  }

  lemma JoinedTwo(a: seq<int>, b: seq<int>)
    ensures Joined([a, b], 2) == a + b
  {
    assert Joined([a, b], 1) == Joined([a, b], 0) + a;
  }

  lemma JoinedThree(a: seq<int>, b: seq<int>, c: seq<int>)
    ensures Joined([a, b, c], 3) == a + b + c
  {
    assert Joined([a, b, c], 1) == Joined([a, b, c], 0) + a;
    assert Joined([a, b, c], 2) == a + b;
  }

  /** The nonce hash, in two updates of the second half of the expanded key and the message. */
  method HashNonce(f: Compress, extsk: seq<int>, m: seq<int>, ghost sk: seq<int>) returns (hashr: seq<int>)
    requires IsCompress(f) && IsHash(Sha(f)) && IsBytes(sk) && IsBytes(m) && extsk == ExtSk(Sha(f), sk)
    ensures hashr == Sha(f)(Sha(f)(sk)[32..] + m)
    ensures Scalar(hashr) == Nonce(Sha(f), sk, m)
  {
    hide Digest, IsCompress, Joined, Clamped;
    JoinedTwo(extsk[32..], m);
    hashr := HashParts(f, [extsk[32..], m]);
  }

  /** ed25519_hram, in three updates. */
  method Hram(f: Compress, rs: seq<int>, pk: seq<int>, m: seq<int>) returns (hram: seq<int>)
    requires IsCompress(f) && |rs| == 64 && IsBytes(rs) && |pk| == 32 && IsBytes(pk) && IsBytes(m)
    ensures hram == Sha(f)(rs[..32] + pk + m)
    ensures Scalar(hram) == Challenge(Sha(f), rs[..32], pk, m)
  {
    hide Digest, IsCompress, Joined;
    JoinedThree(rs[..32], pk, m);
    hram := HashParts(f, [rs[..32], pk, m]);
  }
}
