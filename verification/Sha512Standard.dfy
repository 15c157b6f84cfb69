/** The digest of module Sha512 against FIPS 180-4, with the compression function as a parameter: the initial value, the
    padding, the chaining of the blocks and the order of the output bytes. */
module Sha512Standard {
  import opened Arith
  import opened Bytes
  import opened Sha512

  /** The number with the bytes b, most significant first. */
  function BigEndian(b: seq<int>): int {
    if |b| == 0 then 0 else 256 * BigEndian(b[..|b| - 1]) + b[|b| - 1]
  }

  lemma {:induction false} BigEndianSplit(a: seq<int>, b: seq<int>)
    ensures BigEndian(a + b) == BigEndian(a) * Pow2(8 * |b|) + BigEndian(b)
  {
    if |b| == 0 {
      assert a + b == a;
      assert Pow2(0) == 1;
    } else {
      var c := b[..|b| - 1];
      BigEndianSplit(a, c);
      assert (a + b)[..|a + b| - 1] == a + c;
      BytePower(8 * |c|);
      assert 256 * (BigEndian(a) * Pow2(8 * |c|)) == BigEndian(a) * (256 * Pow2(8 * |c|));
    }
  }

  lemma BytePower(n: nat)
    ensures Pow2(n + 8) == 256 * Pow2(n)
  {
    assert Pow2(n + 2) == 4 * Pow2(n) && Pow2(n + 4) == 4 * Pow2(n + 2) && Pow2(n + 6) == 4 * Pow2(n + 4);
  }

  lemma TwoBytes(x: int, y: int)
    ensures BigEndian([x, y]) == 256 * x + y
  {
    assert [x, y][..1] == [x] && [x][..0] == [];
    assert BigEndian([x]) == 256 * BigEndian([]) + x;
  }

  lemma FourBytes(b: seq<int>)
    requires |b| == 4
    ensures BigEndian(b) == 0x100_0000 * b[0] + 0x1_0000 * b[1] + 0x100 * b[2] + b[3]
  {
    TwoBytes(b[0], b[1]);
    assert b[..3][..2] == [b[0], b[1]];
    assert BigEndian(b[..3]) == 256 * BigEndian([b[0], b[1]]) + b[2];
  }

  lemma EightBytes(b: seq<int>)
    requires |b| == 8
    ensures BigEndian(b) == 0x100_0000_0000_0000 * b[0] + 0x1_0000_0000_0000 * b[1] + 0x100_0000_0000 * b[2]
                          + 0x1_0000_0000 * b[3] + 0x100_0000 * b[4] + 0x1_0000 * b[5] + 0x100 * b[6] + b[7]
  {
    FourBytes(b[..4]);
    FourBytes(b[4..]);
    assert b == b[..4] + b[4..];
    BigEndianSplit(b[..4], b[4..]);
    assert Pow2(16) == 0x1_0000 && Pow2(32) == 0x1_0000_0000 by {
      BytePower(0);
      BytePower(8);
      BytePower(16);
      BytePower(24);
    }
  }

  /** Storing a word most significant byte first. */
  lemma StoredValue(v: int)
    requires 0 <= v < 0x1_0000_0000_0000_0000
    ensures BigEndian(StoreBe(v)) == v
  {
    EightBytes(StoreBe(v));
    WordBytesRoundTrip(v);
    assert forall i :: 0 <= i < 8 ==> StoreBe(v)[i] == WordBytes(v)[7 - i];
    hide WordBytes, StoreBe, BigEndian;
  }

  // ---- the initial hash value ----

  /** Section 5.3.5: the first 64 bits of the fractional parts of the square roots of the first eight primes. */
  lemma InitialIs(i: nat)
    requires i < 8
    ensures var q := [2, 3, 5, 7, 11, 13, 17, 19][i];
            var x := [1, 1, 2, 2, 3, 3, 4, 4][i] * 0x1_0000_0000_0000_0000 + INITIAL[i];
            && 0 <= INITIAL[i] < 0x1_0000_0000_0000_0000
            && x * x <= q * 0x1_0000_0000_0000_0000_0000_0000_0000_0000 < (x + 1) * (x + 1)
  {
    assert i == 0 || i == 1 || i == 2 || i == 3 || i == 4 || i == 5 || i == 6 || i == 7;
  }

  // ---- the padding ----

  /** Section 5.1.2: the message, the bit 1, as few zeros as make a whole number of blocks, and the length in bits as a
      128-bit number. This determines every byte. */
  lemma PadIs(m: seq<int>)
    ensures var p := Pad(m);
            && |p| % 128 == 0 && |m| + 17 <= |p| < |m| + 17 + 128
            && p[..|m|] == m && p[|m|] == 0x80 && (forall i :: |m| < i < |p| - 16 ==> p[i] == 0)
            && BigEndian(p[|p| - 16..]) == 8 * |m| % TWO128
  {
    hide StoreBe, BigEndian;
    PadLength(m);
    var p, n := Pad(m), |m|;
    assert p[|p| - 16..] == StoreBe(HighBits(n)) + StoreBe(LowBits(n));
    LengthBytes(n);
  }

  lemma LengthBytes(n: nat)
    ensures BigEndian(StoreBe(HighBits(n)) + StoreBe(LowBits(n))) == 8 * n % TWO128
  {
    hide StoreBe, BigEndian, Pow2;
    StoredValue(HighBits(n));
    StoredValue(LowBits(n));
    BigEndianSplit(StoreBe(HighBits(n)), StoreBe(LowBits(n)));
    Power64();
    LengthArith(8 * n);
  }

  lemma Power64()
    ensures Pow2(64) == 0x1_0000_0000_0000_0000
  {
    hide Pow2;
    assert Pow2(8) == 256 by {
      BytePower(0);
      PowerZero();
    }
    Pow2Add(8, 8);
    Pow2Add(16, 16);
    Pow2Add(32, 32);
  }

  lemma PowerZero()
    ensures Pow2(0) == 1
  {
  }

  lemma LengthArith(x: nat)
    ensures (x / 0x1_0000_0000_0000_0000) % 0x1_0000_0000_0000_0000 * 0x1_0000_0000_0000_0000
          + x % 0x1_0000_0000_0000_0000 == x % TWO128
  {
    var q, r := x / 0x1_0000_0000_0000_0000, x % 0x1_0000_0000_0000_0000;
    var a, b := q / 0x1_0000_0000_0000_0000, q % 0x1_0000_0000_0000_0000;
    DivUnique(x, TWO128, a, b * 0x1_0000_0000_0000_0000 + r);
  }

  // ---- the chaining ----

  /** Section 6.4.2: the hash value after block n of the data is the compression of the one before it and that block. */
  function Chained(f: Compress, h: seq<int>, data: seq<int>, n: nat): seq<int>
    requires 128 * n <= |data|
  {
    if n == 0 then h else f(Chained(f, h, data, n - 1), data[128 * (n - 1)..128 * n])
  }

  lemma {:induction false} FoldIsChained(f: Compress, h: seq<int>, data: seq<int>, n: nat)
    requires |data| == 128 * n
    ensures Fold(f, h, data) == Chained(f, h, data, n)
  {
    if n > 0 {
      var first, last := data[..128 * (n - 1)], data[128 * (n - 1)..];
      FoldIsChained(f, h, first, n - 1);
      assert data == first + last;
      FoldAppend(f, h, first, last);
      ChainedLocal(f, h, data, first, n - 1);
      var g := Fold(f, h, first);
      assert last[..BLOCK] == last;
      assert Fold(f, f(g, last), last[BLOCK..]) == f(g, last);
      assert last == data[128 * (n - 1)..128 * n];
    }
  }

  lemma {:induction false} ChainedLocal(f: Compress, h: seq<int>, a: seq<int>, b: seq<int>, n: nat)
    requires 128 * n <= |a| && 128 * n <= |b| && a[..128 * n] == b[..128 * n]
    ensures Chained(f, h, a, n) == Chained(f, h, b, n)
  {
    if n > 0 {
      assert a[..128 * (n - 1)] == a[..128 * n][..128 * (n - 1)] && b[..128 * (n - 1)] == b[..128 * n][..128 * (n - 1)];
      ChainedLocal(f, h, a, b, n - 1);
      assert a[128 * (n - 1)..128 * n] == a[..128 * n][128 * (n - 1)..];
      assert b[128 * (n - 1)..128 * n] == b[..128 * n][128 * (n - 1)..];
    }
  }

  // ---- the digest ----

  /** Bytes 8 i to 8 i + 7 of the digest are word i of the last hash value, most significant byte first. */
  lemma DigestWords(f: Compress, m: seq<int>, i: nat)
    requires IsCompress(f) && IsBytes(m) && i < 8
    ensures |Digest(f, m)| == 64 && |Pad(m)| % 128 == 0
    ensures var h := Chained(f, INITIAL, Pad(m), |Pad(m)| / 128);
            IsWords(h) && BigEndian(Digest(f, m)[8 * i..8 * i + 8]) == h[i]
  {
    hide Fold, Pad, StoreBe, BigEndian, Chained;
    PadIsBytes(m);
    PadLength(m);
    var data := Pad(m);
    FoldWords(f, INITIAL, data);
    FoldIsChained(f, INITIAL, data, |data| / 128);
    var h := Fold(f, INITIAL, data);
    StoredAt(h, i);
    StoredValue(h[i]);
  }

  lemma StoredAt(h: seq<int>, i: nat)
    requires |h| == 8 && i < 8
    ensures StoreWords(h)[8 * i..8 * i + 8] == StoreBe(h[i])
  {
    hide StoreBe;
    var d := StoreWords(h);
    if i == 0 {
      assert d[0..8] == StoreBe(h[0]);
    } else if i == 1 {
      assert d[8..16] == StoreBe(h[1]);
    } else if i == 2 {
      assert d[16..24] == StoreBe(h[2]);
    } else if i == 3 {
      assert d[24..32] == StoreBe(h[3]);
    } else if i == 4 {
      assert d[32..40] == StoreBe(h[4]);
    } else if i == 5 {
      assert d[40..48] == StoreBe(h[5]);
    } else if i == 6 {
      assert d[48..56] == StoreBe(h[6]);
    } else {
      assert d[56..64] == StoreBe(h[7]);
    }
  }
}
