/** Streaming SHA-512 (src/ed25519-donna/ed25519-hash.h, lines 90-186): buffering, the 128-bit bit counter and the
    padding. The compression function is a parameter. */
module Sha512 {
  import opened Arith
  import opened Bytes

  const BLOCK: nat := 128

  type Compress = (seq<int>, seq<int>) -> seq<int>

  ghost predicate IsWords(h: seq<int>) {
    |h| == 8 && forall i :: 0 <= i < 8 ==> 0 <= h[i] < 0x1_0000_0000_0000_0000
  }

  /** A compression function maps eight 64-bit words to eight 64-bit words. */
  ghost predicate IsCompress(f: Compress) {
    forall h, b :: IsWords(h) && |b| == BLOCK && IsBytes(b) ==> IsWords(f(h, b))
  }

  /** The initial hash value of FIPS 180-4, section 5.3.5. */
  const INITIAL: seq<int> := [
    0x6a09e667f3bcc908, 0xbb67ae8584caa73b, 0x3c6ef372fe94f82b, 0xa54ff53a5f1d36f1,
    0x510e527fade682d1, 0x9b05688c2b3e6c1f, 0x1f83d9abfb41bd6b, 0x5be0cd19137e2179]

  // ---- the specification ----

  /** Compressing the complete blocks of data, first to last. */
  function Fold(f: Compress, h: seq<int>, data: seq<int>): seq<int>
    decreases |data|
  {
    if |data| < BLOCK then h else Fold(f, f(h, data[..BLOCK]), data[BLOCK..])
  }

  /** sha512_STORE64_BE: the eight bytes of v, most significant first. */
  function StoreBe(v: int): (b: seq<int>)
    ensures |b| == 8
  {
    [(v / 0x100_0000_0000_0000) % 256, (v / 0x1_0000_0000_0000) % 256, (v / 0x100_0000_0000) % 256,
        (v / 0x1_0000_0000) % 256,
     (v / 0x100_0000) % 256, (v / 0x1_0000) % 256, (v / 0x100) % 256, v % 256]
  }

  /** How many zero bytes follow the byte 0x80. */
  function Zeros(n: nat): nat {
    var left := n % BLOCK;
    if left <= 111 then 111 - left else 239 - left
  }

  /** The number of bits of an n-byte message, as two 64-bit words. */
  function HighBits(n: nat): int {
    (8 * n / 0x1_0000_0000_0000_0000) % 0x1_0000_0000_0000_0000
  }

  function LowBits(n: nat): int {
    8 * n % 0x1_0000_0000_0000_0000
  }

  /** The padding of FIPS 180-4, section 5.1.2. */
  function Padding(n: nat): seq<int> {
    [0x80] + seq(Zeros(n), i => 0) + StoreBe(HighBits(n)) + StoreBe(LowBits(n))
  }

  function Pad(m: seq<int>): seq<int> {
    m + Padding(|m|)
  }

  /** The 64 bytes of eight words. */
  function StoreWords(h: seq<int>): (b: seq<int>)
    requires |h| == 8
    ensures |b| == 64
  {
    StoreBe(h[0]) + StoreBe(h[1]) + StoreBe(h[2]) + StoreBe(h[3]) + StoreBe(h[4]) + StoreBe(h[5]) + StoreBe(h[6])
        + StoreBe(h[7])
  }

  ghost function Digest(f: Compress, m: seq<int>): seq<int>
    requires IsCompress(f) && IsBytes(m)
  {
    PadIsBytes(m);
    FoldWords(f, INITIAL, Pad(m));
    StoreWords(Fold(f, INITIAL, Pad(m)))
  }

  lemma StoreBeIsBytes(v: int)
    ensures IsBytes(StoreBe(v))
  {
  }

  lemma PadIsBytes(m: seq<int>)
    requires IsBytes(m)
    ensures IsBytes(Pad(m))
  {
    StoreBeIsBytes(HighBits(|m|));
    StoreBeIsBytes(LowBits(|m|));
    hide StoreBe;
  }

  lemma {:induction false} FoldWords(f: Compress, h: seq<int>, data: seq<int>)
    requires IsCompress(f) && IsWords(h) && IsBytes(data)
    ensures IsWords(Fold(f, h, data))
    decreases |data|
  {
    hide IsWords;
    if |data| >= BLOCK {
      FoldWords(f, f(h, data[..BLOCK]), data[BLOCK..]);
    }
  }

  /** A padded message is a whole number of blocks. */
  lemma PadLength(m: seq<int>)
    ensures |Pad(m)| % BLOCK == 0
  {
    hide StoreBe;
    assert |Padding(|m|)| == 17 + Zeros(|m|);
  }

  /** Whole blocks can be folded in any number of parts. */
  lemma {:induction false} FoldAppend(f: Compress, h: seq<int>, a: seq<int>, b: seq<int>)
    requires |a| % BLOCK == 0
    ensures Fold(f, h, a + b) == Fold(f, Fold(f, h, a), b)
    decreases |a|
  {
    if |a| == 0 {
      assert a + b == b;
    } else {
      assert (a + b)[..BLOCK] == a[..BLOCK] && (a + b)[BLOCK..] == a[BLOCK..] + b;
      FoldAppend(f, f(h, a[..BLOCK]), a[BLOCK..], b);
    }
  }

  // ---- the bit counter ----

  /** T[0] and T[1] after k blocks of 1024 bits. */
  predicate Counts(t0: int, t1: int, k: nat) {
    t0 == 1024 * (k % 0x40_0000_0000_0000) && t1 == (k / 0x40_0000_0000_0000) % 0x1_0000_0000_0000_0000
  }

  /** Since 1024 divides 2^64, the low word is zero exactly when it has wrapped. */
  lemma CountNext(t0: int, t1: int, k: nat, s0: int, s1: int)
    requires Counts(t0, t1, k)
    requires s0 == (t0 + 1024) % 0x1_0000_0000_0000_0000
    requires s1 == (t1 + if s0 == 0 then 1 else 0) % 0x1_0000_0000_0000_0000
    ensures Counts(s0, s1, k + 1)
  {
    var q, r := k / 0x40_0000_0000_0000, k % 0x40_0000_0000_0000;
    if r + 1 < 0x40_0000_0000_0000 {
      DivUnique(k + 1, 0x40_0000_0000_0000, q, r + 1);
      DivSmall(t0 + 1024, 0x1_0000_0000_0000_0000);
      DivSmall(t1, 0x1_0000_0000_0000_0000);
    } else {
      DivUnique(k + 1, 0x40_0000_0000_0000, q + 1, 0);
      WrapNext(q);
    }
  }

  lemma WrapNext(q: nat)
    ensures (q % 0x1_0000_0000_0000_0000 + 1) % 0x1_0000_0000_0000_0000 == (q + 1) % 0x1_0000_0000_0000_0000
  {
    var a, b := q / 0x1_0000_0000_0000_0000, q % 0x1_0000_0000_0000_0000;
    if b + 1 < 0x1_0000_0000_0000_0000 {
      DivUnique(q + 1, 0x1_0000_0000_0000_0000, a, b + 1);
    } else {
      DivUnique(q + 1, 0x1_0000_0000_0000_0000, a + 1, 0);
    }
  }

  /** The counter plus the bits in the buffer is the length of the message, modulo 2^128. */
  lemma CountAtEnd(t0: int, t1: int, k: nat, left: nat)
    requires Counts(t0, t1, k) && left < BLOCK
    ensures t0 + 8 * left == LowBits(BLOCK * k + left) && t1 == HighBits(BLOCK * k + left)
  {
    var q, r := k / 0x40_0000_0000_0000, k % 0x40_0000_0000_0000;
    DivUnique(8 * (128 * k + left), 0x1_0000_0000_0000_0000, q, 1024 * r + 8 * left);
  }

  // ---- the context ----

  /** The complete blocks of the message m are folded into h, and the rest waits in the buffer. */
  ghost predicate Waiting(f: Compress, h: seq<int>, t0: int, t1: int, left: nat, buf: seq<int>, m: seq<int>) {
    && |buf| == BLOCK && left < BLOCK && left == |m| % BLOCK
    && h == Fold(f, INITIAL, m[..|m| - left])
    && buf[..left] == m[|m| - left..]
    && Counts(t0, t1, |m| / BLOCK)
  }

  /** The message is folded into h up to position start. */
  ghost predicate Folded(f: Compress, h: seq<int>, t0: int, t1: int, m: seq<int>, start: nat) {
    && start <= |m| && start % BLOCK == 0
    && h == Fold(f, INITIAL, m[..start]) && Counts(t0, t1, start / BLOCK)
  }

  lemma WaitingStart(f: Compress, buf: seq<int>)
    requires |buf| == BLOCK
    ensures Waiting(f, INITIAL, 0, 0, 0, buf, [])
  {
  }

  /** The input fits into the buffer: no block is completed. */
  lemma StillWaiting(f: Compress, h: seq<int>, t0: int, t1: int, left: nat, buf: seq<int>, m: seq<int>, input: seq<int>,
      buf': seq<int>)
    requires Waiting(f, h, t0, t1, left, buf, m) && left + |input| < BLOCK && |buf'| == BLOCK
    requires buf'[..left] == buf[..left] && buf'[left..left + |input|] == input
    ensures Waiting(f, h, t0, t1, left + |input|, buf', m + input)
  {
    hide Fold, Counts;
    var n := m + input;
    DivUnique(|n|, BLOCK, |m| / BLOCK, left + |input|);
    assert n[..|n| - (left + |input|)] == m[..|m| - left];
    assert buf'[..left + |input|] == buf'[..left] + input;
  }

  lemma WaitingCounts(f: Compress, h: seq<int>, t0: int, t1: int, left: nat, buf: seq<int>, m: seq<int>)
    requires Waiting(f, h, t0, t1, left, buf, m)
    ensures left <= |m| && (|m| - left) % BLOCK == 0 && Counts(t0, t1, (|m| - left) / BLOCK)
  {
    hide Fold, Counts;
    DivUnique(|m| - left, BLOCK, |m| / BLOCK, 0);
  }

  /** The input completes the buffered block. */
  lemma BufferFolded(f: Compress, h: seq<int>, t0: int, t1: int, left: nat, buf: seq<int>, m: seq<int>, input: seq<int>,
                     buf': seq<int>, h': seq<int>, t0': int, t1': int)
    requires Waiting(f, h, t0, t1, left, buf, m) && BLOCK - left <= |input| && |buf'| == BLOCK
    requires buf'[..left] == buf[..left] && buf'[left..] == input[..BLOCK - left]
    requires h' == Fold(f, h, buf') && Counts(t0', t1', (|m| - left) / BLOCK + 1)
    ensures Folded(f, h', t0', t1', m + input, |m| - left + BLOCK)
    ensures input[BLOCK - left..] == (m + input)[|m| - left + BLOCK..]
  {
    hide Fold, Counts;
    WaitingCounts(f, h, t0, t1, left, buf, m);
    var start := |m| - left;
    DivUnique(start + BLOCK, BLOCK, start / BLOCK + 1, 0);
    FoldAppend(f, INITIAL, m[..start], buf');
    assert buf' == buf'[..left] + buf'[left..];
    assert (m + input)[..start + BLOCK] == m[..start] + buf';
  }

  /** After the whole blocks of the rest, the remainder waits. */
  lemma RestWaiting(f: Compress, m: seq<int>, rest: seq<int>, start: nat, h: seq<int>, t0: int, t1: int, blocks: nat,
                    h': seq<int>, t0': int, t1': int, buf: seq<int>)
    requires Folded(f, h, t0, t1, m, start) && rest == m[start..] && blocks == |rest| / BLOCK * BLOCK
    requires h' == Fold(f, h, rest[..blocks]) && Counts(t0', t1', start / BLOCK + blocks / BLOCK)
    requires |buf| == BLOCK && buf[..|rest| - blocks] == rest[blocks..]
    ensures Waiting(f, h', t0', t1', |rest| - blocks, buf, m)
  {
    hide Fold, Counts;
    FoldAppend(f, INITIAL, m[..start], rest[..blocks]);
    assert m[..start + blocks] == m[..start] + rest[..blocks];
    DivUnique(|m|, BLOCK, start / BLOCK + blocks / BLOCK, |rest| - blocks);
  }

  lemma NothingWaits(f: Compress, h: seq<int>, t0: int, t1: int, buf: seq<int>, m: seq<int>, input: seq<int>)
    requires Waiting(f, h, t0, t1, 0, buf, m)
    ensures Folded(f, h, t0, t1, m + input, |m|) && (m + input)[|m|..] == input
  {
    hide Fold, Counts;
    assert m[..|m| - 0] == m && (m + input)[..|m|] == m;
  }

  class Context {
    const compress: Compress
    var h: seq<int>
    var t0: int
    var t1: int
    var leftover: nat
    const buffer: array<int>
    /** Everything that has been hashed so far. */
    ghost var message: seq<int>

    ghost predicate Valid()
      reads this, buffer
    {
      Waiting(compress, h, t0, t1, leftover, buffer[..], message)
    }

    /** ed25519_hash_init */
    constructor (compress: Compress)
      ensures Valid() && message == [] && this.compress == compress && fresh(buffer)
    {
      this.compress := compress;
      h := INITIAL;
      t0, t1 := 0, 0;
      leftover := 0;
      buffer := new int[BLOCK];
      message := [];
      new;
      WaitingStart(compress, buffer[..]);
    }

    /** sha512_blocks: h, T[0] and T[1] after the blocks of input. */
    method Blocks(input: seq<int>, ghost k: nat)
      requires |input| % BLOCK == 0 && Counts(t0, t1, k)
      modifies this`h, this`t0, this`t1
      ensures h == Fold(compress, old(h), input) && Counts(t0, t1, k + |input| / BLOCK)
    {
      hide Counts;
      var i := 0;
      ghost var n := k;
      while i < |input|
        invariant 0 <= i <= |input| && i % BLOCK == 0 && n == k + i / BLOCK
        invariant Fold(compress, h, input[i..]) == Fold(compress, old(h), input)
        invariant Counts(t0, t1, n)
      {
        FoldStep(compress, h, input, i);
        h := compress(h, input[i..i + BLOCK]);
        ghost var s0, s1 := t0, t1;
        t0 := (t0 + 1024) % 0x1_0000_0000_0000_0000;
        t1 := (t1 + if t0 == 0 then 1 else 0) % 0x1_0000_0000_0000_0000;
        CountNext(s0, s1, n, t0, t1);
        i := i + BLOCK;
        n := n + 1;
      }
    }

    /** memcpy(buffer + at, in, |in|) */
    method Store(at: nat, input: seq<int>)
      requires buffer.Length == BLOCK && at + |input| <= BLOCK
      modifies buffer
      ensures buffer[..at] == old(buffer[..at]) && buffer[at..at + |input|] == input
      ensures buffer[at + |input|..] == old(buffer[at + |input|..])
    {
      for i := 0 to |input|
        invariant forall k :: 0 <= k < i ==> buffer[at + k] == input[k]
        invariant forall k :: 0 <= k < BLOCK && !(at <= k < at + i) ==> buffer[k] == old(buffer[k])
      {
        buffer[at + i] := input[i];
      }
    }

    /** ed25519_hash_update: the message grows by the input. */
    method Update(input: seq<int>)
      requires Valid()
      modifies this`h, this`t0, this`t1, this`leftover, this`message, buffer
      ensures Valid() && message == old(message) + input
    {
      hide Waiting, Folded, Fold, Counts;
      var rest := input;
      ghost var m, buf := message, buffer[..];
      message := message + input;
      BufferSize(compress, h, t0, t1, leftover, buffer[..], m);
      if leftover != 0 {
        var left := leftover;
        var want := if BLOCK - left < |input| then BLOCK - left else |input|;
        Store(left, input[..want]);
        leftover := left + want;
        assert buffer[..][..left] == buf[..left];
        if leftover < BLOCK {
          assert input[..want] == input && buffer[..][left..left + want] == input;
          StillWaiting(compress, h, t0, t1, left, buf, m, input, buffer[..]);
          return;
        }
        rest := input[want..];
        assert buffer[..][left..] == input[..want];
        WaitingCounts(compress, h, t0, t1, left, buf, m);
        ghost var h0, s0, s1 := h, t0, t1;
        Blocks(buffer[..], (|m| - left) / BLOCK);
        BufferFolded(compress, h0, s0, s1, left, buf, m, input, buffer[..], h, t0, t1);
      } else {
        NothingWaits(compress, h, t0, t1, buf, m, input);
      }
      Absorb(rest);
    }

    /** The end of ed25519_hash_update: compress whole blocks and keep the remainder. */
    method Absorb(rest: seq<int>)
      requires buffer.Length == BLOCK && |rest| <= |message| && rest == message[|message| - |rest|..]
      requires Folded(compress, h, t0, t1, message, |message| - |rest|)
      modifies this`h, this`t0, this`t1, this`leftover, buffer
      ensures Valid()
    {
      hide Waiting, Fold, Counts;
      ghost var start, h0, s0, s1 := |message| - |rest|, h, t0, t1;
      var blocks := |rest| / BLOCK * BLOCK;
      leftover := |rest| - blocks;
      FoldNone(compress, h);
      if blocks != 0 {
        Blocks(rest[..blocks], start / BLOCK);
      }
      if leftover != 0 {
        Store(0, rest[blocks..]);
      }
      assert buffer[..][..leftover] == rest[blocks..];
      RestWaiting(compress, message, rest, start, h0, s0, s1, blocks, h, t0, t1, buffer[..]);
    }

    /** memset(buffer + from, 0, to - from) */
    method Clear(from: nat, to: nat)
      requires buffer.Length == BLOCK && from <= to <= BLOCK
      modifies buffer
      ensures buffer[..from] == old(buffer[..from]) && buffer[from..to] == ZeroBytes(to - from)
      ensures buffer[to..] == old(buffer[to..])
    {
      for i := from to to
        invariant forall k :: from <= k < i ==> buffer[k] == 0
        invariant forall k :: 0 <= k < BLOCK && !(from <= k < i) ==> buffer[k] == old(buffer[k])
      {
        buffer[i] := 0;
      }
    }

    /** The last block: what is in the first 112 bytes, then the bit length. */
    method LastBlock(u1: int, u0: int, ghost k: nat, ghost first: seq<int>)
      requires buffer.Length == BLOCK && buffer[..112] == first && Counts(t0, t1, k)
      modifies this`h, this`t0, this`t1, buffer
      ensures h == Fold(compress, old(h), first + StoreBe(u1) + StoreBe(u0))
    {
      hide Counts, Fold, StoreBe;
      Store(112, StoreBe(u1));
      assert buffer[..120] == first + StoreBe(u1);
      Store(120, StoreBe(u0));
      assert buffer[..] == first + StoreBe(u1) + StoreBe(u0);
      Blocks(buffer[..], k);
    }

    /** ed25519_hash_final: the digest of the message. */
    method Final() returns (hash: seq<int>)
      requires Valid() && IsCompress(compress) && IsBytes(message)
      modifies this`h, this`t0, this`t1, buffer
      ensures hash == Digest(compress, old(message))
    {
      hide Counts, Fold, Waiting, StoreBe, StoreWords, IsCompress, IsWords, IsBytes;
      BufferSize(compress, h, t0, t1, leftover, buffer[..], message);
      ghost var buf, h0, k, s0, s1 := buffer[..], h, |message| / BLOCK, t0, t1;
      WaitingBlocks(compress, h, t0, t1, leftover, buffer[..], message);
      var u0, u1 := t0 + leftover * 8, t1;
      buffer[leftover] := 0x80;
      assert buffer[..leftover + 1] == buf[..leftover] + [0x80];
      if leftover <= 111 {
        Clear(leftover + 1, 112);
        ghost var first := buf[..leftover] + [0x80] + ZeroBytes(111 - leftover);
        assert buffer[..112] == first;
        LastBlock(u1, u0, k, first);
        FinalOne(compress, h0, s0, s1, leftover, buf, message);
      } else {
        Clear(leftover + 1, 128);
        ghost var full := buf[..leftover] + [0x80] + ZeroBytes(127 - leftover);
        assert buffer[..] == full;
        Blocks(buffer[..], k);
        Clear(0, 112);
        assert buffer[..112] == ZeroBytes(112);
        LastBlock(u1, u0, k + 1, ZeroBytes(112));
        FinalTwo(compress, h0, s0, s1, leftover, buf, message);
      }
      FinalWords(compress, message, h);
      hash := StoreWords(h);
    }
  }

  /** n zero bytes */
  function ZeroBytes(n: nat): (z: seq<int>)
    ensures |z| == n && forall i :: 0 <= i < n ==> z[i] == 0
  {
    seq(n, i => 0)
  }

  lemma WaitingBlocks(f: Compress, h: seq<int>, t0: int, t1: int, left: nat, buf: seq<int>, m: seq<int>)
    requires Waiting(f, h, t0, t1, left, buf, m)
    ensures Counts(t0, t1, |m| / BLOCK)
  {
    hide Fold, Counts;
  }

  lemma FinalWords(f: Compress, m: seq<int>, h: seq<int>)
    requires IsCompress(f) && IsBytes(m) && h == Fold(f, INITIAL, Pad(m))
    ensures |h| == 8 && Digest(f, m) == StoreWords(h)
  {
    hide Fold, Pad, IsBytes, StoreWords;
    PadIsBytes(m);
    FoldWords(f, INITIAL, Pad(m));
  }

  /** What is folded after the complete blocks: the buffered bytes and the padding. */
  lemma PadTail(f: Compress, h: seq<int>, t0: int, t1: int, left: nat, buf: seq<int>, m: seq<int>)
    requires Waiting(f, h, t0, t1, left, buf, m)
    ensures Fold(f, INITIAL, Pad(m)) == Fold(f, h, buf[..left] + Padding(|m|))
    ensures left == |m| % BLOCK && HighBits(|m|) == t1 && LowBits(|m|) == t0 + left * 8
  {
    hide Fold, Padding;
    WaitingCounts(f, h, t0, t1, left, buf, m);
    var start := |m| - left;
    FoldAppend(f, INITIAL, m[..start], buf[..left] + Padding(|m|));
    assert m[..start] + (buf[..left] + Padding(|m|)) == Pad(m);
    CountAtEnd(t0, t1, |m| / BLOCK, left);
    assert |m| == BLOCK * (|m| / BLOCK) + left;
  }

  lemma FinalOne(f: Compress, h: seq<int>, t0: int, t1: int, left: nat, buf: seq<int>, m: seq<int>)
    requires Waiting(f, h, t0, t1, left, buf, m) && left <= 111
    ensures Fold(f, h, buf[..left] + [0x80] + ZeroBytes(111 - left) + StoreBe(t1) + StoreBe(t0 + left * 8))
        == Fold(f, INITIAL, Pad(m))
  {
    hide Fold, StoreBe, HighBits, LowBits, Waiting, Pad;
    BufferSize(f, h, t0, t1, left, buf, m);
    PadTail(f, h, t0, t1, left, buf, m);
    var lengths := StoreBe(t1) + StoreBe(t0 + left * 8);
    assert Padding(|m|) == [0x80] + ZeroBytes(111 - left) + StoreBe(t1) + StoreBe(t0 + left * 8);
    assert buf[..left] + [0x80] + ZeroBytes(111 - left) + StoreBe(t1) + StoreBe(t0 + left * 8) == buf[..left]
        + Padding(|m|);
  }

  lemma FinalTwo(f: Compress, h: seq<int>, t0: int, t1: int, left: nat, buf: seq<int>, m: seq<int>)
    requires Waiting(f, h, t0, t1, left, buf, m) && left > 111
    ensures Fold(f, Fold(f, h, buf[..left] + [0x80] + ZeroBytes(127 - left)),
        ZeroBytes(112) + StoreBe(t1) + StoreBe(t0 + left * 8))
         == Fold(f, INITIAL, Pad(m))
  {
    hide Fold, StoreBe, HighBits, LowBits, Waiting, Pad;
    BufferSize(f, h, t0, t1, left, buf, m);
    PadTail(f, h, t0, t1, left, buf, m);
    var a, b := buf[..left] + [0x80] + ZeroBytes(127 - left), ZeroBytes(112) + StoreBe(t1) + StoreBe(t0 + left * 8);
    assert Padding(|m|) == [0x80] + ZeroBytes(239 - left) + StoreBe(t1) + StoreBe(t0 + left * 8);
    assert ZeroBytes(239 - left) == ZeroBytes(127 - left) + ZeroBytes(112);
    assert a + b == buf[..left] + Padding(|m|);
    FoldAppend(f, h, a, b);
  }

  lemma BufferSize(f: Compress, h: seq<int>, t0: int, t1: int, left: nat, buf: seq<int>, m: seq<int>)
    requires Waiting(f, h, t0, t1, left, buf, m)
    ensures |buf| == BLOCK && left < BLOCK
  {
  }

  lemma FoldNone(f: Compress, h: seq<int>)
    ensures Fold(f, h, []) == h
  {
  }

  lemma FoldStep(f: Compress, h: seq<int>, data: seq<int>, i: nat)
    requires i + BLOCK <= |data|
    ensures Fold(f, h, data[i..]) == Fold(f, f(h, data[i..i + BLOCK]), data[i + BLOCK..])
  {
    assert data[i..][..BLOCK] == data[i..i + BLOCK] && data[i..][BLOCK..] == data[i + BLOCK..];
  }

  /** The concatenation of the parts. */
  function Joined(parts: seq<seq<int>>, n: nat): seq<int>
    requires n <= |parts|
  {
    if n == 0 then [] else Joined(parts, n - 1) + parts[n - 1]
  }

  /** However a message is split over updates, the digest is that of the whole message. */
  method HashParts(f: Compress, parts: seq<seq<int>>) returns (hash: seq<int>)
    requires IsCompress(f) && IsBytes(Joined(parts, |parts|))
    ensures hash == Digest(f, Joined(parts, |parts|))
  {
    var context := new Context(f);
    for i := 0 to |parts|
      invariant context.Valid() && context.compress == f && context.message == Joined(parts, i)
      invariant fresh(context) && fresh(context.buffer)
    {
      context.Update(parts[i]);
    }
    hash := context.Final();
  }

  /** The digest is a 64-byte string, as the signature scheme expects of its hash. */
  lemma DigestIsBytes(f: Compress, m: seq<int>)
    requires IsCompress(f) && IsBytes(m)
    ensures |Digest(f, m)| == 64 && IsBytes(Digest(f, m))
  {
    hide Fold, Pad, StoreBe;
    PadIsBytes(m);
    FoldWords(f, INITIAL, Pad(m));
    var h := Fold(f, INITIAL, Pad(m));
    forall v: int
      ensures IsBytes(StoreBe(v))
    {
      StoreBeIsBytes(v);
    }
  }

  lemma StoreBeInjective(v: int, w: int)
    requires 0 <= v < 0x1_0000_0000_0000_0000 && 0 <= w < 0x1_0000_0000_0000_0000 && StoreBe(v) == StoreBe(w)
    ensures v == w
  {
    forall i | 0 <= i < 8
      ensures WordBytes(v)[i] == WordBytes(w)[i]
    {
      assert WordBytes(v)[i] == StoreBe(v)[7 - i] && WordBytes(w)[i] == StoreBe(w)[7 - i];
    }
    assert WordBytes(v) == WordBytes(w);
    hide WordBytes, StoreBe;
    WordBytesRoundTrip(v);
    WordBytesRoundTrip(w);
  }

  /** Padding loses nothing: below the length limit of FIPS 180-4 different messages stay different. */
  lemma PadInjective(m: seq<int>, n: seq<int>)
    requires 8 * |m| < TWO128 && 8 * |n| < TWO128 && Pad(m) == Pad(n)
    ensures m == n
  {
    hide StoreBe;
    var p, q := Pad(m), Pad(n);
    assert p[|p| - 8..] == StoreBe(LowBits(|m|)) && q[|q| - 8..] == StoreBe(LowBits(|n|));
    assert p[|p| - 16..|p| - 8] == StoreBe(HighBits(|m|)) && q[|q| - 16..|q| - 8] == StoreBe(HighBits(|n|));
    StoreBeInjective(LowBits(|m|), LowBits(|n|));
    StoreBeInjective(HighBits(|m|), HighBits(|n|));
    WholeLength(|m|);
    WholeLength(|n|);
    assert p[..|m|] == m && q[..|n|] == n;
  }

  lemma WholeLength(n: nat)
    requires 8 * n < TWO128
    ensures 8 * n == 0x1_0000_0000_0000_0000 * HighBits(n) + LowBits(n)
  {
    DivSmall(8 * n / 0x1_0000_0000_0000_0000, 0x1_0000_0000_0000_0000);
  }
}
