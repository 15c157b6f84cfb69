/** Little-endian byte strings and the 64-bit words the source loads from and stores to them. */
module Bytes {
  import opened Arith

  ghost predicate IsBytes(b: seq<int>) {
    forall i :: 0 <= i < |b| ==> 0 <= b[i] < 256
  }

  /** The number whose little-endian bytes are b[i..]. */
  function LeFrom(b: seq<int>, i: nat): int
    requires i <= |b|
    decreases |b| - i
  {
    if i == |b| then 0 else b[i] + 256 * LeFrom(b, i + 1)
  }

  function LeValue(b: seq<int>): int {
    LeFrom(b, 0)
  }

  /** U8TO64_LE(b + i) */
  function Word(b: seq<int>, i: nat): int
    requires i + 8 <= |b|
  {
    b[i] + 0x100 * b[i + 1] + 0x1_0000 * b[i + 2] + 0x100_0000 * b[i + 3] + 0x1_0000_0000 * b[i + 4]
    + 0x100_0000_0000 * b[i + 5] + 0x1_0000_0000_0000 * b[i + 6] + 0x100_0000_0000_0000 * b[i + 7]
  }

  lemma WordBound(b: seq<int>, i: nat)
    requires IsBytes(b) && i + 8 <= |b|
    ensures 0 <= Word(b, i) < 0x1_0000_0000_0000_0000
  {
  }

  lemma {:induction false} LeFromWord(b: seq<int>, i: nat)
    requires i + 8 <= |b|
    ensures LeFrom(b, i) == Word(b, i) + 0x1_0000_0000_0000_0000 * LeFrom(b, i + 8)
  {
    assert LeFrom(b, i + 6) == b[i + 6] + 256 * (b[i + 7] + 256 * LeFrom(b, i + 8));
    assert LeFrom(b, i + 4) == b[i + 4] + 256 * (b[i + 5] + 256 * LeFrom(b, i + 6));
    assert LeFrom(b, i + 2) == b[i + 2] + 256 * (b[i + 3] + 256 * LeFrom(b, i + 4));
    assert LeFrom(b, i) == b[i] + 256 * (b[i + 1] + 256 * LeFrom(b, i + 2));
  }

  /** Trailing zero bytes do not change the number. */
  lemma {:induction false} LePad(b: seq<int>, c: seq<int>, i: nat)
    requires i <= |b| <= |c| && c[..|b|] == b
    requires forall k :: |b| <= k < |c| ==> c[k] == 0
    ensures LeFrom(c, i) == LeFrom(b, i)
    decreases |b| - i
  {
    if i == |b| {
      LeZeros(c, i);
    } else {
      LePad(b, c, i + 1);
      assert c[i] == c[..|b|][i];
    }
  }

  lemma {:induction false} LeZeros(c: seq<int>, i: nat)
    requires i <= |c| && forall k :: i <= k < |c| ==> c[k] == 0
    ensures LeFrom(c, i) == 0
    decreases |c| - i
  {
    if i < |c| {
      LeZeros(c, i + 1);
    }
  }

  /** U64TO8_LE: the eight bytes of v. */
  function WordBytes(v: int): (b: seq<int>)
    ensures |b| == 8
  {
    [v % 256, (v / 0x100) % 256, (v / 0x1_0000) % 256, (v / 0x100_0000) % 256, (v / 0x1_0000_0000) % 256,
     (v / 0x100_0000_0000) % 256, (v / 0x1_0000_0000_0000) % 256, (v / 0x100_0000_0000_0000) % 256]
  }

  lemma WordBytesRoundTrip(v: int)
    requires 0 <= v < 0x1_0000_0000_0000_0000
    ensures IsBytes(WordBytes(v)) && Word(WordBytes(v), 0) == v
  {
    var v1 := v / 0x100; var v2 := v1 / 0x100; var v3 := v2 / 0x100; var v4 := v3 / 0x100;
    var v5 := v4 / 0x100; var v6 := v5 / 0x100; var v7 := v6 / 0x100;
    DivUnique(v, 0x1_0000, v2, v % 0x100 + 0x100 * (v1 % 0x100));
    DivUnique(v, 0x100_0000, v3, v % 0x1_0000 + 0x1_0000 * (v2 % 0x100));
    DivUnique(v, 0x1_0000_0000, v4, v % 0x100_0000 + 0x100_0000 * (v3 % 0x100));
    DivUnique(v, 0x100_0000_0000, v5, v % 0x1_0000_0000 + 0x1_0000_0000 * (v4 % 0x100));
    DivUnique(v, 0x1_0000_0000_0000, v6, v % 0x100_0000_0000 + 0x100_0000_0000 * (v5 % 0x100));
    DivUnique(v, 0x100_0000_0000_0000, v7, v % 0x1_0000_0000_0000 + 0x1_0000_0000_0000 * (v6 % 0x100));
    DivSmall(v7, 256);
  }

  /** Four words make a 32-byte string. */
  lemma LeOfFourWords(b: seq<int>, w0: int, w1: int, w2: int, w3: int)
    requires b == WordBytes(w0) + WordBytes(w1) + WordBytes(w2) + WordBytes(w3)
    requires 0 <= w0 < 0x1_0000_0000_0000_0000 && 0 <= w1 < 0x1_0000_0000_0000_0000
    requires 0 <= w2 < 0x1_0000_0000_0000_0000 && 0 <= w3 < 0x1_0000_0000_0000_0000
    ensures |b| == 32 && IsBytes(b)
    ensures LeValue(b) == w0 + 0x1_0000_0000_0000_0000 * w1 + 0x1_0000_0000_0000_0000_0000_0000_0000_0000 * w2
                        + 0x1_0000_0000_0000_0000_0000_0000_0000_0000_0000_0000_0000_0000 * w3
  {
    hide WordBytes, Word, LeFrom;
    WordBytesRoundTrip(w0);
    WordBytesRoundTrip(w1);
    WordBytesRoundTrip(w2);
    WordBytesRoundTrip(w3);
    WordLocal(b, 0, WordBytes(w0));
    WordLocal(b, 8, WordBytes(w1));
    WordLocal(b, 16, WordBytes(w2));
    WordLocal(b, 24, WordBytes(w3));
    LeOfWords(b);
  }

  lemma WordLocal(b: seq<int>, i: nat, c: seq<int>)
    requires i + 8 <= |b| && |c| == 8 && b[i..i + 8] == c
    ensures Word(b, i) == Word(c, 0)
  {
    assert forall k :: 0 <= k < 8 ==> c[k] == b[i + k];
  }

  lemma LeOfWords(b: seq<int>)
    requires |b| == 32
    ensures LeValue(b) == Word(b, 0) + 0x1_0000_0000_0000_0000 * Word(b, 8)
                        + 0x1_0000_0000_0000_0000_0000_0000_0000_0000 * Word(b, 16)
                        + 0x1_0000_0000_0000_0000_0000_0000_0000_0000_0000_0000_0000_0000 * Word(b, 24)
  {
    LeFromWord(b, 0);
    LeFromWord(b, 8);
    LeFromWord(b, 16);
    LeFromWord(b, 24);
    assert LeFrom(b, 32) == 0;
    hide Word, LeFrom;
  }

  lemma {:induction false} LeNonnegative(b: seq<int>, i: nat)
    requires IsBytes(b) && i <= |b|
    ensures LeFrom(b, i) >= 0
    decreases |b| - i
  {
    if i < |b| {
      LeNonnegative(b, i + 1);
    }
  }

  /** Equal-length byte strings with the same value are equal. */
  lemma {:induction false} LeInjective(a: seq<int>, b: seq<int>, i: nat)
    requires IsBytes(a) && IsBytes(b) && |a| == |b| && i <= |a|
    requires LeFrom(a, i) == LeFrom(b, i)
    ensures a[i..] == b[i..]
    decreases |a| - i
  {
    if i < |a| {
      assert a[i] - b[i] == 256 * (LeFrom(b, i + 1) - LeFrom(a, i + 1));
      LeInjective(a, b, i + 1);
      assert a[i..] == [a[i]] + a[i + 1..];
      assert b[i..] == [b[i]] + b[i + 1..];
    }
  }
}
