/** DER encodings of lengths, integers, object identifiers, sequences and signatures
    (bin/python/ecdsa/der.py, lines 12-49 and 62-145; bin/python/ecdsa/util.py, lines 197-198 and 234-247).
    Strings are sequences of bytes, and every exception is the result Failed. */
module Der {
  import opened Arith
  import opened Outcome

  type Byte = x: int | 0 <= x < 256
  type Bytes = seq<Byte>

  /** Python's s[a:b], which clips its bounds. */
  function Slice(s: Bytes, a: nat, b: nat): Bytes {
    var lo := if a < |s| then a else |s|;
    var hi := if b < |s| then b else |s|;
    if lo <= hi then s[lo..hi] else []
  }

  // ---- big-endian numbers ----

  /** unhexlify("%x" % n), padded to an even number of digits: the shortest big-endian bytes of n. */
  function BeBytes(n: nat): (b: Bytes)
    ensures |b| >= 1
  {
    if n < 256 then [n] else BeBytes(n / 256) + [n % 256]
  }

  /** int(hexlify(b), 16) */
  function BeValue(b: Bytes): nat {
    if |b| == 0 then 0 else 256 * BeValue(b[..|b| - 1]) + b[|b| - 1]
  }

  function Power256(n: nat): nat {
    if n == 0 then 1 else 256 * Power256(n - 1)
  }

  lemma {:induction false} BeRoundTrip(n: nat)
    ensures BeValue(BeBytes(n)) == n
  {
    if n >= 256 {
      BeRoundTrip(n / 256);
      var b := BeBytes(n);
      assert b[..|b| - 1] == BeBytes(n / 256);
    } else {
      assert BeBytes(n)[..0] == [];
    }
  }

  /** The number of bytes grows by one with every factor of 256. */
  lemma {:induction false} BeLength(n: nat, k: nat)
    requires k >= 1
    ensures |BeBytes(n)| <= k <==> n < Power256(k)
  {
    if k == 1 {
      assert Power256(1) == 256 * Power256(0);
    } else if n >= 256 {
      BeLength(n / 256, k - 1);
      var p := Power256(k - 1);
      assert Power256(k) == 256 * p;
    } else {
      PowerAtLeast(k);
    }
  }

  lemma {:induction false} PowerAtLeast(k: nat)
    requires k >= 1
    ensures Power256(k) >= 256
  {
    if k > 1 {
      PowerAtLeast(k - 1);
    } else {
      assert Power256(1) == 256 * Power256(0);
    }
  }

  // ---- lengths ----

  /** int2byte */
  function OneByte(n: int): Result<Bytes> {
    if 0 <= n < 256 then Done([n]) else Failed
  }

  /** encode_length. 0x80 | llen keeps the low seven bits of llen and, from 256 on, is no byte any more. */
  function EncodeLength(l: int): Result<Bytes> {
    if l < 0 then Failed
    else if l < 0x80 then Done([l])
    else
      var s := BeBytes(l);
      if |s| < 256 then Done([0x80 + |s| % 128] + s) else Failed
  }

  /** read_length: the length and how many bytes it took. */
  function ReadLength(s: Bytes): Result<(nat, nat)> {
    if |s| == 0 then Failed
    else
      var num := s[0];
      if num < 128 then Done((num, 1))
      else
        var llen := num % 128;
        if llen > |s| - 1 || llen == 0 then Failed else Done((BeValue(s[1..1 + llen]), 1 + llen))
  }

  lemma MiddleSlice<T>(a: seq<T>, b: seq<T>, c: seq<T>)
    ensures (a + b + c)[|a|..|a| + |b|] == b
  {
  }

  lemma ReadShort(s: Bytes)
    requires |s| > 0 && s[0] < 128
    ensures ReadLength(s) == Done((s[0], 1))
  {
  }

  lemma ReadLongIs(s: Bytes, llen: nat)
    requires 1 <= llen <= 127 && llen < |s| && s[0] == 128 + llen
    ensures ReadLength(s) == Done((BeValue(s[1..1 + llen]), 1 + llen))
  {
    hide BeValue;
    assert s[0] % 128 == llen;
  }

  /** The long form: the count byte, the digits, and anything after them. */
  lemma ReadLong(s: Bytes, digits: Bytes, rest: Bytes)
    requires 1 <= |digits| <= 127 && s == [128 + |digits|] + digits + rest
    ensures ReadLength(s) == Done((BeValue(digits), 1 + |digits|))
  {
    hide BeValue, ReadLength;
    ReadLongIs(s, |digits|);
    MiddleSlice([128 + |digits|], digits, rest);
  }

  /** How many bytes a long-form length takes. */
  lemma LongTakes(s: Bytes)
    requires |s| > 0 && s[0] >= 128
    ensures ReadLength(s).Done? ==> ReadLength(s).value.1 == 1 + (s[0] - 128)
  {
    hide BeValue;
    assert s[0] % 128 == s[0] - 128;
  }

  /** A length is read back, whatever follows it, exactly if its digits fit 127 bytes. */
  lemma LengthRoundTrip(l: nat, rest: Bytes)
    requires EncodeLength(l).Done?
    ensures var b := EncodeLength(l).value;
            ReadLength(b + rest) == Done((l, |b|)) <==> l < Power256(127)
  {
    hide BeValue, BeBytes, Power256, ReadLength;
    BeLength(l, 127);
    var b := EncodeLength(l).value;
    if l < 0x80 {
      PowerAtLeast(127);
      ReadShort(b + rest);
    } else {
      var s := BeBytes(l);
      BeRoundTrip(l);
      if |s| <= 127 {
        assert |s| % 128 == |s|;
        ReadLong(b + rest, s, rest);
      } else {
        LongTakes(b + rest);
        assert (b + rest)[0] == 0x80 + |s| % 128;
      }
    }
  }

  /** When encode_length succeeds. */
  lemma EncodeLengthIff(l: int)
    ensures EncodeLength(l).Done? <==> 0 <= l < Power256(255)
  {
    hide BeBytes, Power256;
    if l >= 0 {
      BeLength(l, 255);
      PowerAtLeast(255);
    }
  }

  // ---- integers ----

  /** encode_integer: one byte for the length, and a zero byte before a leading byte above 0x7f. */
  function EncodeInteger(r: int): Result<Bytes> {
    if r < 0 then Failed
    else
      var s := Content(r);
      if |s| < 256 then Done([0x02, |s|] + s) else Failed
  }

  function Content(r: nat): Bytes {
    var s := BeBytes(r);
    if s[0] <= 0x7f then s else [0] + s
  }

  /** remove_integer */
  function RemoveInteger(s: Bytes): Result<(int, Bytes)> {
    if |s| == 0 || s[0] != 0x02 then Failed
    else
      match ReadLength(s[1..])
      case Failed => Failed
      case Done(l) =>
        var number := Slice(s, 1 + l.1, 1 + l.1 + l.0);
        if |number| == 0 || number[0] >= 0x80 then Failed
        else Done((BeValue(number), Slice(s, 1 + l.1 + l.0, |s|)))
  }

  /** The three parts of an encoded integer. */
  lemma IntegerContent(r: nat)
    ensures var c := Content(r); |c| >= 1 && c[0] <= 0x7f && BeValue(c) == r
    ensures |Content(r)| <= 127 <==> r < 128 * Power256(126)
  {
    var s := BeBytes(r);
    BeRoundTrip(r);
    if s[0] > 0x7f {
      LeadingZero(s);
    }
    ContentLimit(r);
    hide BeBytes, BeValue, Power256;
  }

  lemma {:induction false} LeadingZero(s: Bytes)
    ensures BeValue([0] + s) == BeValue(s)
  {
    if |s| == 0 {
      assert ([0] + s)[..0] == [];
    } else {
      LeadingZero(s[..|s| - 1]);
      assert ([0] + s)[..|s|] == [0] + s[..|s| - 1];
    }
  }

  /** The leading byte of a k-byte number is at most 0x7f exactly below half of the range. */
  lemma {:induction false} LeadingByte(r: nat, k: nat)
    requires k >= 1 && |BeBytes(r)| == k
    ensures BeBytes(r)[0] <= 0x7f <==> r < 128 * Power256(k - 1)
  {
    if k == 1 {
      assert r < 256;
      assert Power256(0) == 1;
    } else {
      LeadingByte(r / 256, k - 1);
      assert BeBytes(r)[0] == BeBytes(r / 256)[0];
      var p := 128 * Power256(k - 2);
      assert 128 * Power256(k - 1) == 256 * p;
    }
  }

  lemma ContentLimit(r: nat)
    ensures |Content(r)| <= 127 <==> r < 128 * Power256(126)
  {
    hide BeBytes, Power256;
    var s := BeBytes(r);
    BeLength(r, 126);
    BeLength(r, 127);
    SevenBits();
    if |s| == 127 {
      LeadingByte(r, 127);
    }
  }

  lemma SevenBits()
    ensures Power256(126) <= 128 * Power256(126) <= Power256(127)
  {
  }

  lemma {:induction false} BeSplit(a: Bytes, b: Bytes)
    ensures BeValue(a + b) == BeValue(a) * Power256(|b|) + BeValue(b)
  {
    if |b| == 0 {
      assert a + b == a;
      assert Power256(0) == 1;
    } else {
      BeSplit(a, b[..|b| - 1]);
      assert (a + b)[..|a + b| - 1] == a + b[..|b| - 1];
      SplitArith(BeValue(a), Power256(|b| - 1), BeValue(b[..|b| - 1]));
    }
  }

  lemma SplitArith(x: int, p: int, y: int)
    ensures 256 * (x * p + y) == x * (256 * p) + 256 * y
  {
  }

  lemma SliceParts(a: Bytes, b: Bytes, c: Bytes)
    ensures Slice(a + b + c, |a|, |a| + |b|) == b && Slice(a + b + c, |a| + |b|, |a + b + c|) == c
  {
    var s := a + b + c;
    assert s[|a|..|a| + |b|] == b && s[|a| + |b|..] == c;
  }

  /** remove_integer once the length is read. */
  lemma RemoveIs(s: Bytes, v: nat, k: nat)
    requires |s| > 0 && s[0] == 0x02 && ReadLength(s[1..]) == Done((v, k))
    ensures var number := Slice(s, 1 + k, 1 + k + v);
            RemoveInteger(s) == if |number| == 0 || number[0] >= 0x80 then Failed else Done((BeValue(number),
                Slice(s, 1 + k + v, |s|)))
  {
    hide BeValue, Slice, ReadLength;
  }

  /** The short form: content, then the rest. */
  lemma ShortInteger(c: Bytes, rest: Bytes)
    requires 1 <= |c| <= 127 && c[0] <= 0x7f
    ensures RemoveInteger([0x02, |c|] + c + rest) == Done((BeValue(c), rest))
  {
    hide BeValue, Slice, ReadLength, RemoveInteger;
    var t := [0x02, |c|] + c + rest;
    ReadShort(t[1..]);
    RemoveIs(t, |c|, 1);
    SliceParts([0x02, |c|], c, rest);
  }

  /** A count of 128 or more is taken for the long form of a length, and the integer is not read back. */
  lemma LongInteger(c: Bytes, rest: Bytes)
    requires 128 <= |c| < 256
    ensures RemoveInteger([0x02, |c|] + c + rest) != Done((BeValue(c), rest))
  {
    hide BeValue, Slice, ReadLength, RemoveInteger, Power256;
    var t: Bytes, llen: nat := [0x02, |c|] + c + rest, |c| - 128;
    if llen == 0 {
      NoDigits(t);
    } else {
      var head, tail := c[..llen], c[llen..];
      assert t[1..] == [128 + llen] + head + (tail + rest);
      ReadLong(t[1..], head, tail + rest);
      var v := BeValue(head);
      RemoveIs(t, v, 1 + llen);
      assert c == head + tail;
      BeSplit(head, tail);
      var a: Bytes := [0x02, |c|] + head;
      WrongSlice(a, tail, rest, v);
      assert t == a + tail + rest && |a| == 2 + llen;
      if v > 0 {
        PositiveTerm(v, |tail|);
      }
    }
  }

  /** A long form without digits is refused. */
  lemma NoDigits(t: Bytes)
    requires |t| >= 2 && t[0] == 0x02 && t[1] == 128
    ensures RemoveInteger(t) == Failed
  {
    hide BeValue, Slice;
    assert t[1..][0] == 128;
  }

  /** If what is left is the rest, then the whole tail was taken, and the length was not zero. */
  lemma WrongSlice(a: Bytes, tail: Bytes, rest: Bytes, v: nat)
    requires |tail| > 0
    ensures var s := a + tail + rest;
            Slice(s, |a| + v, |s|) == rest ==> Slice(s, |a|, |a| + v) == tail && v > 0
  {
    var s := a + tail + rest;
    if Slice(s, |a| + v, |s|) == rest {
      if |a| + v <= |s| {
        assert v == |tail|;
        assert s[|a|..|a| + v] == tail;
      } else {
        assert rest == [];
        assert s[|a|..] == tail;
      }
    }
  }

  lemma PositiveTerm(v: nat, k: nat)
    requires v > 0
    ensures v * Power256(k) > 0
  {
    PowerPositive(k);
    MulAtLeast(Power256(k), v);
  }

  lemma {:induction false} PowerPositive(k: nat)
    ensures Power256(k) > 0
  {
    if k > 0 {
      PowerPositive(k - 1);
    }
  }

  /** An integer is read back, whatever follows it, exactly below 2^1015: encode_integer writes one length byte. */
  lemma IntegerRoundTrip(r: nat, rest: Bytes)
    requires EncodeInteger(r).Done?
    ensures RemoveInteger(EncodeInteger(r).value + rest) == Done((r, rest)) <==> r < 128 * Power256(126)
  {
    hide BeValue, Content, Power256, RemoveInteger;
    IntegerContent(r);
    var c := Content(r);
    if |c| <= 127 {
      ShortInteger(c, rest);
    } else {
      LongInteger(c, rest);
    }
  }

  /** 2^1015 is encoded in 128 bytes and not read back. */
  lemma LargeIntegerLost(r: nat, rest: Bytes)
    requires r == 128 * Power256(126)
    ensures EncodeInteger(r).Done? && RemoveInteger(EncodeInteger(r).value + rest) != Done((r, rest))
  {
    hide Power256, BeBytes, RemoveInteger;
    BeLength(r, 127);
    SevenBits();
    HalfIsLess();
    IntegerRoundTrip(r, rest);
  }

  lemma HalfIsLess()
    ensures 128 * Power256(126) < Power256(127)
  {
    PowerPositive(126);
    assert Power256(127) == 256 * Power256(126);
  }

  lemma IntegerEncodes(r: nat)
    requires r < 128 * Power256(126)
    ensures EncodeInteger(r).Done? && |EncodeInteger(r).value| <= 129
  {
    hide Power256;
    IntegerContent(r);
  }

  // ---- sequences and signatures ----

  function JoinAll(pieces: seq<Bytes>): Bytes {
    if |pieces| == 0 then [] else pieces[0] + JoinAll(pieces[1..])
  }

  /** encode_sequence */
  function EncodeSequence(pieces: seq<Bytes>): Result<Bytes> {
    var body := JoinAll(pieces);
    match EncodeLength(|body|)
    case Failed => Failed
    case Done(l) => Done([0x30] + l + body)
  }

  /** remove_sequence: the body and what follows the sequence. */
  function RemoveSequence(s: Bytes): Result<(Bytes, Bytes)> {
    if |s| == 0 || s[0] != 0x30 then Failed
    else
      match ReadLength(s[1..])
      case Failed => Failed
      case Done(l) => Done((Slice(s, 1 + l.1, 1 + l.1 + l.0), Slice(s, 1 + l.1 + l.0, |s|)))
  }

  /** The body of a sequence and the rest after it are recovered exactly if the length of the body is. */
  lemma SequenceRoundTrip(pieces: seq<Bytes>, rest: Bytes)
    requires EncodeSequence(pieces).Done?
    ensures RemoveSequence(EncodeSequence(pieces).value + rest) == Done((JoinAll(pieces), rest))
       <==> |JoinAll(pieces)| < Power256(127)
  {
    hide JoinAll, Power256, EncodeLength, Slice, ReadLength;
    var body := JoinAll(pieces);
    LengthRoundTrip(|body|, body + rest);
    var l := EncodeLength(|body|).value;
    var t := [0x30] + l + body + rest;
    assert t[1..] == l + (body + rest);
    if |body| < Power256(127) {
      SliceParts([0x30] + l, body, rest);
    } else {
      LengthTakes(|body|, body + rest);
      if ReadLength(t[1..]).Done? {
        var k, v := ReadLength(t[1..]).value.1, ReadLength(t[1..]).value.0;
        SliceSizes(t, 1 + k, v);
      }
    }
  }

  /** From 256^127 on fewer bytes are read than the length takes. */
  lemma LengthTakes(l: nat, rest: Bytes)
    requires EncodeLength(l).Done? && l >= Power256(127)
    ensures var b := EncodeLength(l).value;
            ReadLength(b + rest).Done? ==> ReadLength(b + rest).value.1 < |b|
  {
    hide BeValue, BeBytes, Power256, ReadLength;
    BeLength(l, 127);
    PowerAtLeast(127);
    var b := EncodeLength(l).value;
    LongTakes(b + rest);
    assert (b + rest)[0] == b[0];
  }

  /** What the two slices take together. */
  lemma SliceSizes(s: Bytes, a: nat, v: nat)
    ensures a <= |s| ==> |Slice(s, a, a + v)| + |Slice(s, a + v, |s|)| == |s| - a
  {
  }

  lemma LengthEncodes(l: nat)
    requires l < Power256(127)
    ensures EncodeLength(l).Done?
  {
    hide Power256, BeBytes;
    BeLength(l, 127);
  }

  /** sigencode_der */
  function SigencodeDer(r: int, s: int): Result<Bytes> {
    match EncodeInteger(r)
    case Failed => Failed
    case Done(a) =>
      match EncodeInteger(s)
      case Failed => Failed
      case Done(b) => EncodeSequence([a, b])
  }

  /** sigdecode_der: nothing may follow the sequence or the two integers in it. */
  function SigdecodeDer(sig: Bytes): Result<(int, int)> {
    match RemoveSequence(sig)
    case Failed => Failed
    case Done(seqAndRest) =>
      if seqAndRest.1 != [] then Failed
      else
        match RemoveInteger(seqAndRest.0)
        case Failed => Failed
        case Done(first) =>
          match RemoveInteger(first.1)
          case Failed => Failed
          case Done(second) => if second.1 != [] then Failed else Done((first.0, second.0))
  }

  /** A signature is read back exactly if both numbers are below 2^1015, for all pairs that can be encoded. */
  lemma SignatureRoundTrip(r: nat, s: nat)
    requires SigencodeDer(r, s).Done?
    ensures SigdecodeDer(SigencodeDer(r, s).value) == Done((r, s))
       <==> r < 128 * Power256(126) && s < 128 * Power256(126)
  {
    hide Power256, EncodeInteger, RemoveInteger, EncodeSequence, RemoveSequence;
    var a, b := EncodeInteger(r).value, EncodeInteger(s).value;
    IntegerSize(r);
    IntegerSize(s);
    TwoPieces(a, b);
    Wide();
    LengthEncodes(|a + b|);
    SequenceRoundTrip([a, b], []);
    var t := EncodeSequence([a, b]).value;
    assert t + [] == t;
    IntegerRoundTrip(r, b);
    IntegerRoundTrip(s, []);
    assert b + [] == b;
    if r >= 128 * Power256(126) {
      FirstTooLong(r, s);
    }
  }

  lemma SmallSignatureEncodes(r: nat, s: nat)
    requires r < 128 * Power256(126) && s < 128 * Power256(126)
    ensures SigencodeDer(r, s).Done?
  {
    hide Power256, EncodeInteger, EncodeLength;
    IntegerEncodes(r);
    IntegerEncodes(s);
    var a, b := EncodeInteger(r).value, EncodeInteger(s).value;
    TwoPieces(a, b);
    Wide();
    LengthEncodes(|a + b|);
  }

  lemma IntegerSize(r: nat)
    requires EncodeInteger(r).Done?
    ensures EncodeInteger(r).value == [0x02, |Content(r)|] + Content(r) && |Content(r)| <= 255
  {
    hide Content;
  }

  /** The whole string is read as the integer s. */
  predicate ReadsAs(q: Bytes, s: int) {
    RemoveInteger(q) == Done((s, []))
  }

  /** A first number of 2^1015 or more: if its value is read at all, the bytes taken for it reach into the second, and
      what is left is too short for that. */
  lemma FirstTooLong(r: nat, s: nat)
    requires EncodeInteger(r).Done? && EncodeInteger(s).Done? && r >= 128 * Power256(126)
    ensures var first := RemoveInteger(EncodeInteger(r).value + EncodeInteger(s).value);
            first.Done? && first.value.0 == r ==> !ReadsAs(first.value.1, s)
  {
    hide Power256, BeValue, Content, RemoveInteger, ReadLength, Slice;
    IntegerSize(r);
    IntegerSize(s);
    IntegerContent(r);
    var c, b := Content(r), EncodeInteger(s).value;
    var t: Bytes, llen: nat := [0x02, |c|] + c + b, |c| - 128;
    if llen == 0 {
      NoDigits(t);
    } else {
      var head, tail := c[..llen], c[llen..];
      assert t[1..] == [128 + llen] + head + (tail + b);
      ReadLong(t[1..], head, tail + b);
      var v := BeValue(head);
      RemoveIs(t, v, 1 + llen);
      var a: Bytes := [0x02, |c|] + head;
      assert t == a + (tail + b) && |a| == 2 + llen;
      assert c == head + tail;
      BeSplit(head, tail);
      Overlap(a, head, tail, b, s);
    }
  }

  /** The number that is read is too small, or it takes bytes of b. */
  lemma Overlap(a: Bytes, head: Bytes, tail: Bytes, b: Bytes, s: nat)
    requires |tail| == 128 && EncodeInteger(s) == Done(b)
    ensures var t, v := a + (tail + b), BeValue(head);
            var number, rest := Slice(t, |a|, |a| + v), Slice(t, |a| + v, |t|);
            BeValue(number) == v * Power256(128) + BeValue(tail) && |number| > 0 ==> !ReadsAs(rest, s)
  {
    hide Power256, BeValue, RemoveInteger, Slice, EncodeInteger;
    var t, v := a + (tail + b), BeValue(head);
    var number, rest := Slice(t, |a|, |a| + v), Slice(t, |a| + v, |t|);
    SliceAfter(a, tail + b, v);
    if |number| > 0 && |number| <= 128 {
      BeBound(number);
      PowerMonotone(|number|, 128);
      PowerPositive(128);
      MulAtLeast(Power256(128), v);
    } else if |number| > 128 {
      assert rest == b[|number| - 128..];
      SuffixLost(s, b, |number| - 128);
    }
  }

  lemma SliceAfter(a: Bytes, u: Bytes, v: nat)
    ensures var t := a + u; var k := if v <= |u| then v else |u|;
            Slice(t, |a|, |a| + v) == u[..k] && Slice(t, |a| + v, |t|) == u[k..]
  {
    var t := a + u;
    var k := if v <= |u| then v else |u|;
    assert t[|a|..|a| + k] == u[..k] && t[|a| + k..] == u[k..];
  }

  lemma {:induction false} BeBound(b: Bytes)
    ensures BeValue(b) < Power256(|b|)
  {
    if |b| > 0 {
      BeBound(b[..|b| - 1]);
    } else {
      assert Power256(0) == 1;
    }
  }

  lemma {:induction false} PowerMonotone(m: nat, n: nat)
    requires m <= n
    ensures Power256(m) <= Power256(n)
  {
    if m < n {
      PowerMonotone(m, n - 1);
    }
  }

  /** A string that is read as s is at least as long as the encoding of s. */
  lemma EncodingIsShortest(q: Bytes, s: nat)
    requires ReadsAs(q, s)
    ensures |q| >= 2 + |Content(s)|
  {
    hide Power256, BeValue, Content;
    var l := ReadLength(q[1..]).value;
    var number := Slice(q, 1 + l.1, 1 + l.1 + l.0);
    ContentIsShortest(number, s);
  }

  lemma ContentIsShortest(number: Bytes, s: nat)
    requires |number| > 0 && number[0] < 0x80 && BeValue(number) == s
    ensures |number| >= |Content(s)|
  {
    hide Power256, BeValue, BeBytes;
    var k := |number|;
    assert number == number[..1] + number[1..];
    BeSplit(number[..1], number[1..]);
    BeOne(number[..1]);
    BeBound(number[1..]);
    LeadBound(number[0], Power256(k - 1), BeValue(number[1..]));
    PowerStep(k);
    BeLength(s, k);
    if |BeBytes(s)| == k {
      LeadingByte(s, k);
    }
  }

  lemma BeOne(b: Bytes)
    requires |b| == 1
    ensures BeValue(b) == b[0]
  {
    assert BeValue(b[..0]) == 0;
  }

  lemma LeadBound(x: int, p: nat, y: int)
    requires x < 128 && y < p
    ensures x * p + y < 128 * p
  {
    assert x * p <= 127 * p;
  }

  lemma PowerStep(k: nat)
    requires k >= 1
    ensures 128 * Power256(k - 1) <= Power256(k)
  {
  }

  lemma SuffixLost(s: nat, b: Bytes, j: nat)
    requires EncodeInteger(s) == Done(b) && 1 <= j <= |b|
    ensures !ReadsAs(b[j..], s)
  {
    hide Content, RemoveInteger;
    if ReadsAs(b[j..], s) {
      EncodingIsShortest(b[j..], s);
    }
  }

  lemma TwoPieces(a: Bytes, b: Bytes)
    ensures JoinAll([a, b]) == a + b
  {
    assert [a, b][1..] == [b] && [b][1..] == [];
    assert JoinAll([b]) == b + JoinAll([]);
  }

  lemma Wide()
    ensures 514 < Power256(127)
  {
    assert Power256(127) == 256 * Power256(126);
    PowerAtLeast(126);
  }

  // ---- object identifiers ----

  /** The base-128 digits of n, most significant first, each with the continuation bit set. */
  function Continued(n: nat): Bytes {
    if n == 0 then [] else Continued(n / 128) + [n % 128 + 128]
  }

  /** The encoding of one component: the continuation bit is clear in the last byte only. */
  function NumberBytes(n: nat): Bytes {
    Continued(n / 128) + [n % 128]
  }

  /** encode_number */
  method EncodeNumber(n: nat) returns (b: Bytes)
    ensures b == NumberBytes(n)
  {
    var digits: Bytes, m: nat := [], n;
    while m != 0
      invariant Continued(m) + digits == Continued(n)
    {
      digits := [m % 128 + 128] + digits;
      m := m / 128;
    }
    assert digits == Continued(n);
    if |digits| == 0 {
      digits := [0];
    }
    assert n > 0 ==> digits == Continued(n / 128) + [n % 128 + 128];
    var last := digits[|digits| - 1] % 128;
    b := digits[..|digits| - 1] + [last];
  }

  /** A component read from position i on, after the digits in number. */
  function ReadFrom(s: Bytes, i: nat, number: nat): (res: Result<(nat, nat)>)
    ensures res.Done? ==> i < res.value.1 <= |s|
    decreases |s| - i
  {
    if i >= |s| then Failed
    else
      var next := 128 * number + s[i] % 128;
      if s[i] < 128 then Done((next, i + 1)) else ReadFrom(s, i + 1, next)
  }

  /** read_number: the component and how many bytes it took. Running out of bytes is an exception, and it is always the
      one that indexing raises: the length test before it, whose outcome is unexpected, never succeeds. */
  method ReadNumber(s: Bytes) returns (res: Result<(nat, nat)>, unexpected: bool)
    ensures res == ReadFrom(s, 0, 0) && !unexpected
    ensures res.Done? ==> 0 < res.value.1 <= |s|
  {
    var number: nat, llen: nat := 0, 0;
    unexpected := false;
    while true
      invariant llen <= |s| && ReadFrom(s, 0, 0) == ReadFrom(s, llen, number) && !unexpected
      decreases |s| - llen
    {
      unexpected := llen > |s|;
      if unexpected || llen == |s| {
        return Failed, unexpected;
      }
      number := 128 * number;
      var d := s[llen];
      number := number + d % 128;
      llen := llen + 1;
      if d < 128 {
        break;
      }
    }
    res := Done((number, llen));
  }

  function Power128(n: nat): nat {
    if n == 0 then 1 else 128 * Power128(n - 1)
  }

  /** Reading across continued digits collects their value. */
  lemma {:induction false} ReadContinued(before: Bytes, m: nat, after: Bytes, number: nat)
    ensures var s := before + Continued(m) + after;
            ReadFrom(s, |before|, number) == ReadFrom(s, |before| + |Continued(m)|,
                number * Power128(|Continued(m)|) + m)
    decreases m
  {
    hide ReadFrom;
    if m == 0 {
      assert Power128(0) == 1;
    } else {
      var c, d := Continued(m / 128), m % 128 + 128;
      var s := before + Continued(m) + after;
      assert s == before + c + ([d] + after);
      ReadContinued(before, m / 128, [d] + after, number);
      ReadOne(s, |before| + |c|, number * Power128(|c|) + m / 128, d);
      DigitArith(number, Power128(|c|), m);
    }
  }

  lemma ReadOne(s: Bytes, i: nat, number: nat, d: Byte)
    requires i < |s| && s[i] == d && d >= 128
    ensures ReadFrom(s, i, number) == ReadFrom(s, i + 1, 128 * number + (d - 128))
  {
    assert d % 128 == d - 128;
  }

  lemma DigitArith(x: int, p: int, m: int)
    ensures 128 * (x * p + m / 128) + m % 128 == x * (128 * p) + m
  {
  }

  /** A component is read back, whatever follows it. */
  lemma NumberRoundTrip(n: nat, rest: Bytes)
    ensures ReadFrom(NumberBytes(n) + rest, 0, 0) == Done((n, |NumberBytes(n)|))
  {
    hide Continued;
    var c: Bytes, last: Byte := Continued(n / 128), n % 128;
    var s := NumberBytes(n) + rest;
    assert s == [] + c + ([last] + rest);
    ReadContinued([], n / 128, [last] + rest, 0);
    assert s[|c|] == last;
    assert last % 128 == last;
  }

  function Numbers(pieces: seq<nat>): Bytes {
    if |pieces| == 0 then [] else NumberBytes(pieces[0]) + Numbers(pieces[1..])
  }

  /** The encoding of an object identifier: its first two components share a byte. */
  function OidBytes(first: int, second: int, pieces: seq<nat>): Result<Bytes> {
    if first > 2 || second > 39 || 40 * first + second < 0 then Failed
    else
      var body := [40 * first + second] + Numbers(pieces);
      match EncodeLength(|body|)
      case Failed => Failed
      case Done(l) => Done([0x06] + l + body)
  }

  /** encode_oid */
  method EncodeOid(first: int, second: int, pieces: seq<nat>) returns (res: Result<Bytes>)
    ensures res == OidBytes(first, second, pieces)
    ensures res == Failed
       <==> first > 2 || second > 39 || 40 * first + second < 0 || |Numbers(pieces)| + 1 >= Power256(255)
  {
    hide EncodeLength, NumberBytes, Power256;
    if first > 2 || second > 39 {
      return Failed;
    }
    var head := OneByte(40 * first + second);
    if head.Failed? {
      return Failed;
    }
    var body := head.value;
    for i := 0 to |pieces|
      invariant body + Numbers(pieces[i..]) == head.value + Numbers(pieces)
    {
      var b := EncodeNumber(pieces[i]);
      assert pieces[i..][0] == pieces[i] && pieces[i..][1..] == pieces[i + 1..];
      body := body + b;
    }
    assert body == head.value + Numbers(pieces);
    var l := EncodeLength(|body|);
    EncodeLengthIff(|body|);
    return if l.Failed? then Failed else Done([0x06] + l.value + body);
  }

  /** All components of a body. */
  function ReadAll(body: Bytes): Result<seq<nat>>
    decreases |body|
  {
    if |body| == 0 then Done([])
    else
      match ReadFrom(body, 0, 0)
      case Failed => Failed
      case Done(n) =>
        match ReadAll(body[n.1..])
        case Failed => Failed
        case Done(more) => Done([n.0] + more)
  }

  function SplitFirst(numbers: seq<nat>): Result<seq<nat>> {
    if |numbers| == 0 then Failed
    else Done([numbers[0] / 40, numbers[0] % 40] + numbers[1..])
  }

  /** The components of an object identifier and what follows it. */
  function ObjectOf(s: Bytes): Result<(seq<nat>, Bytes)> {
    if |s| == 0 || s[0] != 0x06 then Failed
    else
      match ReadLength(s[1..])
      case Failed => Failed
      case Done(l) =>
        match ReadAll(Slice(s, 1 + l.1, 1 + l.1 + l.0))
        case Failed => Failed
        case Done(numbers) =>
          match SplitFirst(numbers)
          case Failed => Failed
          case Done(oid) => Done((oid, Slice(s, 1 + l.1 + l.0, |s|)))
  }

  /** The loop of remove_object. */
  method ReadComponents(body0: Bytes) returns (res: Result<seq<nat>>)
    ensures res == ReadAll(body0)
  {
    hide ReadFrom;
    var body: Bytes, numbers: seq<nat> := body0, [];
    assert forall more: seq<nat> :: numbers + more == more;
    while |body| > 0
      invariant ReadAll(body0) == match ReadAll(body) case Failed => Failed case Done(more) => Done(numbers + more)
      decreases |body|
    {
      var n, _ := ReadNumber(body);
      if n.Failed? {
        return Failed;
      }
      assert forall more: seq<nat> :: numbers + ([n.value.0] + more) == (numbers + [n.value.0]) + more;
      numbers := numbers + [n.value.0];
      body := body[n.value.1..];
    }
    assert numbers + [] == numbers;
    return Done(numbers);
  }

  /** remove_object */
  method RemoveObject(s: Bytes) returns (res: Result<(seq<nat>, Bytes)>)
    ensures res == ObjectOf(s)
  {
    hide ReadAll, ReadLength;
    if |s| == 0 || s[0] != 0x06 {
      return Failed;
    }
    var l := ReadLength(s[1..]);
    if l.Failed? {
      return Failed;
    }
    var length, llen := l.value.0, l.value.1;
    var numbers := ReadComponents(Slice(s, 1 + llen, 1 + llen + length));
    if numbers.Failed? || |numbers.value| == 0 {
      return Failed;
    }
    var n0 := numbers.value[0];
    var first := n0 / 40;
    var second := n0 - 40 * first;
    return Done(([first, second] + numbers.value[1..], Slice(s, 1 + llen + length, |s|)));
  }

  lemma {:induction false} NumbersRoundTrip(pieces: seq<nat>)
    ensures ReadAll(Numbers(pieces)) == Done(pieces)
    decreases |pieces|
  {
    hide NumberBytes, ReadFrom;
    if |pieces| > 0 {
      var b, more := NumberBytes(pieces[0]), Numbers(pieces[1..]);
      NumberRoundTrip(pieces[0], more);
      NumbersRoundTrip(pieces[1..]);
      assert (b + more)[|b|..] == more;
      assert [pieces[0]] + pieces[1..] == pieces;
    } else {
      assert pieces == [];
    }
  }

  /** The first byte is below 128, so it is a component by itself. */
  lemma BodyRoundTrip(head: Byte, pieces: seq<nat>)
    requires head < 128
    ensures ReadAll([head] + Numbers(pieces)) == Done([head] + pieces)
  {
    NumbersRoundTrip(pieces);
    var body := [head] + Numbers(pieces);
    assert body[1..] == Numbers(pieces);
    assert head % 128 == head;
    var h: nat := head;
    assert ReadFrom(body, 0, 0) == Done((h, 1));
    hide Numbers;
  }

  /** An object identifier is read back, whatever follows it, exactly if its second component is not negative. */
  lemma OidRoundTrip(first: int, second: int, pieces: seq<nat>, rest: Bytes)
    requires OidBytes(first, second, pieces).Done? && 1 + |Numbers(pieces)| < Power256(127)
    ensures second >= 0 ==>
              && first >= 0
              && ObjectOf(OidBytes(first, second, pieces).value + rest) == Done(([first, second] + pieces, rest))
    ensures second < 0 ==> ObjectOf(OidBytes(first, second, pieces).value + rest) != Failed
    ensures second < 0 ==> ObjectOf(OidBytes(first, second, pieces).value + rest).value.0[0] != first
  {
    hide Numbers, ReadAll, ReadLength, EncodeLength, Slice, Power256;
    var head := 40 * first + second;
    var body: Bytes := [head] + Numbers(pieces);
    BodyRoundTrip(head, pieces);
    LengthRoundTrip(|body|, body + rest);
    var l := EncodeLength(|body|).value;
    var t := [0x06] + l + body + rest;
    assert t[1..] == l + (body + rest);
    SliceParts([0x06] + l, body, rest);
    if second >= 0 {
      DivUnique(head, 40, first, second);
    }
    assert ([head] + pieces)[1..] == pieces;
  }

  /** (2, -40) is encoded like (1, 0). */
  lemma NegativeComponentLost()
    ensures OidBytes(2, -40, []) == OidBytes(1, 0, []) == Done([0x06, 1, 40])
  {
    var body: Bytes := [40] + Numbers([]);
    assert body == [40] && EncodeLength(1) == Done([1]);
    assert [0x06] + [1] + body == [0x06, 1, 40];
  }
}
