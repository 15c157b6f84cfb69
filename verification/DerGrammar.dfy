/** What the functions of module Der read and write, told by the form of the strings. Python's slices are clipped at the
    end of a string, so every reader takes a shorter content at the very end. */
module DerGrammar {
  import opened Arith
  import opened Outcome
  import opened Der

  // ---- lengths ----

  /** h is a length field for l: one byte below 128, or a count of 1 to 127 and as many bytes. */
  ghost predicate IsLength(h: Bytes, l: nat) {
    || (|h| == 1 && h[0] < 128 && l == h[0])
    || (2 <= |h| <= 128 && h[0] == 127 + |h| && l == BeValue(h[1..]))
  }

  /** read_length reads exactly the length fields. */
  lemma ReadLengthIff(s: Bytes, l: nat, k: nat)
    ensures ReadLength(s) == Done((l, k)) <==> k <= |s| && IsLength(s[..k], l)
  {
    hide BeValue;
    if |s| > 0 && s[0] >= 128 {
      assert s[0] % 128 == s[0] - 128;
      if 2 <= k <= |s| {
        assert s[..k][1..] == s[1..k] && s[..k][0] == s[0];
      }
    }
  }

  lemma {:induction false} BeInjective(a: Bytes, b: Bytes)
    requires |a| == |b| && BeValue(a) == BeValue(b)
    ensures a == b
  {
    if |a| > 0 {
      var x, y := a[..|a| - 1], b[..|b| - 1];
      var u, v := BeValue(x), BeValue(y);
      assert 256 * (u - v) == b[|b| - 1] - a[|a| - 1];
      BeInjective(x, y);
      assert a == x + [a[|a| - 1]] && b == y + [b[|b| - 1]];
    }
  }

  /** The shortest bytes for a number, and no others of that length. */
  lemma BeShortest(n: nat, b: Bytes)
    requires |b| > 0 && BeValue(b) == n
    ensures |BeBytes(n)| <= |b| && (|BeBytes(n)| == |b| ==> b == BeBytes(n))
  {
    hide BeValue, BeBytes, Power256;
    BeBound(b);
    BeLength(n, |b|);
    BeRoundTrip(n);
    if |BeBytes(n)| == |b| {
      BeInjective(b, BeBytes(n));
    }
  }

  /** encode_length writes the only shortest length field: one byte below 128, and otherwise the count and the shortest
      digits. From 256^127 on there is no length field. */
  lemma EncodeLengthIsShortest(l: nat, h: Bytes)
    requires IsLength(h, l)
    ensures l < Power256(127) && EncodeLength(l).Done? && IsLength(EncodeLength(l).value, l)
    ensures |EncodeLength(l).value| == if l < 128 then 1 else 1 + |BeBytes(l)|
    ensures |EncodeLength(l).value| <= |h| && (|EncodeLength(l).value| == |h| ==> h == EncodeLength(l).value)
  {
    hide BeValue, BeBytes, Power256;
    PowerAtLeast(127);
    if |h| > 1 {
      BeBound(h[1..]);
      PowerMonotone(|h| - 1, 127);
      BeShortest(l, h[1..]);
    }
    BeLength(l, 127);
    BeRoundTrip(l);
    if l >= 128 {
      var s := BeBytes(l);
      assert |s| % 128 == |s|;
      assert ([0x80 + |s|] + s)[1..] == s;
      assert h == [h[0]] + h[1..];
    }
  }

  // ---- tag, length and content ----

  /** The content has the announced length, or it is all that is left of the string. */
  ghost predicate Taken(content: Bytes, l: nat, rest: Bytes) {
    |content| == l || (|content| < l && rest == [])
  }

  /** s is the tag, a length field, the content and the rest. */
  ghost predicate IsTagged(s: Bytes, tag: Byte, content: Bytes, rest: Bytes) {
    exists h: Bytes, l: nat :: Framed(s, tag, h, l, content, rest)
  }

  ghost predicate Framed(s: Bytes, tag: Byte, h: Bytes, l: nat, content: Bytes, rest: Bytes) {
    s == [tag] + h + content + rest && IsLength(h, l) && Taken(content, l, rest)
  }

  /** Slicing after the length field gives the content and the rest, and nothing else does. */
  lemma FramedIff(s: Bytes, tag: Byte, l: nat, k: nat, content: Bytes, rest: Bytes)
    requires |s| > 0 && s[0] == tag && ReadLength(s[1..]) == Done((l, k))
    ensures content == Slice(s, 1 + k, 1 + k + l) && rest == Slice(s, 1 + k + l, |s|)
       <==> 1 + k <= |s| && Framed(s, tag, s[1..1 + k], l, content, rest)
  {
    hide BeValue, ReadLength;
    ReadLengthIff(s[1..], l, k);
    assert s[1..][..k] == s[1..1 + k];
    var a, u := s[..1 + k], s[1 + k..];
    assert s == a + u && a == [tag] + s[1..1 + k];
    SliceAfter(a, u, l);
    if Framed(s, tag, s[1..1 + k], l, content, rest) {
      assert s == a + (content + rest);
      assert u == content + rest;
    }
  }

  /** A string with this tag has one length field. */
  lemma OneLength(s: Bytes, tag: Byte, h: Bytes, l: nat, content: Bytes, rest: Bytes)
    requires Framed(s, tag, h, l, content, rest)
    ensures |s| > 0 && s[0] == tag && ReadLength(s[1..]) == Done((l, |h|)) && h == s[1..1 + |h|]
  {
    hide BeValue, ReadLength;
    ReadLengthIff(s[1..], l, |h|);
    assert s[1..] == h + (content + rest);
    assert s[1..][..|h|] == h;
  }

  /** What a reader of this tag finds: the content and the rest, exactly if the string has that form. */
  lemma TaggedIff(s: Bytes, tag: Byte, content: Bytes, rest: Bytes)
    ensures IsTagged(s, tag, content, rest)
       <==> && |s| > 0 && s[0] == tag && ReadLength(s[1..]).Done?
            && var l := ReadLength(s[1..]).value;
               content == Slice(s, 1 + l.1, 1 + l.1 + l.0) && rest == Slice(s, 1 + l.1 + l.0, |s|)
  {
    hide BeValue, ReadLength, Slice, IsLength, Taken;
    if IsTagged(s, tag, content, rest) {
      var h, l: nat :| Framed(s, tag, h, l, content, rest);
      OneLength(s, tag, h, l, content, rest);
      FramedIff(s, tag, l, |h|, content, rest);
    }
    if |s| > 0 && s[0] == tag && ReadLength(s[1..]).Done? {
      var l := ReadLength(s[1..]).value;
      FramedIff(s, tag, l.0, l.1, content, rest);
    }
  }

  // ---- sequences and integers ----

  /** remove_sequence, on every string. */
  lemma RemoveSequenceIff(s: Bytes, body: Bytes, rest: Bytes)
    ensures RemoveSequence(s) == Done((body, rest)) <==> IsTagged(s, 0x30, body, rest)
  {
    hide BeValue, ReadLength, Slice, IsTagged;
    TaggedIff(s, 0x30, body, rest);
  }

  /** An integer: content that does not start with a byte from 0x80 on, as a big-endian number. */
  ghost predicate IsInteger(s: Bytes, v: int, rest: Bytes) {
    exists number: Bytes :: IsTagged(s, 0x02, number, rest) && |number| > 0 && number[0] < 0x80 && BeValue(number) == v
  }

  /** remove_integer, on every string. */
  lemma RemoveIntegerIff(s: Bytes, v: int, rest: Bytes)
    ensures RemoveInteger(s) == Done((v, rest)) <==> IsInteger(s, v, rest)
  {
    hide BeValue, ReadLength, Slice, IsTagged;
    if RemoveInteger(s) == Done((v, rest)) {
      var l := ReadLength(s[1..]).value;
      TaggedIff(s, 0x02, Slice(s, 1 + l.1, 1 + l.1 + l.0), rest);
    }
    if IsInteger(s, v, rest) {
      var number: Bytes :|
        IsTagged(s, 0x02, number, rest) && |number| > 0 && number[0] < 0x80 && BeValue(number) == v;
      TaggedIff(s, 0x02, number, rest);
    }
  }

  /** When encode_integer succeeds. */
  lemma EncodeIntegerIff(r: int)
    ensures EncodeInteger(r).Done? <==> 0 <= r < 128 * Power256(254)
  {
    hide BeBytes, Power256;
    if r >= 0 {
      BeLength(r, 254);
      BeLength(r, 255);
      PowerStep(255);
      PowerGrows(254);
      if |BeBytes(r)| == 255 {
        LeadingByte(r, 255);
      }
    }
  }

  lemma PowerGrows(k: nat)
    ensures Power256(k) <= 128 * Power256(k)
  {
  }

  /** encode_integer writes the only shortest string of that form that announces the length it has, below 2^1015. */
  lemma EncodeIntegerIsShortest(r: nat, h: Bytes, number: Bytes)
    requires r < 128 * Power256(126) && IsLength(h, |number|)
    requires |number| > 0 && number[0] < 0x80 && BeValue(number) == r
    ensures EncodeInteger(r).Done? && IsInteger(EncodeInteger(r).value, r, [])
    ensures var e := EncodeInteger(r).value; var q := [0x02] + h + number;
            |e| <= |q| && (|e| == |q| ==> e == q)
  {
    hide BeValue, Content, Power256, RemoveInteger, IsInteger;
    IntegerEncodes(r);
    IntegerSize(r);
    IntegerContent(r);
    var c, e := Content(r), EncodeInteger(r).value;
    ShortInteger(c, []);
    assert [0x02, |c|] + c + [] == e;
    RemoveIntegerIff(e, r, []);
    ContentIsShortest(number, r);
    if |e| == 1 + |h| + |number| {
      BeInjective(number, c);
    }
  }

  /** A length beyond the end is not noticed: [2, 5, 1] is read as the integer 1. */
  lemma TruncatedIsRead()
    ensures RemoveInteger([0x02, 5, 1]) == Done((1, []))
  {
    hide BeValue, RemoveInteger;
    BeOne([1]);
    assert [0x02] + [5] + [1] + [] == [0x02, 5, 1];
    assert Framed([0x02, 5, 1], 0x02, [5], 5, [1], []);
    RemoveIntegerIff([0x02, 5, 1], 1, []);
  }

  // ---- signatures ----

  /** sigdecode_der, on every string: a sequence with nothing after it, which is two integers with nothing after
      them. */
  lemma SigdecodeIff(sig: Bytes, r: int, s: int)
    ensures SigdecodeDer(sig) == Done((r, s))
       <==> exists body: Bytes, mid: Bytes ::
              IsTagged(sig, 0x30, body, []) && IsInteger(body, r, mid) && IsInteger(mid, s, [])
  {
    hide IsTagged, IsInteger, RemoveInteger, RemoveSequence;
    if SigdecodeDer(sig) == Done((r, s)) {
      var body := RemoveSequence(sig).value.0;
      var mid := RemoveInteger(body).value.1;
      RemoveSequenceIff(sig, body, []);
      RemoveIntegerIff(body, r, mid);
      RemoveIntegerIff(mid, s, []);
    }
    if exists body: Bytes, mid: Bytes ::
        IsTagged(sig, 0x30, body, []) && IsInteger(body, r, mid) && IsInteger(mid, s, []) {
      var body: Bytes, mid: Bytes :| IsTagged(sig, 0x30, body, []) && IsInteger(body, r, mid) && IsInteger(mid, s, []);
      RemoveSequenceIff(sig, body, []);
      RemoveIntegerIff(body, r, mid);
      RemoveIntegerIff(mid, s, []);
    }
  }

  /** sigencode_der writes the tag, the length and the two integers in this order. */
  lemma SigencodeIs(r: nat, s: nat)
    requires r < 128 * Power256(126) && s < 128 * Power256(126)
    ensures EncodeInteger(r).Done? && EncodeInteger(s).Done? && SigencodeDer(r, s).Done?
    ensures var body := EncodeInteger(r).value + EncodeInteger(s).value;
            && EncodeLength(|body|).Done?
            && SigencodeDer(r, s).value == [0x30] + EncodeLength(|body|).value + body
            && IsTagged(SigencodeDer(r, s).value, 0x30, body, [])
  {
    hide Power256, EncodeInteger, EncodeLength, RemoveSequence, IsTagged;
    IntegerEncodes(r);
    IntegerEncodes(s);
    SmallSignatureEncodes(r, s);
    var a, b := EncodeInteger(r).value, EncodeInteger(s).value;
    TwoPieces(a, b);
    Wide();
    LengthEncodes(|a + b|);
    SequenceRoundTrip([a, b], []);
    var t := SigencodeDer(r, s).value;
    assert t + [] == t;
    RemoveSequenceIff(t, a + b, []);
  }

  /** Anything after a signature makes it unreadable. */
  lemma TrailingIsRefused(r: nat, s: nat, rest: Bytes)
    requires r < 128 * Power256(126) && s < 128 * Power256(126) && rest != []
    ensures SigencodeDer(r, s).Done? && SigdecodeDer(SigencodeDer(r, s).value + rest) == Failed
  {
    hide Power256, EncodeInteger, EncodeLength, RemoveSequence, RemoveInteger;
    IntegerEncodes(r);
    IntegerEncodes(s);
    SmallSignatureEncodes(r, s);
    var a, b := EncodeInteger(r).value, EncodeInteger(s).value;
    TwoPieces(a, b);
    Wide();
    LengthEncodes(|a + b|);
    SequenceRoundTrip([a, b], rest);
  }

  // ---- components of an object identifier ----

  /** The low seven bits of the bytes as base-128 digits, most significant first. */
  function Value128(c: Bytes): nat {
    if |c| == 0 then 0 else 128 * Value128(c[..|c| - 1]) + c[|c| - 1] % 128
  }

  /** Every byte but the last has its top bit set. */
  ghost predicate IsComponent(c: Bytes, n: nat) {
    |c| > 0 && (forall i :: 0 <= i < |c| - 1 ==> c[i] >= 128) && c[|c| - 1] < 128 && Value128(c) == n
  }

  lemma {:induction false} ReadFromIff(s: Bytes, i: nat, n: nat, k: nat)
    requires i <= |s| && forall j :: 0 <= j < i ==> s[j] >= 128
    ensures ReadFrom(s, i, Value128(s[..i])) == Done((n, k)) <==> i < k <= |s| && IsComponent(s[..k], n)
    decreases |s| - i
  {
    if i < |s| {
      var t := s[..i + 1];
      assert t[..|t| - 1] == s[..i] && t[|t| - 1] == s[i];
      assert Value128(t) == 128 * Value128(s[..i]) + s[i] % 128;
      if s[i] >= 128 {
        ReadFromIff(s, i + 1, n, k);
        assert k == i + 1 <= |s| ==> s[..k][k - 1] == s[i];
      } else {
        assert IsComponent(t, Value128(t));
        if i + 1 < k <= |s| {
          assert s[..k][i] == s[i];
        }
      }
    }
  }

  /** read_number, on every string: the bytes up to the first one below 128. */
  lemma ReadNumberIff(s: Bytes, n: nat, k: nat)
    ensures ReadFrom(s, 0, 0) == Done((n, k)) <==> 0 < k <= |s| && IsComponent(s[..k], n)
  {
    hide ReadFrom, IsComponent;
    assert Value128(s[..0]) == 0;
    ReadFromIff(s, 0, n, k);
  }

  lemma {:induction false} Bound128(c: Bytes)
    ensures Value128(c) < Power128(|c|)
  {
    if |c| > 0 {
      Bound128(c[..|c| - 1]);
    } else {
      assert Power128(0) == 1;
    }
  }

  /** The digits of n that Continued lists are the shortest ones. */
  lemma {:induction false} ContinuedLength(n: nat, k: nat)
    ensures |Continued(n)| <= k <==> n < Power128(k)
    decreases k
  {
    if k == 0 {
      assert Power128(0) == 1;
    } else if n > 0 {
      ContinuedLength(n / 128, k - 1);
      var p := Power128(k - 1);
      assert Power128(k) == 128 * p;
    } else {
      PositivePower128(k);
    }
  }

  lemma {:induction false} PositivePower128(k: nat)
    ensures Power128(k) > 0
  {
    if k > 0 {
      PositivePower128(k - 1);
    }
  }

  lemma {:induction false} SameDigits(a: Bytes, b: Bytes)
    requires |a| == |b| && Value128(a) == Value128(b)
    requires forall i :: 0 <= i < |a| ==> (a[i] >= 128 <==> b[i] >= 128)
    ensures a == b
  {
    if |a| > 0 {
      var x, y, k := a[..|a| - 1], b[..|b| - 1], |a| - 1;
      assert forall i :: 0 <= i < k ==> x[i] == a[i] && y[i] == b[i];
      SameDigit(Value128(x), Value128(y), a[k], b[k]);
      SameDigits(x, y);
      assert a == x + [a[k]] && b == y + [b[k]];
    }
  }

  lemma SameDigit(u: nat, v: nat, x: Byte, y: Byte)
    requires 128 * u + x % 128 == 128 * v + y % 128 && (x >= 128 <==> y >= 128)
    ensures u == v && x == y
  {
  }

  /** encode_number writes the only shortest string that is read as n, and its first byte is not 0x80. */
  lemma NumberIsShortest(n: nat, c: Bytes)
    requires IsComponent(c, n)
    ensures IsComponent(NumberBytes(n), n) && NumberBytes(n)[0] != 0x80
    ensures |NumberBytes(n)| <= |c| && (|NumberBytes(n)| == |c| ==> c == NumberBytes(n))
  {
    hide Continued, Value128, ReadFrom, Power128;
    var b := NumberBytes(n);
    NumberRoundTrip(n, []);
    assert b + [] == b && b[..|b|] == b;
    ReadNumberIff(b, n, |b|);
    NotPadded(n);
    var d := c[..|c| - 1];
    LastDigit(c);
    Bound128(d);
    ContinuedLength(n / 128, |d|);
    if |b| == |c| {
      assert forall i :: 0 <= i < |c| ==> (c[i] >= 128 <==> b[i] >= 128);
      SameDigits(c, b);
    }
  }

  lemma LastDigit(c: Bytes)
    requires |c| > 0 && c[|c| - 1] < 128
    ensures Value128(c[..|c| - 1]) == Value128(c) / 128
  {
    DivUnique(Value128(c), 128, Value128(c[..|c| - 1]), c[|c| - 1]);
  }

  lemma {:induction false} NotPadded(n: nat)
    ensures NumberBytes(n)[0] != 0x80
    ensures n > 0 ==> |Continued(n)| > 0 && Continued(n)[0] != 0x80
  {
    if n > 0 {
      NotPadded(n / 128);
      if n < 128 {
        assert Continued(n / 128) == [];
      } else {
        assert n / 128 > 0;
      }
    }
  }

  // ---- object identifiers ----

  /** The body is a component for every number, one after the other. */
  ghost predicate IsBody(body: Bytes, numbers: seq<nat>)
    decreases |numbers|
  {
    if |numbers| == 0 then body == []
    else exists k: nat :: 0 < k <= |body| && IsComponent(body[..k], numbers[0]) && IsBody(body[k..], numbers[1..])
  }

  lemma {:induction false} ReadAllIff(body: Bytes, numbers: seq<nat>)
    ensures ReadAll(body) == Done(numbers) <==> IsBody(body, numbers)
    decreases |body|
  {
    hide ReadFrom, IsComponent;
    if |body| == 0 {
    } else {
      var first := ReadFrom(body, 0, 0);
      if first.Done? {
        var n, k := first.value.0, first.value.1;
        ReadNumberIff(body, n, k);
        if |numbers| > 0 {
          ReadAllIff(body[k..], numbers[1..]);
          assert numbers == [numbers[0]] + numbers[1..];
        }
        if ReadAll(body) == Done(numbers) {
          var more := ReadAll(body[k..]).value;
          assert numbers == [n] + more && numbers[1..] == more;
        }
      }
      if IsBody(body, numbers) {
        var k: nat :| 0 < k <= |body| && IsComponent(body[..k], numbers[0]) && IsBody(body[k..], numbers[1..]);
        ReadNumberIff(body, numbers[0], k);
      }
    }
  }

  /** remove_object, on every string: at least one component, the first of which is 40 times the first number of the
      identifier plus the second. */
  lemma ObjectIff(s: Bytes, oid: seq<nat>, rest: Bytes)
    ensures ObjectOf(s) == Done((oid, rest))
       <==> |oid| >= 2 && oid[1] < 40
            && exists body: Bytes :: IsTagged(s, 0x06, body, rest) && IsBody(body, [40 * oid[0] + oid[1]] + oid[2..])
  {
    hide BeValue, ReadLength, Slice, IsTagged, IsBody, ReadAll;
    if ObjectOf(s) == Done((oid, rest)) {
      var l := ReadLength(s[1..]).value;
      var body := Slice(s, 1 + l.1, 1 + l.1 + l.0);
      TaggedIff(s, 0x06, body, rest);
      var numbers := ReadAll(body).value;
      ReadAllIff(body, numbers);
      assert oid == [numbers[0] / 40, numbers[0] % 40] + numbers[1..];
      assert numbers == [40 * oid[0] + oid[1]] + oid[2..];
    }
    if |oid| >= 2 && oid[1] < 40
        && exists body: Bytes :: IsTagged(s, 0x06, body, rest) && IsBody(body, [40 * oid[0] + oid[1]] + oid[2..]) {
      var numbers := [40 * oid[0] + oid[1]] + oid[2..];
      var body: Bytes :| IsTagged(s, 0x06, body, rest) && IsBody(body, numbers);
      TaggedIff(s, 0x06, body, rest);
      ReadAllIff(body, numbers);
      DivUnique(numbers[0], 40, oid[0], oid[1]);
      assert [numbers[0] / 40, numbers[0] % 40] + numbers[1..] == oid;
    }
  }
}
