/**
  Base64 with the standard alphabet and `=` padding (section 4 of RFC 4648),
  used for the `Sec-WebSocket-Key` nonce of section 4.1 of RFC 6455.
 */
module Base64 {
  import opened Bytes
  import opened Wrappers

  /** The ASCII byte for a 6-bit value: `A`-`Z`, `a`-`z`, `0`-`9`, `+`, `/`. */
  function Letter(i: nat): (c: byte)
    requires i < 64
  {
    if i < 26 then (65 + i) as byte
    else if i < 52 then (97 + i - 26) as byte
    else if i < 62 then (48 + i - 52) as byte
    else if i == 62 then 43
    else 47
  }

  /** The pad byte `=`. */
  const Pad: byte := 61

  /** The bytes of the standard alphabet. */
  predicate IsLetter(c: byte) {
    (65 <= c <= 90) || (97 <= c <= 122) || (48 <= c <= 57) || c == 43 || c == 47
  }

  /** The 6-bit value of an alphabet byte. */
  function ValueOf(c: byte): (i: nat)
    requires IsLetter(c)
    ensures i < 64 && Letter(i) == c
  {
    if 65 <= c <= 90 then c as int - 65
    else if 97 <= c <= 122 then c as int - 97 + 26
    else if 48 <= c <= 57 then c as int - 48 + 52
    else if c == 43 then 62
    else 63
  }

  /** Every 6-bit value is written as an alphabet byte that reads back as it. */
  lemma LetterValue(i: nat)
    requires i < 64
    ensures IsLetter(Letter(i)) && ValueOf(Letter(i)) == i && Letter(i) != Pad
  {
  }

  /** The four letters for three bytes: their 24 bits, six at a time. */
  function Quad(x0: byte, x1: byte, x2: byte): (q: seq<byte>)
    ensures |q| == 4 && forall i | 0 <= i < 4 :: IsLetter(q[i])
  {
    var v0 := x0 as int / 4;
    var v1 := x0 as int % 4 * 16 + x1 as int / 16;
    var v2 := x1 as int % 16 * 4 + x2 as int / 64;
    var v3 := x2 as int % 64;
    LetterValue(v0);
    LetterValue(v1);
    LetterValue(v2);
    LetterValue(v3);
    [Letter(v0), Letter(v1), Letter(v2), Letter(v3)]
  }

  /** Encoding, three input bytes to four letters; a last group of one or
      two bytes is completed with zero bits, and the letters that carry no
      input bits are replaced by `=`. */
  function Encode(b: seq<byte>): seq<byte>
    decreases |b|
  {
    if |b| == 0 then []
    else if |b| == 1 then Quad(b[0], 0, 0)[..2] + [Pad, Pad]
    else if |b| == 2 then Quad(b[0], b[1], 0)[..3] + [Pad]
    else Quad(b[0], b[1], b[2]) + Encode(b[3..])
  }

  /** Decodes one group of four bytes; padding is accepted only in the
      `last` group. */
  function DecodeQuad(q: seq<byte>, last: bool): Option<seq<byte>>
    requires |q| == 4
  {
    if !IsLetter(q[0]) || !IsLetter(q[1]) then None
    else
      var v0 := ValueOf(q[0]);
      var v1 := ValueOf(q[1]);
      var b0 := (v0 * 4 + v1 / 16) as byte;
      if last && q[2] == Pad && q[3] == Pad then Some([b0])
      else if !IsLetter(q[2]) then None
      else
        var v2 := ValueOf(q[2]);
        var b1 := (v1 % 16 * 16 + v2 / 4) as byte;
        if last && q[3] == Pad then Some([b0, b1])
        else if !IsLetter(q[3]) then None
        else Some([b0, b1, (v2 % 4 * 64 + ValueOf(q[3])) as byte])
  }

  /** Decoding: the inverse of `Encode`, failing on anything `Encode` cannot
      produce in length, alphabet or padding. */
  function Decode(s: seq<byte>): Option<seq<byte>>
    decreases |s|
  {
    if |s| == 0 then Some([])
    else if |s| < 4 then None
    else
      match DecodeQuad(s[..4], |s| == 4)
      case None => None
      case Some(group) =>
        match Decode(s[4..])
        case None => None
        case Some(rest) => Some(group + rest)
  }

  /** The encoding has four bytes per started group of three. */
  lemma {:induction false} EncodeLength(b: seq<byte>)
    ensures |Encode(b)| == (|b| + 2) / 3 * 4
    decreases |b|
  {
    if |b| >= 3 {
      EncodeLength(b[3..]);
    }
  }

  /** Alphabet bytes followed by exactly `pad` pad bytes. */
  predicate Padded(e: seq<byte>, pad: nat) {
    && pad <= |e|
    && (forall i | 0 <= i < |e| - pad :: IsLetter(e[i]))
    && (forall i | |e| - pad <= i < |e| :: e[i] == Pad)
  }

  /** Four alphabet bytes in front keep the shape. */
  lemma PaddedCons(q: seq<byte>, rest: seq<byte>, pad: nat)
    requires |q| == 4 && forall i | 0 <= i < 4 :: IsLetter(q[i])
    requires Padded(rest, pad)
    ensures Padded(q + rest, pad)
  {
    var e := q + rest;
    forall i | 0 <= i < |e| ensures e[i] == if i < 4 then q[i] else rest[i - 4] {}
  }

  /** All bytes of the encoding are alphabet bytes except the trailing
      padding, which is `==` after a last group of one byte and `=` after a
      last group of two. */
  lemma {:induction false} EncodeShape(b: seq<byte>)
    ensures |Encode(b)| == (|b| + 2) / 3 * 4
    ensures Padded(Encode(b), (3 - |b| % 3) % 3)
    decreases |b|
  {
    EncodeLength(b);
    if |b| >= 3 {
      EncodeShape(b[3..]);
      PadCountStep(|b|);
      ShapeMore(b, (3 - |b| % 3) % 3);
    } else if |b| == 1 {
      ShapeOne(b);
    } else if |b| == 2 {
      ShapeTwo(b);
    }
  }

  lemma PadCountStep(n: nat)
    requires n >= 3
    ensures (3 - (n - 3) % 3) % 3 == (3 - n % 3) % 3
  {
    assert (n - 3) % 3 == n % 3;
  }

  /** A last group of one byte: two letters, then `==`. */
  lemma ShapeOne(b: seq<byte>)
    requires |b| == 1
    ensures Padded(Encode(b), 2)
  {
    var q := Quad(b[0], 0, 0);
    assert Encode(b) == [q[0], q[1], Pad, Pad];
  }

  /** A last group of two bytes: three letters, then `=`. */
  lemma ShapeTwo(b: seq<byte>)
    requires |b| == 2
    ensures Padded(Encode(b), 1)
  {
    var q := Quad(b[0], b[1], 0);
    assert Encode(b) == [q[0], q[1], q[2], Pad];
  }

  /** A full group in front keeps the shape of the rest. */
  lemma ShapeMore(b: seq<byte>, pad: nat)
    requires |b| >= 3 && Padded(Encode(b[3..]), pad)
    ensures Padded(Encode(b), pad)
  {
    PaddedCons(Quad(b[0], b[1], b[2]), Encode(b[3..]), pad);
  }

  /** Splitting three bytes into four 6-bit values and joining them again
      gives the three bytes back. */
  lemma RegroupBits(x0: int, x1: int, x2: int)
    requires 0 <= x0 < 256 && 0 <= x1 < 256 && 0 <= x2 < 256
    ensures var v1 := x0 % 4 * 16 + x1 / 16; var v2 := x1 % 16 * 4 + x2 / 64;
      && x0 / 4 * 4 + v1 / 16 == x0
      && v1 % 16 * 16 + v2 / 4 == x1
      && v2 % 4 * 64 + x2 % 64 == x2
  {
    var v1 := x0 % 4 * 16 + x1 / 16;
    var v2 := x1 % 16 * 4 + x2 / 64;
    assert v1 / 16 == x0 % 4 && v1 % 16 == x1 / 16;
    assert v2 / 4 == x1 % 16 && v2 % 4 == x2 / 64;
  }

  /** Four letters decode to the three bytes their 24 bits spell. */
  lemma DecodeLetters(v0: nat, v1: nat, v2: nat, v3: nat, last: bool)
    requires v0 < 64 && v1 < 64 && v2 < 64 && v3 < 64
    requires v0 * 4 + v1 / 16 < 256 && v1 % 16 * 16 + v2 / 4 < 256 && v2 % 4 * 64 + v3 < 256
    ensures DecodeQuad([Letter(v0), Letter(v1), Letter(v2), Letter(v3)], last)
      == Some([(v0 * 4 + v1 / 16) as byte, (v1 % 16 * 16 + v2 / 4) as byte, (v2 % 4 * 64 + v3) as byte])
  {
    LetterValue(v0);
    LetterValue(v1);
    LetterValue(v2);
    LetterValue(v3);
  }

  /** The letters of three bytes decode back to them. */
  lemma DecodeQuadFull(x0: byte, x1: byte, x2: byte, last: bool)
    ensures DecodeQuad(Quad(x0, x1, x2), last) == Some([x0, x1, x2])
  {
    var v0 := x0 as int / 4;
    var v1 := x0 as int % 4 * 16 + x1 as int / 16;
    var v2 := x1 as int % 16 * 4 + x2 as int / 64;
    var v3 := x2 as int % 64;
    RegroupBits(x0 as int, x1 as int, x2 as int);
    DecodeLetters(v0, v1, v2, v3, last);
  }

  /** A last group padded with `==` decodes back to its one byte. */
  lemma DecodeQuadOne(x0: byte)
    ensures DecodeQuad(Quad(x0, 0, 0)[..2] + [Pad, Pad], true) == Some([x0])
  {
    RegroupBits(x0 as int, 0, 0);
    LetterValue(x0 as int / 4);
    LetterValue(x0 as int % 4 * 16);
  }

  /** A last group padded with `=` decodes back to its two bytes. */
  lemma DecodeQuadTwo(x0: byte, x1: byte)
    ensures DecodeQuad(Quad(x0, x1, 0)[..3] + [Pad], true) == Some([x0, x1])
  {
    RegroupBits(x0 as int, x1 as int, 0);
    LetterValue(x0 as int / 4);
    LetterValue(x0 as int % 4 * 16 + x1 as int / 16);
    LetterValue(x1 as int % 16 * 4);
  }

  /** Decoding reads one group of four, then the rest. */
  lemma DecodeCons(q: seq<byte>, rest: seq<byte>)
    requires |q| == 4
    ensures Decode(q + rest) ==
      match DecodeQuad(q, |rest| == 0)
      case None => None
      case Some(group) =>
        match Decode(rest)
        case None => None
        case Some(tail) => Some(group + tail)
  {
    assert (q + rest)[..4] == q;
    assert (q + rest)[4..] == rest;
  }

  /** A single last group decodes as that group. */
  lemma DecodeLast(q: seq<byte>)
    requires |q| == 4
    ensures Decode(q) == DecodeQuad(q, true)
  {
    DecodeCons(q, []);
    assert q + [] == q;
    if DecodeQuad(q, true).Some? {
      assert DecodeQuad(q, true).value + [] == DecodeQuad(q, true).value;
    }
  }

  /** Decoding undoes encoding, for input of every length. */
  lemma {:induction false} DecodeEncode(b: seq<byte>)
    ensures Decode(Encode(b)) == Some(b)
    decreases |b|
  {
    if |b| == 1 {
      DecodeQuadOne(b[0]);
      DecodeLast(Encode(b));
      assert [b[0]] == b;
    } else if |b| == 2 {
      DecodeQuadTwo(b[0], b[1]);
      DecodeLast(Encode(b));
      assert [b[0], b[1]] == b;
    } else if |b| >= 3 {
      var rest := Encode(b[3..]);
      EncodeLength(b[3..]);
      DecodeQuadFull(b[0], b[1], b[2], |rest| == 0);
      DecodeCons(Quad(b[0], b[1], b[2]), rest);
      DecodeEncode(b[3..]);
      assert [b[0], b[1], b[2]] + b[3..] == b;
    }
  }

  /** The encoding of 16 bytes: 22 alphabet bytes, then `==`. */
  lemma KeyShape(key: seq<byte>)
    requires |key| == 16
    ensures |Encode(key)| == 24
    ensures forall i | 0 <= i < 22 :: IsLetter(Encode(key)[i])
    ensures Encode(key)[22..] == [Pad, Pad]
  {
    EncodeShape(key);
    assert (3 - |key| % 3) % 3 == 2 && (|key| + 2) / 3 * 4 == 24;
    var e := Encode(key);
    assert e[22..] == [e[22], e[23]];
  }

  /** `make_key` with a caller-supplied key: 16 bytes become the 24-byte
      `Sec-WebSocket-Key` value, 22 alphabet bytes then `==`, which decodes
      back to the key. */
  function MakeKey(key: seq<byte>): (r: seq<byte>)
    requires |key| == 16
    ensures |r| == 24
    ensures forall i | 0 <= i < 22 :: IsLetter(r[i])
    ensures r[22..] == [Pad, Pad]
    ensures Decode(r) == Some(key)
  {
    KeyShape(key);
    DecodeEncode(key);
    Encode(key)
  }

  /** Encoding takes three bytes at a time from the front. */
  lemma EncodeStep(x0: byte, x1: byte, x2: byte, rest: seq<byte>)
    ensures Encode([x0, x1, x2] + rest) == Quad(x0, x1, x2) + Encode(rest)
  {
    assert ([x0, x1, x2] + rest)[3..] == rest;
  }

  lemma SampleQuadsFront()
    ensures Quad(116, 104, 101) == [100, 71, 104, 108]
    ensures Quad(32, 115, 97) == [73, 72, 78, 104]
    ensures Quad(109, 112, 108) == [98, 88, 66, 115]
  {
  }

  lemma SampleQuadsBack()
    ensures Quad(101, 32, 110) == [90, 83, 66, 117]
    ensures Quad(111, 110, 99) == [98, 50, 53, 106]
    ensures Encode([101]) == [90, 81, 61, 61]
  {
  }

  lemma SampleNonceInput()
    ensures Ascii("the sample nonce")
      == [116, 104, 101] + ([32, 115, 97] + ([109, 112, 108] + ([101, 32, 110] + ([111, 110, 99] + [101]))))
  {
  }

  lemma SampleNonceOutput()
    ensures Ascii("dGhlIHNhbXBsZSBub25jZQ==")
      == [100, 71, 104, 108] + ([73, 72, 78, 104] + ([98, 88, 66, 115] + ([90, 83, 66, 117]
         + ([98, 50, 53, 106] + [90, 81, 61, 61]))))
  {
  }

  lemma SampleNonceBytes()
    ensures Encode([116, 104, 101] + ([32, 115, 97] + ([109, 112, 108] + ([101, 32, 110] + ([111, 110, 99] + [101])))))
      == [100, 71, 104, 108] + ([73, 72, 78, 104] + ([98, 88, 66, 115] + ([90, 83, 66, 117]
         + ([98, 50, 53, 106] + [90, 81, 61, 61]))))
  {
    SampleQuadsFront();
    SampleQuadsBack();
    var t4 := [111, 110, 99] + [101];
    var t3 := [101, 32, 110] + t4;
    var t2 := [109, 112, 108] + t3;
    var t1 := [32, 115, 97] + t2;
    EncodeStep(111, 110, 99, [101]);
    EncodeStep(101, 32, 110, t4);
    EncodeStep(109, 112, 108, t3);
    EncodeStep(32, 115, 97, t2);
    EncodeStep(116, 104, 101, t1);
  }

  /** The nonce of the example in section 4.1 of RFC 6455: the 16 bytes of
      `the sample nonce` are sent as `dGhlIHNhbXBsZSBub25jZQ==`. */
  lemma SampleNonce()
    ensures MakeKey(Ascii("the sample nonce")) == Ascii("dGhlIHNhbXBsZSBub25jZQ==")
  {
    SampleNonceInput();
    SampleNonceOutput();
    SampleNonceBytes();
  }
}
