/** UTF-8 encoding of Unicode scalar values (RFC 3629). Rust's `str` is
    UTF-8, so `str::len` and `str::as_bytes` are the length and the content
    of this encoding. */
module Utf8 {
  import opened Wrappers
  import opened Bytes

  predicate IsContinuation(b: byte) {
    0x80 <= b < 0xC0
  }

  /** The one to four octets that encode a single scalar value. */
  function EncodeChar(c: char): (r: seq<byte>)
    ensures 1 <= |r| <= 4
    ensures (c as int < 0x80) <==> |r| == 1
    ensures |r| == 1 ==> r[0] == c as int
    ensures forall k :: 1 <= k < |r| ==> IsContinuation(r[k])
  {
    var x := c as int;
    if x < 0x80 then [x]
    else if x < 0x800 then [0xC0 + x / 64, 0x80 + x % 64]
    else if x < 0x1_0000 then [0xE0 + x / 4096, 0x80 + (x / 64) % 64, 0x80 + x % 64]
    else [0xF0 + x / 262144, 0x80 + (x / 4096) % 64, 0x80 + (x / 64) % 64, 0x80 + x % 64]
  }

  /** `str::as_bytes`. */
  function Encode(s: string): (r: seq<byte>)
    ensures |r| >= |s|
    ensures |s| == 0 <==> |r| == 0
  {
    if |s| == 0 then [] else EncodeChar(s[0]) + Encode(s[1..])
  }

  predicate IsScalar(x: int) {
    (0 <= x < 0xD800) || (0xE000 <= x < 0x11_0000)
  }

  /** Decodes the first scalar value of `bs`, rejecting overlong forms,
      surrogates and values beyond U+10FFFF; yields the value and the
      number of octets it took. */
  function DecodeChar(bs: seq<byte>): (r: Option<(char, nat)>)
    ensures r.Some? ==> 1 <= r.value.1 <= |bs| && r.value.1 <= 4
  {
    if |bs| == 0 then None
    else
      var b0 := bs[0] as int;
      if b0 < 0x80 then Some((b0 as char, 1))
      else if 0xC2 <= b0 < 0xE0 then
        if |bs| < 2 || !IsContinuation(bs[1]) then None
        else Some((((b0 - 0xC0) * 64 + (bs[1] as int - 0x80)) as char, 2))
      else if 0xE0 <= b0 < 0xF0 then
        if |bs| < 3 || !IsContinuation(bs[1]) || !IsContinuation(bs[2]) then None
        else
          var x := (b0 - 0xE0) * 4096 + (bs[1] as int - 0x80) * 64 + (bs[2] as int - 0x80);
          if x < 0x800 || !IsScalar(x) then None else Some((x as char, 3))
      else if 0xF0 <= b0 < 0xF5 then
        if |bs| < 4 || !IsContinuation(bs[1]) || !IsContinuation(bs[2]) || !IsContinuation(bs[3]) then None
        else
          var x := (b0 - 0xF0) * 262144 + (bs[1] as int - 0x80) * 4096 + (bs[2] as int - 0x80) * 64 + (bs[3] as int - 0x80);
          if x < 0x1_0000 || !IsScalar(x) then None else Some((x as char, 4))
      else None
  }

  /** Decodes a whole octet sequence; `None` if any part is not UTF-8. */
  function Decode(bs: seq<byte>): Option<string>
    decreases |bs|
  {
    if |bs| == 0 then Some("")
    else match DecodeChar(bs)
      case None => None
      case Some((c, n)) =>
        match Decode(bs[n..])
        case None => None
        case Some(rest) => Some([c] + rest)
  }

  /** The decoder reads back exactly the scalar value the encoder wrote,
      whatever follows it. */
  lemma DecodeEncodeChar(c: char, rest: seq<byte>)
    ensures DecodeChar(EncodeChar(c) + rest) == Some((c, |EncodeChar(c)|))
  {
    var x := c as int;
    if x < 0x80 {
    } else if x < 0x800 {
      DecodeTwo(c, rest);
    } else if x < 0x1_0000 {
      DecodeThree(c, rest);
    } else {
      DecodeFour(c, rest);
    }
  }

  lemma DecodeTwo(c: char, rest: seq<byte>)
    requires 0x80 <= c as int < 0x800
    ensures DecodeChar(EncodeChar(c) + rest) == Some((c, 2))
  {
    var x := c as int;
    var bs := EncodeChar(c) + rest;
    assert bs[0] as int - 0xC0 == x / 64 && bs[1] as int - 0x80 == x % 64;
  }

  lemma DecodeThree(c: char, rest: seq<byte>)
    requires 0x800 <= c as int < 0x1_0000
    ensures DecodeChar(EncodeChar(c) + rest) == Some((c, 3))
  {
    var x := c as int;
    var bs := EncodeChar(c) + rest;
    var q := x / 64;
    assert x == q * 64 + x % 64;
    assert q == (q / 64) * 64 + q % 64;
    assert q / 64 == x / 4096;
    var y := (bs[0] as int - 0xE0) * 4096 + (bs[1] as int - 0x80) * 64 + (bs[2] as int - 0x80);
    assert y == x;
  }

  lemma DecodeFour(c: char, rest: seq<byte>)
    requires 0x1_0000 <= c as int
    ensures DecodeChar(EncodeChar(c) + rest) == Some((c, 4))
  {
    var x := c as int;
    var bs := EncodeChar(c) + rest;
    var q := x / 64;
    var p := q / 64;
    assert x == q * 64 + x % 64;
    assert q == p * 64 + q % 64;
    assert p == (p / 64) * 64 + p % 64;
    assert p == x / 4096;
    assert p / 64 == x / 262144;
    var y := (bs[0] as int - 0xF0) * 262144 + (bs[1] as int - 0x80) * 4096
      + (bs[2] as int - 0x80) * 64 + (bs[3] as int - 0x80);
    assert y == x;
  }

  /** Decoding undoes encoding. */
  lemma {:induction false} DecodeEncode(s: string)
    ensures Decode(Encode(s)) == Some(s)
  {
    if |s| > 0 {
      var e := EncodeChar(s[0]);
      DecodeEncodeChar(s[0], Encode(s[1..]));
      assert (e + Encode(s[1..]))[|e|..] == Encode(s[1..]);
      DecodeEncode(s[1..]);
      assert [s[0]] + s[1..] == s;
    }
  }

  /** `(h * m + l) / m == h` and `(h * m + l) % m == l` for a digit `l < m`. */
  lemma Place(h: int, l: int, m: int)
    requires 0 <= h && 0 <= l < m && m in {64, 4096, 262144}
    ensures (h * m + l) / m == h && (h * m + l) % m == l
  {
  }

  /** A two-octet sequence the decoder accepts is re-encoded to itself. */
  lemma ReencodeTwo(b0: int, b1: int)
    requires 0xC2 <= b0 < 0xE0 && 0x80 <= b1 < 0xC0
    ensures var x := (b0 - 0xC0) * 64 + (b1 - 0x80);
      && 0x80 <= x < 0x800
      && 0xC0 + x / 64 == b0 && 0x80 + x % 64 == b1
  {
    Place(b0 - 0xC0, b1 - 0x80, 64);
  }

  /** The same for three octets. */
  lemma ReencodeThree(b0: int, b1: int, b2: int)
    requires 0xE0 <= b0 < 0xF0 && 0x80 <= b1 < 0xC0 && 0x80 <= b2 < 0xC0
    ensures var x := (b0 - 0xE0) * 4096 + (b1 - 0x80) * 64 + (b2 - 0x80);
      && x < 0x1_0000
      && 0xE0 + x / 4096 == b0 && 0x80 + (x / 64) % 64 == b1 && 0x80 + x % 64 == b2
  {
    var h, m, l := b0 - 0xE0, b1 - 0x80, b2 - 0x80;
    var x := h * 4096 + m * 64 + l;
    assert x == (h * 64 + m) * 64 + l;
    Place(h * 64 + m, l, 64);
    Place(h, m, 64);
    assert x == h * 4096 + (m * 64 + l);
    Place(h, m * 64 + l, 4096);
  }

  /** The same for four octets. */
  lemma ReencodeFour(b0: int, b1: int, b2: int, b3: int)
    requires 0xF0 <= b0 < 0xF5 && 0x80 <= b1 < 0xC0 && 0x80 <= b2 < 0xC0 && 0x80 <= b3 < 0xC0
    ensures var x := (b0 - 0xF0) * 262144 + (b1 - 0x80) * 4096 + (b2 - 0x80) * 64 + (b3 - 0x80);
      && 0xF0 + x / 262144 == b0 && 0x80 + (x / 4096) % 64 == b1
      && 0x80 + (x / 64) % 64 == b2 && 0x80 + x % 64 == b3
  {
    var h, m1, m2, l := b0 - 0xF0, b1 - 0x80, b2 - 0x80, b3 - 0x80;
    var x := h * 262144 + m1 * 4096 + m2 * 64 + l;
    assert x == (h * 4096 + m1 * 64 + m2) * 64 + l;
    Place(h * 4096 + m1 * 64 + m2, l, 64);
    assert h * 4096 + m1 * 64 + m2 == (h * 64 + m1) * 64 + m2;
    Place(h * 64 + m1, m2, 64);
    assert x == (h * 64 + m1) * 4096 + (m2 * 64 + l);
    Place(h * 64 + m1, m2 * 64 + l, 4096);
    Place(h, m1, 64);
    assert x == h * 262144 + (m1 * 4096 + m2 * 64 + l);
    Place(h, m1 * 4096 + m2 * 64 + l, 262144);
  }

  /** The octets the decoder reads for one scalar value are exactly its
      encoding: the decoder accepts no second spelling of a value. */
  lemma ReencodeChar(bs: seq<byte>)
    requires DecodeChar(bs).Some?
    ensures EncodeChar(DecodeChar(bs).value.0) == bs[..DecodeChar(bs).value.1]
  {
    var b0 := bs[0] as int;
    if b0 < 0x80 {
      assert bs[..1] == [bs[0]];
    } else if b0 < 0xE0 {
      ReencodeTwo(b0, bs[1]);
      assert bs[..2] == [bs[0], bs[1]];
    } else if b0 < 0xF0 {
      ReencodeThree(b0, bs[1], bs[2]);
      assert bs[..3] == [bs[0], bs[1], bs[2]];
    } else {
      ReencodeFour(b0, bs[1], bs[2], bs[3]);
      assert bs[..4] == [bs[0], bs[1], bs[2], bs[3]];
    }
  }

  /** Every octet sequence the decoder accepts is the encoding of what it
      decodes to. */
  lemma {:induction false} EncodeDecode(bs: seq<byte>)
    requires Decode(bs).Some?
    ensures Encode(Decode(bs).value) == bs
    decreases |bs|
  {
    if |bs| > 0 {
      var c, n := DecodeChar(bs).value.0, DecodeChar(bs).value.1;
      var rest := Decode(bs[n..]).value;
      ReencodeChar(bs);
      EncodeDecode(bs[n..]);
      var s := [c] + rest;
      assert Decode(bs).value == s;
      assert s[0] == c && s[1..] == rest;
      assert bs[..n] + bs[n..] == bs;
    }
  }

  /** An octet sequence decodes to a string exactly when it is that
      string's encoding. */
  lemma DecodeIffEncode(bs: seq<byte>, s: string)
    ensures Decode(bs) == Some(s) <==> bs == Encode(s)
  {
    if Decode(bs) == Some(s) {
      EncodeDecode(bs);
    }
    if bs == Encode(s) {
      DecodeEncode(s);
    }
  }

  /** Different strings have different encodings. */
  lemma EncodeInjective(s: string, t: string)
    requires Encode(s) == Encode(t)
    ensures s == t
  {
    DecodeEncode(s);
    DecodeEncode(t);
  }

  /** ASCII text is encoded one octet per character, unchanged. */
  lemma {:induction false} EncodeAscii(s: string)
    requires forall k :: 0 <= k < |s| ==> s[k] as int < 0x80
    ensures |Encode(s)| == |s|
    ensures forall k :: 0 <= k < |s| ==> Encode(s)[k] == s[k] as int
  {
    if |s| > 0 {
      EncodeAscii(s[1..]);
    }
  }
}
