/** The base 64 encoding of section 4 of RFC 4648: the standard alphabet
    `A-Z a-z 0-9 + /` with `=` padding, as the crate's `BASE64_STANDARD`
    engine writes it. */
module Base64 {
  import opened Wrappers
  import opened Bytes

  type sextet = x: int | 0 <= x < 64

  /** The 64-character alphabet of Table 1 of RFC 4648. */
  function Alphabet(i: sextet): (c: char)
    ensures IsAlphabetChar(c)
  {
    if i < 26 then ('A' as int + i) as char
    else if i < 52 then ('a' as int + (i - 26)) as char
    else if i < 62 then ('0' as int + (i - 52)) as char
    else if i == 62 then '+'
    else '/'
  }

  predicate IsAlphabetChar(c: char) {
    ('A' <= c <= 'Z') || ('a' <= c <= 'z') || ('0' <= c <= '9') || c == '+' || c == '/'
  }

  /** The inverse of the alphabet table. */
  function Index(c: char): (r: Option<sextet>)
    ensures r.Some? <==> IsAlphabetChar(c)
    ensures r.Some? ==> Alphabet(r.value) == c
  {
    if 'A' <= c <= 'Z' then Some(c as int - 'A' as int)
    else if 'a' <= c <= 'z' then Some(c as int - 'a' as int + 26)
    else if '0' <= c <= '9' then Some(c as int - '0' as int + 52)
    else if c == '+' then Some(62)
    else if c == '/' then Some(63)
    else None
  }

  lemma IndexOfAlphabet(i: sextet)
    ensures Index(Alphabet(i)) == Some(i)
  {
  }

  /** Encodes the 24-bit group of three octets as four characters. */
  function EncodeGroup(b0: byte, b1: byte, b2: byte): seq<char>
  {
    [Alphabet(b0 / 4), Alphabet((b0 % 4) * 16 + b1 / 16), Alphabet((b1 % 16) * 4 + b2 / 64), Alphabet(b2 % 64)]
  }

  /** A final quantum of two octets: three characters and one `=`. */
  function EncodeTwo(b0: byte, b1: byte): seq<char>
  {
    [Alphabet(b0 / 4), Alphabet((b0 % 4) * 16 + b1 / 16), Alphabet((b1 % 16) * 4), '=']
  }

  /** A final quantum of one octet: two characters and `==`. */
  function EncodeOne(b0: byte): seq<char>
  {
    [Alphabet(b0 / 4), Alphabet((b0 % 4) * 16), '=', '=']
  }

  /** Well-formed encoder output: alphabet characters followed by at most
      two `=`. */
  predicate IsPadded(s: string) {
    && |s| % 4 == 0
    && (forall k :: 0 <= k < |s| ==> IsAlphabetChar(s[k]) || (s[k] == '=' && k >= |s| - 2))
    && (forall k :: 0 <= k < |s| - 1 && s[k] == '=' ==> s[k + 1] == '=')
  }

  function Encode(bs: seq<byte>): (r: string)
    ensures |r| == 4 * ((|bs| + 2) / 3)
  {
    if |bs| == 0 then ""
    else if |bs| == 1 then EncodeOne(bs[0])
    else if |bs| == 2 then EncodeTwo(bs[0], bs[1])
    else EncodeGroup(bs[0], bs[1], bs[2]) + Encode(bs[3..])
  }

  /** The encoder writes only well-formed text. */
  lemma {:induction false} EncodePadded(bs: seq<byte>)
    ensures IsPadded(Encode(bs))
    decreases |bs|
  {
    if |bs| >= 3 {
      var g, rest := EncodeGroup(bs[0], bs[1], bs[2]), Encode(bs[3..]);
      EncodePadded(bs[3..]);
      assert Encode(bs) == g + rest;
      GroupPadded(g, rest);
    }
  }

  /** A quantum of alphabet characters in front of well-formed text. */
  lemma GroupPadded(g: string, rest: string)
    requires |g| == 4 && forall k :: 0 <= k < 4 ==> IsAlphabetChar(g[k])
    requires IsPadded(rest)
    ensures IsPadded(g + rest)
  {
    var s := g + rest;
    forall k | 0 <= k < |s|
      ensures IsAlphabetChar(s[k]) || (s[k] == '=' && k >= |s| - 2)
    {
      if k >= 4 {
        assert s[k] == rest[k - 4];
      }
    }
    forall k | 0 <= k < |s| - 1 && s[k] == '='
      ensures s[k + 1] == '='
    {
      assert k >= 4 && s[k] == rest[k - 4] && s[k + 1] == rest[k - 3];
    }
  }

  /** Decodes one four-character quantum. Padding is accepted only in the
      last quantum, and only with zero pad bits (section 3.5 of RFC 4648),
      so that every encoded string has exactly one decoding. */
  function DecodeQuantum(q: string, last: bool): (r: Option<seq<byte>>)
    requires |q| == 4
    ensures r.Some? ==> 1 <= |r.value| <= 3
    ensures r.Some? && !last ==> |r.value| == 3
  {
    var i0, i1, i2, i3 := Index(q[0]), Index(q[1]), Index(q[2]), Index(q[3]);
    if i0.None? || i1.None? then None
    else if last && q[2] == '=' && q[3] == '=' then
      if i1.value % 16 != 0 then None else Some(OctetsOne(i0.value, i1.value))
    else if i2.None? then None
    else if last && q[3] == '=' then
      if i2.value % 4 != 0 then None else Some(OctetsTwo(i0.value, i1.value, i2.value))
    else if i3.None? then None
    else Some(Octets(i0.value, i1.value, i2.value, i3.value))
  }

  /** The three octets of a full quantum's four sextets. */
  function Octets(c0: sextet, c1: sextet, c2: sextet, c3: sextet): (r: seq<byte>)
    ensures |r| == 3
  {
    [c0 * 4 + c1 / 16, (c1 % 16) * 16 + c2 / 4, (c2 % 4) * 64 + c3]
  }

  /** The two octets of a quantum padded with one `=`. */
  function OctetsTwo(c0: sextet, c1: sextet, c2: sextet): (r: seq<byte>)
    ensures |r| == 2
  {
    [c0 * 4 + c1 / 16, (c1 % 16) * 16 + c2 / 4]
  }

  /** The octet of a quantum padded with `==`. */
  function OctetsOne(c0: sextet, c1: sextet): (r: seq<byte>)
    ensures |r| == 1
  {
    [c0 * 4 + c1 / 16]
  }

  function Decode(s: string): Option<seq<byte>>
  {
    if |s| == 0 then Some([])
    else if |s| < 4 then None
    else
      match DecodeQuantum(s[..4], |s| == 4)
      case None => None
      case Some(head) =>
        match Decode(s[4..])
        case None => None
        case Some(tail) => Some(head + tail)
  }

  /** `(h * m + l) / m == h` and `(h * m + l) % m == l` for a digit `l < m`. */
  lemma Digits(h: int, l: int, m: int)
    requires 0 <= h && 0 <= l < m && m in {4, 16, 64}
    ensures (h * m + l) / m == h && (h * m + l) % m == l
  {
  }

  /** Splitting three octets into sextets and joining them again. */
  lemma OctetsOfGroup(b0: byte, b1: byte, b2: byte)
    ensures Octets(b0 / 4, (b0 % 4) * 16 + b1 / 16, (b1 % 16) * 4 + b2 / 64, b2 % 64) == [b0, b1, b2]
  {
    Digits(b0 % 4, b1 / 16, 16);
    Digits(b1 % 16, b2 / 64, 4);
  }

  lemma OctetsOfTwo(b0: byte, b1: byte)
    ensures ((b1 % 16) * 4) % 4 == 0
    ensures OctetsTwo(b0 / 4, (b0 % 4) * 16 + b1 / 16, (b1 % 16) * 4) == [b0, b1]
  {
    Digits(b0 % 4, b1 / 16, 16);
    Digits(b1 % 16, 0, 4);
  }

  lemma OctetsOfOne(b0: byte)
    ensures ((b0 % 4) * 16) % 16 == 0
    ensures OctetsOne(b0 / 4, (b0 % 4) * 16) == [b0]
  {
    Digits(b0 % 4, 0, 16);
  }

  /** Joining four sextets into octets and splitting them again. */
  lemma GroupOfOctets(c0: sextet, c1: sextet, c2: sextet, c3: sextet)
    ensures var o := Octets(c0, c1, c2, c3);
      && o[0] / 4 == c0 && (o[0] % 4) * 16 + o[1] / 16 == c1
      && (o[1] % 16) * 4 + o[2] / 64 == c2 && o[2] % 64 == c3
  {
    Digits(c0, c1 / 16, 4);
    Digits(c1 % 16, c2 / 4, 16);
    Digits(c2 % 4, c3, 64);
  }

  lemma TwoOfOctets(c0: sextet, c1: sextet, c2: sextet)
    requires c2 % 4 == 0
    ensures var o := OctetsTwo(c0, c1, c2);
      && o[0] / 4 == c0 && (o[0] % 4) * 16 + o[1] / 16 == c1 && (o[1] % 16) * 4 == c2
  {
    Digits(c0, c1 / 16, 4);
    Digits(c1 % 16, c2 / 4, 16);
  }

  lemma OneOfOctets(c0: sextet, c1: sextet)
    requires c1 % 16 == 0
    ensures var o := OctetsOne(c0, c1);
      o[0] / 4 == c0 && (o[0] % 4) * 16 == c1
  {
    Digits(c0, c1 / 16, 4);
  }

  /** The decoder reads the alphabet characters of four sextets back. */
  lemma DecodeSextets(c0: sextet, c1: sextet, c2: sextet, c3: sextet, last: bool)
    ensures DecodeQuantum([Alphabet(c0), Alphabet(c1), Alphabet(c2), Alphabet(c3)], last)
         == Some(Octets(c0, c1, c2, c3))
  {
    IndexOfAlphabet(c0);
    IndexOfAlphabet(c1);
    IndexOfAlphabet(c2);
    IndexOfAlphabet(c3);
  }

  lemma DecodeSextetsTwo(c0: sextet, c1: sextet, c2: sextet)
    requires c2 % 4 == 0
    ensures DecodeQuantum([Alphabet(c0), Alphabet(c1), Alphabet(c2), '='], true)
         == Some(OctetsTwo(c0, c1, c2))
  {
    IndexOfAlphabet(c0);
    IndexOfAlphabet(c1);
    IndexOfAlphabet(c2);
  }

  lemma DecodeSextetsOne(c0: sextet, c1: sextet)
    requires c1 % 16 == 0
    ensures DecodeQuantum([Alphabet(c0), Alphabet(c1), '=', '='], true) == Some(OctetsOne(c0, c1))
  {
    IndexOfAlphabet(c0);
    IndexOfAlphabet(c1);
  }

  lemma DecodeGroup(b0: byte, b1: byte, b2: byte, last: bool)
    ensures DecodeQuantum(EncodeGroup(b0, b1, b2), last) == Some([b0, b1, b2])
  {
    var s0, s1, s2, s3 := b0 / 4, (b0 % 4) * 16 + b1 / 16, (b1 % 16) * 4 + b2 / 64, b2 % 64;
    assert EncodeGroup(b0, b1, b2) == [Alphabet(s0), Alphabet(s1), Alphabet(s2), Alphabet(s3)];
    OctetsOfGroup(b0, b1, b2);
    DecodeSextets(s0, s1, s2, s3, last);
  }

  lemma DecodeTwo(b0: byte, b1: byte)
    ensures DecodeQuantum(EncodeTwo(b0, b1), true) == Some([b0, b1])
  {
    var s0, s1, s2 := b0 / 4, (b0 % 4) * 16 + b1 / 16, (b1 % 16) * 4;
    assert EncodeTwo(b0, b1) == [Alphabet(s0), Alphabet(s1), Alphabet(s2), '='];
    OctetsOfTwo(b0, b1);
    DecodeSextetsTwo(s0, s1, s2);
  }

  lemma DecodeOne(b0: byte)
    ensures DecodeQuantum(EncodeOne(b0), true) == Some([b0])
  {
    var s0, s1 := b0 / 4, (b0 % 4) * 16;
    assert EncodeOne(b0) == [Alphabet(s0), Alphabet(s1), '=', '='];
    OctetsOfOne(b0);
    DecodeSextetsOne(s0, s1);
  }

  /** Decoding a quantum followed by more text. */
  lemma DecodeCons(q: string, rest: string, head: seq<byte>, tail: seq<byte>)
    requires |q| == 4
    requires DecodeQuantum(q, |rest| == 0) == Some(head)
    requires Decode(rest) == Some(tail)
    ensures Decode(q + rest) == Some(head + tail)
  {
    var s := q + rest;
    assert s[..4] == q;
    assert s[4..] == rest;
  }

  /** Decoding recovers the octets: the encoding is injective. */
  lemma {:induction false} DecodeEncode(bs: seq<byte>)
    ensures Decode(Encode(bs)) == Some(bs)
    decreases |bs|
  {
    if |bs| < 3 {
      DecodeEncodeFinal(bs);
    } else {
      DecodeEncode(bs[3..]);
      DecodeEncodeStep(bs, Encode(bs[3..]));
    }
  }

  lemma DecodeEncodeFinal(bs: seq<byte>)
    requires |bs| < 3
    ensures Decode(Encode(bs)) == Some(bs)
  {
    if |bs| == 1 {
      EncodeSingle(bs);
      DecodeEncodeOne(bs[0]);
    } else if |bs| == 2 {
      EncodePair(bs);
      DecodeEncodeTwo(bs[0], bs[1]);
    }
  }

  lemma EncodeSingle(bs: seq<byte>)
    requires |bs| == 1
    ensures bs == [bs[0]] && Encode(bs) == EncodeOne(bs[0])
  {
  }

  lemma EncodePair(bs: seq<byte>)
    requires |bs| == 2
    ensures bs == [bs[0], bs[1]] && Encode(bs) == EncodeTwo(bs[0], bs[1])
  {
  }

  lemma DecodeEncodeStep(bs: seq<byte>, rest: string)
    requires |bs| >= 3 && rest == Encode(bs[3..])
    requires Decode(rest) == Some(bs[3..])
    ensures Decode(Encode(bs)) == Some(bs)
  {
    assert Encode(bs) == EncodeGroup(bs[0], bs[1], bs[2]) + rest;
    DecodeEncodeGroup(bs[0], bs[1], bs[2], rest, bs[3..]);
    assert [bs[0], bs[1], bs[2]] + bs[3..] == bs;
  }

  lemma DecodeEncodeOne(b0: byte)
    ensures Decode(EncodeOne(b0)) == Some([b0])
  {
    DecodeOne(b0);
    DecodeCons(EncodeOne(b0), [], [b0], []);
    assert EncodeOne(b0) + [] == EncodeOne(b0);
    assert [b0] + [] == [b0];
  }

  lemma DecodeEncodeTwo(b0: byte, b1: byte)
    ensures Decode(EncodeTwo(b0, b1)) == Some([b0, b1])
  {
    DecodeTwo(b0, b1);
    DecodeCons(EncodeTwo(b0, b1), [], [b0, b1], []);
    assert EncodeTwo(b0, b1) + [] == EncodeTwo(b0, b1);
    assert [b0, b1] + [] == [b0, b1];
  }

  lemma DecodeEncodeGroup(b0: byte, b1: byte, b2: byte, rest: string, tail: seq<byte>)
    requires Decode(rest) == Some(tail)
    ensures Decode(EncodeGroup(b0, b1, b2) + rest) == Some([b0, b1, b2] + tail)
  {
    DecodeGroup(b0, b1, b2, |rest| == 0);
    DecodeCons(EncodeGroup(b0, b1, b2), rest, [b0, b1, b2], tail);
  }

  /** A quantum the decoder accepts is the one the encoder writes for the
      octets it yields. */
  lemma EncodeDecodeQuantum(q: string, last: bool, h: seq<byte>)
    requires |q| == 4
    requires DecodeQuantum(q, last) == Some(h)
    ensures |h| == 3 ==> EncodeGroup(h[0], h[1], h[2]) == q
    ensures |h| == 2 ==> EncodeTwo(h[0], h[1]) == q
    ensures |h| == 1 ==> EncodeOne(h[0]) == q
    ensures |h| < 3 ==> last
  {
    var i0, i1, i2, i3 := Index(q[0]), Index(q[1]), Index(q[2]), Index(q[3]);
    assert i0.Some? && i1.Some?;
    if last && q[2] == '=' && q[3] == '=' {
      assert h == OctetsOne(i0.value, i1.value);
      OneOfOctets(i0.value, i1.value);
    } else if last && q[3] == '=' {
      assert i2.Some?;
      assert h == OctetsTwo(i0.value, i1.value, i2.value);
      TwoOfOctets(i0.value, i1.value, i2.value);
    } else {
      assert i2.Some? && i3.Some?;
      assert h == Octets(i0.value, i1.value, i2.value, i3.value);
      GroupOfOctets(i0.value, i1.value, i2.value, i3.value);
    }
  }

  /** Every string the decoder accepts is the encoding of what it decodes
      to: together with DecodeEncode, `Decode(s) == Some(bs)` holds exactly
      when `s == Encode(bs)`. */
  lemma {:induction false} EncodeDecode(s: string)
    requires Decode(s).Some?
    ensures Encode(Decode(s).value) == s
    decreases |s|
  {
    if |s| > 0 {
      var q, rest := s[..4], s[4..];
      var h := DecodeQuantum(q, |s| == 4).value;
      var t := Decode(rest).value;
      assert Decode(s).value == h + t;
      EncodeDecodeQuantum(q, |s| == 4, h);
      EncodeDecode(rest);
      EncodeOfDecoded(h, t, q, rest, |s| == 4);
      assert q + rest == s;
    }
  }

  lemma EncodeOfDecoded(h: seq<byte>, t: seq<byte>, q: string, rest: string, last: bool)
    requires 1 <= |h| <= 3
    requires Encode(t) == rest
    requires last ==> |rest| == 0
    requires |h| == 3 ==> EncodeGroup(h[0], h[1], h[2]) == q
    requires |h| == 2 ==> EncodeTwo(h[0], h[1]) == q
    requires |h| == 1 ==> EncodeOne(h[0]) == q
    requires |h| < 3 ==> last
    ensures Encode(h + t) == q + rest
  {
    var bs := h + t;
    if |h| == 3 {
      assert bs[3..] == t;
    } else {
      assert t == [] && bs == h;
    }
  }

  lemma DecodeIffEncode(s: string, bs: seq<byte>)
    ensures Decode(s) == Some(bs) <==> s == Encode(bs)
  {
    DecodeEncode(bs);
    if Decode(s) == Some(bs) {
      EncodeDecode(s);
    }
  }

  lemma EncodeInjective(a: seq<byte>, b: seq<byte>)
    requires Encode(a) == Encode(b)
    ensures a == b
  {
    DecodeEncode(a);
    DecodeEncode(b);
  }

  /** The alphabet entries the test vectors of RFC 4648 use. */
  lemma VectorLetters()
    ensures Alphabet(4) == 'E' && Alphabet(5) == 'F' && Alphabet(24) == 'Y' && Alphabet(25) == 'Z'
    ensures Alphabet(32) == 'g' && Alphabet(38) == 'm' && Alphabet(47) == 'v' && Alphabet(50) == 'y'
    ensures Alphabet(60) == '8' && Alphabet(61) == '9'
  {
  }

  /** The quanta of "foo" and "bar" and of their one- and two-octet
      prefixes. */
  lemma VectorQuanta()
    ensures EncodeGroup(102, 111, 111) == "Zm9v" && EncodeGroup(98, 97, 114) == "YmFy"
    ensures EncodeTwo(102, 111) == "Zm8=" && EncodeTwo(98, 97) == "YmE="
    ensures EncodeOne(102) == "Zg==" && EncodeOne(98) == "Yg=="
  {
    VectorLetters();
    assert EncodeGroup(102, 111, 111) == [Alphabet(25), Alphabet(38), Alphabet(61), Alphabet(47)];
    assert EncodeGroup(98, 97, 114) == [Alphabet(24), Alphabet(38), Alphabet(5), Alphabet(50)];
    assert EncodeTwo(102, 111) == [Alphabet(25), Alphabet(38), Alphabet(60), '='];
    assert EncodeTwo(98, 97) == [Alphabet(24), Alphabet(38), Alphabet(4), '='];
    assert EncodeOne(102) == [Alphabet(25), Alphabet(32), '=', '='];
    assert EncodeOne(98) == [Alphabet(24), Alphabet(32), '=', '='];
  }

  /** The test vectors of section 10 of RFC 4648 up to a full quantum:
      "", "f", "fo" and "foo" as octets. */
  lemma RfcVectorsShort()
    ensures Encode([]) == ""
    ensures Encode([102]) == "Zg=="
    ensures Encode([102, 111]) == "Zm8="
    ensures Encode([102, 111, 111]) == "Zm9v"
  {
    VectorQuanta();
    assert Encode([102, 111, 111]) == EncodeGroup(102, 111, 111) + Encode([]);
  }

  /** The remaining test vectors of section 10 of RFC 4648: "foob",
      "fooba" and "foobar" as octets. */
  lemma RfcVectorsLong()
    ensures Encode([102, 111, 111, 98]) == "Zm9vYg=="
    ensures Encode([102, 111, 111, 98, 97]) == "Zm9vYmE="
    ensures Encode([102, 111, 111, 98, 97, 114]) == "Zm9vYmFy"
  {
    VectorQuanta();
    var foo, bar: seq<byte> := [102, 111, 111], [98, 97, 114];
    assert Encode(bar) == EncodeGroup(98, 97, 114) + Encode([]);
    assert (foo + [98])[3..] == [98] && (foo + [98, 97])[3..] == [98, 97] && (foo + bar)[3..] == bar;
    assert foo + [98] == [102, 111, 111, 98];
    assert foo + [98, 97] == [102, 111, 111, 98, 97];
    assert foo + bar == [102, 111, 111, 98, 97, 114];
  }
}
