/** `encode_mime_b`: an RFC 2047 encoded-word (section 4.1, the "B"
    encoding) carrying the UTF-8 octets of a string. */
module Mime {
  import opened Wrappers
  import Utf8
  import Base64

  const Prefix: string := "=?UTF-8?B?"
  const Suffix: string := "?="

  /** The octet length `str::len` reports. */
  function ByteLength(s: string): nat {
    |Utf8.Encode(s)|
  }

  /** The capacity reserved before writing: `12 + 4 * (len + 2) / 3`. */
  function ReservedCapacity(s: string): nat {
    12 + (4 * (ByteLength(s) + 2)) / 3
  }

  function EncodeMimeB(s: string): (r: string)
    ensures |r| == 12 + 4 * ((ByteLength(s) + 2) / 3)
    ensures r[..10] == Prefix && r[|r| - 2..] == Suffix
    ensures Base64.Decode(r[10..|r| - 2]) == Some(Utf8.Encode(s))
  {
    var payload := Base64.Encode(Utf8.Encode(s));
    var r := Prefix + payload + Suffix;
    assert r[..10] == Prefix && r[10..|r| - 2] == payload;
    Base64.DecodeEncode(Utf8.Encode(s));
    r
  }

  /** The text between the delimiters is exactly the base 64 encoding of the
      octets, and so uses only the alphabet and trailing padding. */
  lemma PayloadIsBase64(s: string)
    ensures var r := EncodeMimeB(s);
      && r[10..|r| - 2] == Base64.Encode(Utf8.Encode(s))
      && Base64.IsPadded(r[10..|r| - 2])
  {
    var r := EncodeMimeB(s);
    Base64.DecodeIffEncode(r[10..|r| - 2], Utf8.Encode(s));
    Base64.EncodePadded(Utf8.Encode(s));
  }

  /** The reserved capacity is never smaller than the final length, so the
      string is written without reallocating. */
  lemma CapacitySuffices(s: string)
    ensures |EncodeMimeB(s)| <= ReservedCapacity(s)
  {
    var m := ByteLength(s) + 2;
    var q := m / 3;
    assert m == 3 * q + m % 3;
    assert 4 * m == 3 * (4 * q) + 4 * (m % 3);
    assert (4 * m) / 3 >= 4 * q;
  }

  lemma EmptyInput()
    ensures EncodeMimeB("") == "=?UTF-8?B??="
  {
    var r := EncodeMimeB("");
    assert |r| == 12;
    assert r == r[..10] + r[10..];
  }

  /** Different strings never share an encoded-word. */
  lemma Injective(s: string, t: string)
    requires EncodeMimeB(s) == EncodeMimeB(t)
    ensures s == t
  {
    Utf8.EncodeInjective(s, t);
  }
}
