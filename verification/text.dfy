/** String helpers the crate takes from Rust's `str`: `trim`, `find`,
    `ends_with`, and `join` on a list of strings. A string is a sequence of
    Unicode scalar values. */
module Text {

  /** Rust's `char::is_whitespace`: the Unicode White_Space property. */
  predicate IsWhitespace(c: char) {
    || ('\t' <= c <= '\r')
    || c == ' '
    || c == '\U{85}'
    || c == '\U{A0}'
    || c == '\U{1680}'
    || ('\U{2000}' <= c <= '\U{200A}')
    || c == '\U{2028}'
    || c == '\U{2029}'
    || c == '\U{202F}'
    || c == '\U{205F}'
    || c == '\U{3000}'
  }

  predicate AllWhitespace(s: string) {
    forall k :: 0 <= k < |s| ==> IsWhitespace(s[k])
  }

  /** A string with no whitespace at either end: what `trim` leaves. */
  predicate IsTrimmed(s: string) {
    |s| == 0 || (!IsWhitespace(s[0]) && !IsWhitespace(s[|s| - 1]))
  }

  /** Number of leading whitespace characters. */
  function LeadingWhitespace(s: string): (n: nat)
    ensures n <= |s|
    ensures forall k :: 0 <= k < n ==> IsWhitespace(s[k])
    ensures n < |s| ==> !IsWhitespace(s[n])
  {
    if |s| == 0 || !IsWhitespace(s[0]) then 0
    else 1 + LeadingWhitespace(s[1..])
  }

  /** Number of trailing whitespace characters. */
  function TrailingWhitespace(s: string): (n: nat)
    ensures n <= |s|
    ensures forall k :: |s| - n <= k < |s| ==> IsWhitespace(s[k])
    ensures n < |s| ==> !IsWhitespace(s[|s| - n - 1])
  {
    if |s| == 0 || !IsWhitespace(s[|s| - 1]) then 0
    else 1 + TrailingWhitespace(s[..|s| - 1])
  }

  /** `str::trim`: the slice of `s` left after removing the leading and the
      trailing whitespace. */
  function Trim(s: string): (r: string)
    ensures IsTrimmed(r)
    ensures exists i, j ::
      && 0 <= i <= j <= |s| && r == s[i..j]
      && AllWhitespace(s[..i]) && AllWhitespace(s[j..])
  {
    var i := LeadingWhitespace(s);
    assert AllWhitespace(s[..i]);
    if i == |s| then
      assert s[i..i] == [];
      []
    else
      var j := |s| - TrailingWhitespace(s[i..]);
      assert forall k :: j <= k < |s| ==> s[k] == s[i..][k - i];
      assert AllWhitespace(s[j..]);
      s[i..j]
  }

  /** A string that is already trimmed is its own trim, even with whitespace
      appended after it. */
  lemma TrimOfTrimmedPlusSpace(n: string, w: string)
    requires IsTrimmed(n)
    requires AllWhitespace(w)
    ensures Trim(n + w) == n
  {
    var s := n + w;
    if |n| == 0 {
      assert s == w;
      LeadingAllWhitespace(w);
    } else {
      assert s[0] == n[0];
      assert LeadingWhitespace(s) == 0;
      TrailingOfSuffix(n, w);
      assert s[0..|n|] == n;
    }
  }

  lemma LeadingAllWhitespace(w: string)
    requires AllWhitespace(w)
    ensures LeadingWhitespace(w) == |w|
  {
    if |w| > 0 {
      LeadingAllWhitespace(w[1..]);
    }
  }

  lemma TrailingOfSuffix(n: string, w: string)
    requires |n| > 0 && !IsWhitespace(n[|n| - 1])
    requires AllWhitespace(w)
    ensures TrailingWhitespace(n + w) == |w|
    decreases |w|
  {
    var s := n + w;
    if |w| == 0 {
      assert s == n;
    } else {
      assert s[..|s| - 1] == n + w[..|w| - 1];
      TrailingOfSuffix(n, w[..|w| - 1]);
    }
  }

  /** `str::find` for a single character: the index of its first occurrence. */
  function IndexOf(s: string, c: char): (r: int)
    ensures -1 <= r < |s|
    ensures r == -1 <==> c !in s
    ensures r >= 0 ==> s[r] == c && c !in s[..r]
  {
    if |s| == 0 then -1
    else if s[0] == c then 0
    else
      var k := IndexOf(s[1..], c);
      if k == -1 then -1 else
        assert s[..k + 1] == [s[0]] + s[1..][..k];
        k + 1
  }

  predicate EndsWith(s: string, suffix: string) {
    |suffix| <= |s| && s[|s| - |suffix|..] == suffix
  }

  /** `[String]::join(sep)`: the parts with `sep` between neighbours. */
  function Join(parts: seq<string>, sep: string): string
  {
    if |parts| == 0 then ""
    else if |parts| == 1 then parts[0]
    else Join(parts[..|parts| - 1], sep) + sep + parts[|parts| - 1]
  }

  function TotalLength(parts: seq<string>): nat
  {
    if |parts| == 0 then 0 else TotalLength(parts[..|parts| - 1]) + |parts[|parts| - 1]|
  }

  /** The joined string holds every part once plus one separator between
      each pair of neighbours. */
  lemma {:induction false} JoinLength(parts: seq<string>, sep: string)
    requires |parts| > 0
    ensures |Join(parts, sep)| == TotalLength(parts) + (|parts| - 1) * |sep|
  {
    if |parts| > 1 {
      JoinLength(parts[..|parts| - 1], sep);
      assert parts[..|parts| - 1][..|parts| - 2] == parts[..|parts| - 2];
    } else {
      assert parts[..0] == [];
    }
  }
}
