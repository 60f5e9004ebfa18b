/** `Address`: an email address with an optional display name, its display
    form, and the parser behind `Address::from(&str)`. Neither part is
    validated: any text is accepted. */
module Addresses {
  import opened Wrappers
  import opened Text

  datatype Address = Address(name: Option<string>, email: string)

  /** `Address::new`. */
  function New(email: string): (a: Address)
    ensures a.name.None? && a.email == email
  {
    Address(None, email)
  }

  /** `Address::with_name`. */
  function WithName(name: string, email: string): (a: Address)
    ensures a.name == Some(name) && a.email == email
  {
    Address(Some(name), email)
  }

  /** The `Display` form: `name <email>`, or the bare email when there is no
      name. The name is written as it is, without quoting or encoding. */
  function Display(a: Address): (r: string)
    ensures a.name.None? ==> r == a.email
    ensures a.name.Some? ==>
      && |r| == |a.name.value| + |a.email| + 3
      && r[..|a.name.value|] == a.name.value
      && r[|a.name.value|..|a.name.value| + 2] == " <"
      && r[|a.name.value| + 2..|r| - 1] == a.email
      && r[|r| - 1] == '>'
  {
    match a.name
    case None => a.email
    case Some(n) => n + " <" + a.email + ">"
  }

  /** Whether `from(&str)` splits its input: it ends with `>` and holds a `<`. */
  predicate HasAngleForm(s: string) {
    EndsWith(s, ">") && '<' in s
  }

  /** `Address::from(&str)`. When the text ends with `>` and holds a `<`,
      the text before the first `<`, trimmed, is the name (possibly empty)
      and the text strictly between that `<` and the final `>` is the email;
      otherwise the whole text is the email. */
  function Parse(s: string): (a: Address)
    ensures !HasAngleForm(s) <==> a == New(s)
    ensures HasAngleForm(s) ==>
      && a.name.Some?
      && '<' !in a.name.value
      && IsTrimmed(a.name.value)
      && exists i ::
        && 0 <= i < |s| - 1 && s[i] == '<' && '<' !in s[..i]
        && a.name.value == Trim(s[..i])
        && a.email == s[i + 1..|s| - 1]
  {
    if EndsWith(s, ">") && '<' in s then
      var i := IndexOf(s, '<');
      assert s[|s| - 1] == '>';
      TrimHasNo(s[..i], '<');
      WithName(Trim(s[..i]), s[i + 1..|s| - 1])
    else New(s)
  }

  /** Trimming never introduces a character. */
  lemma TrimHasNo(s: string, c: char)
    requires c !in s
    ensures c !in Trim(s)
  {
  }

  /** Parsing rebuilds a named address from its display form when the name
      has no `<` and no surrounding whitespace. */
  lemma ParseDisplayWithName(n: string, e: string)
    requires '<' !in n
    requires IsTrimmed(n)
    ensures Parse(Display(WithName(n, e))) == WithName(n, e)
  {
    var s := Display(WithName(n, e));
    assert s == n + " " + "<" + e + ">";
    assert s[|n| + 1] == '<';
    assert s[..|n| + 1] == n + " ";
    assert '<' !in s[..|n| + 1];
    assert IndexOf(s, '<') == |n| + 1;
    TrimOfTrimmedPlusSpace(n, " ");
    assert s[|n| + 2..|s| - 1] == e;
  }

  /** Parsing rebuilds a bare address from its display form unless the email
      itself looks like `... <...>`. */
  lemma ParseDisplayNew(e: string)
    requires !HasAngleForm(e)
    ensures Parse(Display(New(e))) == New(e)
  {
  }

  /** The examples the crate documents in its own tests. */
  lemma DisplayExamples()
    ensures Display(New("test@example.com")) == "test@example.com"
    ensures Display(WithName("Test User", "test@example.com")) == "Test User <test@example.com>"
  {
  }

  lemma ParseExampleBare()
    ensures Parse("test@example.com") == New("test@example.com")
  {
    var plain := "test@example.com";
    assert plain[|plain| - 1..] != ">" by {
      assert plain[|plain| - 1..][0] == 'm';
    }
  }

  lemma ParseExampleNamed()
    ensures Parse("Test User <test@example.com>") == WithName("Test User", "test@example.com")
  {
    var n, e := "Test User", "test@example.com";
    assert IsTrimmed(n);
    DisplayExamples();
    ParseDisplayWithName(n, e);
  }
}
