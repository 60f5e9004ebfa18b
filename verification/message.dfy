/** `Message` and its consuming `MessageBuilder`. Setters never fail: they
    overwrite a single-valued field, append to a list, or (the `Set`
    variants) replace a whole list or optional field. All validation happens
    in `Build`. */
module Messages {
  import opened Wrappers
  import opened Addresses

  /** A `(key, value)` entry of `headers` or `metadata`. */
  type Pair = (string, string)

  datatype Message = Message(
    category: Option<string>,
    metadata: seq<Pair>,
    from: Address,
    replyTo: Option<Address>,
    to: seq<Address>,
    cc: seq<Address>,
    bcc: seq<Address>,
    headers: seq<Pair>,
    subject: string,
    textBody: Option<string>,
    htmlBody: Option<string>)

  /** What every built message satisfies: a recipient and a body. */
  predicate Valid(m: Message) {
    |m.to| > 0 && (m.textBody.Some? || m.htmlBody.Some?)
  }

  datatype BuilderError = MissingFrom | MissingTo | MissingSubject | MissingBody

  /** The `Display` text of each builder error: it opens by naming what
      is missing. */
  function Describe(e: BuilderError): (r: string)
    ensures e.MissingFrom? ==> |r| >= 6 && r[..6] == "Sender"
    ensures e.MissingTo? ==> |r| >= 9 && r[..9] == "Recipient"
    ensures e.MissingSubject? ==> |r| >= 7 && r[..7] == "Subject"
    ensures e.MissingBody? ==> |r| >= 4 && r[..4] == "Body"
  {
    match e
    case MissingFrom => "Sender" + " (`from`) is missing"
    case MissingTo => "Recipient" + " (`to`) is missing"
    case MissingSubject => "Subject" + " is missing"
    case MissingBody => "Body" + " is missing, provide at least one of `text_body` or `html_body`"
  }

  /** Each error kind has its own text, so a logged message identifies it. */
  lemma DescribeInjective(e1: BuilderError, e2: BuilderError)
    requires Describe(e1) == Describe(e2)
    ensures e1 == e2
  {
  }

  datatype Builder = Builder(
    category: Option<string>,
    metadata: seq<Pair>,
    from: Option<Address>,
    replyTo: Option<Address>,
    to: seq<Address>,
    cc: seq<Address>,
    bcc: seq<Address>,
    headers: seq<Pair>,
    subject: Option<string>,
    textBody: Option<string>,
    htmlBody: Option<string>)

  /** `MessageBuilder::new` (and `Message::builder`): nothing set. */
  function NewBuilder(): (b: Builder)
    ensures b.category.None? && b.from.None? && b.replyTo.None? && b.subject.None?
    ensures b.textBody.None? && b.htmlBody.None?
    ensures b.metadata == [] && b.to == [] && b.cc == [] && b.bcc == [] && b.headers == []
  {
    Builder(None, [], None, None, [], [], [], [], None, None, None)
  }

  function Category(b: Builder, c: string): (r: Builder)
    ensures r.category == Some(c) && r.(category := b.category) == b
  {
    b.(category := Some(c))
  }

  function SetCategory(b: Builder, c: Option<string>): (r: Builder)
    ensures r.category == c && r.(category := b.category) == b
  {
    b.(category := c)
  }

  function Metadata(b: Builder, key: string, value: string): (r: Builder)
    ensures |r.metadata| == |b.metadata| + 1
    ensures r.metadata[..|b.metadata|] == b.metadata && r.metadata[|b.metadata|] == (key, value)
    ensures r.(metadata := b.metadata) == b
  {
    b.(metadata := b.metadata + [(key, value)])
  }

  function SetMetadata(b: Builder, pairs: seq<Pair>): (r: Builder)
    ensures r.metadata == pairs && r.(metadata := b.metadata) == b
  {
    b.(metadata := pairs)
  }

  /** `from`. A text argument reaches it through `Addresses.Parse`. */
  function From(b: Builder, a: Address): (r: Builder)
    ensures r.from == Some(a) && r.(from := b.from) == b
  {
    b.(from := Some(a))
  }

  function ReplyTo(b: Builder, a: Address): (r: Builder)
    ensures r.replyTo == Some(a) && r.(replyTo := b.replyTo) == b
  {
    b.(replyTo := Some(a))
  }

  function SetReplyTo(b: Builder, a: Option<Address>): (r: Builder)
    ensures r.replyTo == a && r.(replyTo := b.replyTo) == b
  {
    b.(replyTo := a)
  }

  function To(b: Builder, a: Address): (r: Builder)
    ensures |r.to| == |b.to| + 1 && r.to[..|b.to|] == b.to && r.to[|b.to|] == a
    ensures r.(to := b.to) == b
  {
    b.(to := b.to + [a])
  }

  function SetTo(b: Builder, addresses: seq<Address>): (r: Builder)
    ensures r.to == addresses && r.(to := b.to) == b
  {
    b.(to := addresses)
  }

  function Cc(b: Builder, a: Address): (r: Builder)
    ensures |r.cc| == |b.cc| + 1 && r.cc[..|b.cc|] == b.cc && r.cc[|b.cc|] == a
    ensures r.(cc := b.cc) == b
  {
    b.(cc := b.cc + [a])
  }

  function SetCc(b: Builder, addresses: seq<Address>): (r: Builder)
    ensures r.cc == addresses && r.(cc := b.cc) == b
  {
    b.(cc := addresses)
  }

  function Bcc(b: Builder, a: Address): (r: Builder)
    ensures |r.bcc| == |b.bcc| + 1 && r.bcc[..|b.bcc|] == b.bcc && r.bcc[|b.bcc|] == a
    ensures r.(bcc := b.bcc) == b
  {
    b.(bcc := b.bcc + [a])
  }

  function SetBcc(b: Builder, addresses: seq<Address>): (r: Builder)
    ensures r.bcc == addresses && r.(bcc := b.bcc) == b
  {
    b.(bcc := addresses)
  }

  function Headers(b: Builder, key: string, value: string): (r: Builder)
    ensures |r.headers| == |b.headers| + 1
    ensures r.headers[..|b.headers|] == b.headers && r.headers[|b.headers|] == (key, value)
    ensures r.(headers := b.headers) == b
  {
    b.(headers := b.headers + [(key, value)])
  }

  function SetHeaders(b: Builder, pairs: seq<Pair>): (r: Builder)
    ensures r.headers == pairs && r.(headers := b.headers) == b
  {
    b.(headers := pairs)
  }

  function Subject(b: Builder, s: string): (r: Builder)
    ensures r.subject == Some(s) && r.(subject := b.subject) == b
  {
    b.(subject := Some(s))
  }

  function TextBody(b: Builder, body: string): (r: Builder)
    ensures r.textBody == Some(body) && r.(textBody := b.textBody) == b
  {
    b.(textBody := Some(body))
  }

  function SetTextBody(b: Builder, body: Option<string>): (r: Builder)
    ensures r.textBody == body && r.(textBody := b.textBody) == b
  {
    b.(textBody := body)
  }

  function HtmlBody(b: Builder, body: string): (r: Builder)
    ensures r.htmlBody == Some(body) && r.(htmlBody := b.htmlBody) == b
  {
    b.(htmlBody := Some(body))
  }

  function SetHtmlBody(b: Builder, body: Option<string>): (r: Builder)
    ensures r.htmlBody == body && r.(htmlBody := b.htmlBody) == b
  {
    b.(htmlBody := body)
  }

  /** The four conditions `build` checks, all of them. */
  predicate Complete(b: Builder) {
    b.from.Some? && |b.to| > 0 && b.subject.Some? && (b.textBody.Some? || b.htmlBody.Some?)
  }

  /** The builder that holds exactly a message's fields. */
  function Contents(m: Message): Builder
  {
    Builder(m.category, m.metadata, Some(m.from), m.replyTo, m.to, m.cc, m.bcc,
            m.headers, Some(m.subject), m.textBody, m.htmlBody)
  }

  /** `MessageBuilder::build`: the first unmet condition, in the order from,
      to, subject, body; otherwise the message holding every field as set. */
  function Build(b: Builder): (r: Result<Message, BuilderError>)
    ensures r.Ok? <==> Complete(b)
    ensures r == Err(MissingFrom) <==> b.from.None?
    ensures r == Err(MissingTo) <==> b.from.Some? && |b.to| == 0
    ensures r == Err(MissingSubject) <==> b.from.Some? && |b.to| > 0 && b.subject.None?
    ensures r == Err(MissingBody) <==>
      b.from.Some? && |b.to| > 0 && b.subject.Some? && b.textBody.None? && b.htmlBody.None?
    ensures r.Ok? ==> Valid(r.value) && Contents(r.value) == b
  {
    if b.from.None? then Err(MissingFrom)
    else if |b.to| == 0 then Err(MissingTo)
    else if b.subject.None? then Err(MissingSubject)
    else if b.textBody.None? && b.htmlBody.None? then Err(MissingBody)
    else Ok(Message(b.category, b.metadata, b.from.value, b.replyTo, b.to, b.cc, b.bcc,
                    b.headers, b.subject.value, b.textBody, b.htmlBody))
  }

  /** Every valid message is what `build` makes of its own fields, so
      building loses and invents nothing. */
  lemma BuildContents(m: Message)
    requires Valid(m)
    ensures Build(Contents(m)) == Ok(m)
  {
  }

  /** An empty builder reports the sender first. */
  lemma BuildEmpty()
    ensures Build(NewBuilder()) == Err(MissingFrom)
  {
  }

  /** A bulk setter replaces what the appending setter collected. */
  lemma SetToReplaces(b: Builder, a: Address, x: Address, y: Address)
    ensures SetTo(To(b, a), [x, y]).to == [x, y]
  {
  }

  /** Appending setters keep call order. */
  lemma AppendKeepsOrder(b: Builder, x: Address, y: Address)
    ensures To(To(b, x), y).to == b.to + [x, y]
  {
  }

  /** For single-valued fields the last write wins. */
  lemma LastWriteWins(b: Builder, s1: string, s2: string, t1: string, t2: string)
    ensures Subject(Subject(b, s1), s2) == Subject(b, s2)
    ensures TextBody(TextBody(b, t1), t2) == TextBody(b, t2)
    ensures SetTextBody(TextBody(b, t1), None).textBody.None?
  {
  }

  /** Clearing the only body turns a successful build into `MissingBody`. */
  lemma ClearingBodyFails(b: Builder)
    requires Build(b).Ok? && b.htmlBody.None?
    ensures Build(SetTextBody(b, None)) == Err(MissingBody)
  {
  }

  /** The builder test: sender, one recipient, subject and text body, the
      addresses given as text. */
  lemma BuilderExample()
    ensures var r := Build(TextBody(Subject(To(From(NewBuilder(), Parse("sender@example.com")),
                           Parse("recipient@example.com")), "Test Email"), "This is a test email."));
      && r.Ok?
      && r.value.from.email == "sender@example.com"
      && |r.value.to| == 1
      && r.value.to[0].email == "recipient@example.com"
      && r.value.subject == "Test Email"
      && r.value.textBody == Some("This is a test email.")
  {
    var s1, s2 := "sender@example.com", "recipient@example.com";
    assert s1[|s1| - 1..] != ">" by {
      assert s1[|s1| - 1..][0] == 'm';
    }
    assert s2[|s2| - 1..] != ">" by {
      assert s2[|s2| - 1..][0] == 'm';
    }
  }

  /** The message the providers' tests build: a named sender, a named
      recipient, a bare cc address, a subject and a text body. */
  function SampleMessage(): Message
  {
    Message(None, [], WithName("Sender", "sender@example.com"), None,
            [WithName("Recipient", "recipient@example.com")], [New("cc@example.com")], [], [],
            "Test Email", Some("This is a test email."), None)
  }

  /** The builder chain of those tests yields that message. */
  lemma SampleBuilds()
    ensures Build(TextBody(Subject(Cc(To(From(NewBuilder(),
              WithName("Sender", "sender@example.com")),
              WithName("Recipient", "recipient@example.com")),
              New("cc@example.com")), "Test Email"), "This is a test email."))
         == Ok(SampleMessage())
  {
  }
}
