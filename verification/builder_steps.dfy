/** A chain of `MessageBuilder` calls, `MessageBuilder::new().from(..).to(..)...`,
    as a sequence of steps applied left to right, with an independent
    description of what the chain leaves in each field that `build` checks. */
module BuilderSteps {
  import opened Wrappers
  import opened Addresses
  import M = Messages

  /** One setter call with its argument. */
  datatype Step =
    | Category(category: string)
    | SetCategory(maybeCategory: Option<string>)
    | Metadata(key: string, value: string)
    | SetMetadata(pairs: seq<M.Pair>)
    | From(address: Address)
    | ReplyTo(address: Address)
    | SetReplyTo(maybeAddress: Option<Address>)
    | To(address: Address)
    | SetTo(addresses: seq<Address>)
    | Cc(address: Address)
    | SetCc(addresses: seq<Address>)
    | Bcc(address: Address)
    | SetBcc(addresses: seq<Address>)
    | Headers(key: string, value: string)
    | SetHeaders(pairs: seq<M.Pair>)
    | Subject(subject: string)
    | TextBody(body: string)
    | SetTextBody(maybeBody: Option<string>)
    | HtmlBody(body: string)
    | SetHtmlBody(maybeBody: Option<string>)

  function Apply(b: M.Builder, s: Step): M.Builder
  {
    match s
    case Category(c) => M.Category(b, c)
    case SetCategory(c) => M.SetCategory(b, c)
    case Metadata(k, v) => M.Metadata(b, k, v)
    case SetMetadata(ps) => M.SetMetadata(b, ps)
    case From(a) => M.From(b, a)
    case ReplyTo(a) => M.ReplyTo(b, a)
    case SetReplyTo(a) => M.SetReplyTo(b, a)
    case To(a) => M.To(b, a)
    case SetTo(as') => M.SetTo(b, as')
    case Cc(a) => M.Cc(b, a)
    case SetCc(as') => M.SetCc(b, as')
    case Bcc(a) => M.Bcc(b, a)
    case SetBcc(as') => M.SetBcc(b, as')
    case Headers(k, v) => M.Headers(b, k, v)
    case SetHeaders(ps) => M.SetHeaders(b, ps)
    case Subject(t) => M.Subject(b, t)
    case TextBody(t) => M.TextBody(b, t)
    case SetTextBody(t) => M.SetTextBody(b, t)
    case HtmlBody(t) => M.HtmlBody(b, t)
    case SetHtmlBody(t) => M.SetHtmlBody(b, t)
  }

  /** The chain `b.s0(..).s1(..)...`: every call succeeds. */
  function Run(b: M.Builder, steps: seq<Step>): M.Builder
    decreases |steps|
  {
    if |steps| == 0 then b else Run(Apply(b, steps[0]), steps[1..])
  }

  lemma {:induction false} RunSnoc(b: M.Builder, steps: seq<Step>, s: Step)
    ensures Run(b, steps + [s]) == Apply(Run(b, steps), s)
    decreases |steps|
  {
    if |steps| == 0 {
      assert steps + [s] == [s];
    } else {
      assert (steps + [s])[1..] == steps[1..] + [s];
      RunSnoc(Apply(b, steps[0]), steps[1..], s);
    }
  }

  /** The fields `build` checks. */
  datatype Checked = RecipientList | Sender | SubjectLine | Text | Html

  /** Whether a call decides field `f` outright, whatever came before. */
  predicate Decides(f: Checked, s: Step) {
    match f
    case RecipientList => s.SetTo?
    case Sender => s.From?
    case SubjectLine => s.Subject?
    case Text => s.TextBody? || s.SetTextBody?
    case Html => s.HtmlBody? || s.SetHtmlBody?
  }

  /** The index of the last step satisfying `p`, or -1. */
  function LastWhere(steps: seq<Step>, f: Checked): (k: int)
    ensures -1 <= k < |steps|
    ensures k >= 0 ==> Decides(f, steps[k])
    ensures forall j :: k < j < |steps| ==> !Decides(f, steps[j])
  {
    if |steps| == 0 then -1
    else if Decides(f, steps[|steps| - 1]) then |steps| - 1
    else LastWhere(steps[..|steps| - 1], f)
  }

  /** The addresses the `to` calls from index `i` on append, in call order. */
  function AppendedFrom(steps: seq<Step>, i: nat): seq<Address>
    requires i <= |steps|
    decreases |steps| - i
  {
    if i == |steps| then []
    else (if steps[i].To? then [steps[i].address] else []) + AppendedFrom(steps, i + 1)
  }

  lemma {:induction false} AppendedFromSnoc(steps: seq<Step>, s: Step, i: nat)
    requires i <= |steps|
    ensures AppendedFrom(steps + [s], i) == AppendedFrom(steps, i) + (if s.To? then [s.address] else [])
    decreases |steps| - i
  {
    if i < |steps| {
      AppendedFromSnoc(steps, s, i + 1);
      assert (steps + [s])[i] == steps[i];
    }
  }

  /** The recipients a chain leaves: the list of the last `set_to` (or what
      the builder held, if there was none) followed by every address a later
      `to` call appended. */
  function Recipients(b: M.Builder, steps: seq<Step>): seq<Address>
  {
    var k := LastWhere(steps, RecipientList);
    (if k < 0 then b.to else steps[k].addresses) + AppendedFrom(steps, k + 1)
  }

  /** The sender a chain leaves: the argument of its last `from` call. */
  function SenderOf(b: M.Builder, steps: seq<Step>): Option<Address>
  {
    var k := LastWhere(steps, Sender);
    if k < 0 then b.from else Some(steps[k].address)
  }

  /** The subject a chain leaves: the argument of its last `subject` call. */
  function SubjectOf(b: M.Builder, steps: seq<Step>): Option<string>
  {
    var k := LastWhere(steps, SubjectLine);
    if k < 0 then b.subject else Some(steps[k].subject)
  }

  /** The text body a chain leaves: decided by its last `text_body` or
      `set_text_body` call. */
  function TextOf(b: M.Builder, steps: seq<Step>): Option<string>
  {
    var k := LastWhere(steps, Text);
    if k < 0 then b.textBody
    else if steps[k].TextBody? then Some(steps[k].body)
    else steps[k].maybeBody
  }

  /** The HTML body a chain leaves: decided by its last `html_body` or
      `set_html_body` call. */
  function HtmlOf(b: M.Builder, steps: seq<Step>): Option<string>
  {
    var k := LastWhere(steps, Html);
    if k < 0 then b.htmlBody
    else if steps[k].HtmlBody? then Some(steps[k].body)
    else steps[k].maybeBody
  }

  lemma LastWhereSnoc(steps: seq<Step>, s: Step, f: Checked)
    ensures LastWhere(steps + [s], f) == if Decides(f, s) then |steps| else LastWhere(steps, f)
  {
    assert (steps + [s])[..|steps|] == steps;
  }

  /** What one call does to the fields `build` checks. */
  lemma ApplyChecked(b: M.Builder, s: Step)
    ensures Apply(b, s).to ==
      if s.SetTo? then s.addresses else b.to + (if s.To? then [s.address] else [])
    ensures Apply(b, s).from == if s.From? then Some(s.address) else b.from
    ensures Apply(b, s).subject == if s.Subject? then Some(s.subject) else b.subject
    ensures Apply(b, s).textBody ==
      if s.TextBody? then Some(s.body) else if s.SetTextBody? then s.maybeBody else b.textBody
    ensures Apply(b, s).htmlBody ==
      if s.HtmlBody? then Some(s.body) else if s.SetHtmlBody? then s.maybeBody else b.htmlBody
  {
    match s
    case To(a) =>
    case SetTo(as') =>
    case _ =>
      assert b.to + [] == b.to;
  }

  lemma RecipientsSnoc(b: M.Builder, init: seq<Step>, s: Step)
    ensures Recipients(b, init + [s]) ==
      if s.SetTo? then s.addresses else Recipients(b, init) + (if s.To? then [s.address] else [])
  {
    LastWhereSnoc(init, s, RecipientList);
    var k := LastWhere(init, RecipientList);
    if !s.SetTo? {
      AppendedFromSnoc(init, s, k + 1);
    }
  }

  /** The recipients after a chain are the reference description's. */
  lemma {:induction false} RunRecipients(b: M.Builder, steps: seq<Step>)
    ensures Run(b, steps).to == Recipients(b, steps)
    decreases |steps|
  {
    if |steps| > 0 {
      var init, s := steps[..|steps| - 1], steps[|steps| - 1];
      assert steps == init + [s];
      RunRecipients(b, init);
      RunSnoc(b, init, s);
      ApplyChecked(Run(b, init), s);
      RecipientsSnoc(b, init, s);
    }
  }

  /** Sender, subject and bodies after a chain are the reference
      description's. */
  lemma {:induction false} RunScalars(b: M.Builder, steps: seq<Step>)
    ensures Run(b, steps).from == SenderOf(b, steps)
    ensures Run(b, steps).subject == SubjectOf(b, steps)
    ensures Run(b, steps).textBody == TextOf(b, steps)
    ensures Run(b, steps).htmlBody == HtmlOf(b, steps)
    decreases |steps|
  {
    if |steps| > 0 {
      var init, s := steps[..|steps| - 1], steps[|steps| - 1];
      assert steps == init + [s];
      RunScalars(b, init);
      RunSnoc(b, init, s);
      ApplyChecked(Run(b, init), s);
      LastWhereSnoc(init, s, Sender);
      LastWhereSnoc(init, s, SubjectLine);
      LastWhereSnoc(init, s, Text);
      LastWhereSnoc(init, s, Html);
    }
  }

  /** A chain started from `MessageBuilder::new` builds exactly when it
      called `from` and `subject`, leaves a recipient, and leaves a body. */
  lemma BuildChain(steps: seq<Step>)
    ensures M.Build(Run(M.NewBuilder(), steps)).Ok? <==>
      && (exists i :: 0 <= i < |steps| && steps[i].From?)
      && |Recipients(M.NewBuilder(), steps)| > 0
      && (exists i :: 0 <= i < |steps| && steps[i].Subject?)
      && (TextOf(M.NewBuilder(), steps).Some? || HtmlOf(M.NewBuilder(), steps).Some?)
  {
    var b := M.NewBuilder();
    RunRecipients(b, steps);
    RunScalars(b, steps);
    var kf := LastWhere(steps, Sender);
    var ks := LastWhere(steps, SubjectLine);
    assert (exists i :: 0 <= i < |steps| && steps[i].From?) <==> kf >= 0;
    assert (exists i :: 0 <= i < |steps| && steps[i].Subject?) <==> ks >= 0;
  }

  /** Only `from`, the recipient list, `subject` and the bodies influence
      `build`: any other call leaves its outcome's success or error kind
      as it was. */
  lemma OtherStepsKeepOutcome(b: M.Builder, s: Step)
    requires !(s.From? || s.To? || s.SetTo? || s.Subject?)
    requires !(s.TextBody? || s.SetTextBody? || s.HtmlBody? || s.SetHtmlBody?)
    ensures M.Build(Apply(b, s)).Ok? == M.Build(b).Ok?
    ensures M.Build(b).Err? ==> M.Build(Apply(b, s)) == M.Build(b)
  {
  }
}
