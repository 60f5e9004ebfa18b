/** The Mailtrap `api/send` request body that `MailtrapMailer` builds from a
    message, and how it reads the response of a send. */
module Mailtrap {
  import opened Wrappers
  import opened Addresses
  import opened Messages
  import opened JsonValues
  import opened Mailer

  /** `build_request`: sender, recipients and subject always; the optional
      fields are described by the lemmas that follow. */
  function BuildRequest(m: Message): (j: Json)
    ensures j.Object?
    ensures "from" in j.fields && j.fields["from"] == AddressObject(m.from)
    ensures "to" in j.fields && j.fields["to"] == AddressArray(m.to)
    ensures "subject" in j.fields && j.fields["subject"] == String(m.subject)
  {
    var req := map[
      "from" := AddressObject(m.from),
      "to" := AddressArray(m.to),
      "subject" := String(m.subject)];
    var req := if |m.cc| > 0 then req["cc" := AddressArray(m.cc)] else req;
    var req := if |m.bcc| > 0 then req["bcc" := AddressArray(m.bcc)] else req;
    var req := if m.replyTo.Some? then req["reply_to" := AddressObject(m.replyTo.value)] else req;
    var req := if m.textBody.Some? then req["text" := String(m.textBody.value)] else req;
    var req := if m.htmlBody.Some? then req["html" := String(m.htmlBody.value)] else req;
    Object(req)
  }

  /** The copy lists are sent only when non-empty. */
  lemma RequestCopies(m: Message)
    ensures var f := BuildRequest(m).fields;
      && ("cc" in f <==> |m.cc| > 0)
      && (|m.cc| > 0 ==> f["cc"] == AddressArray(m.cc))
      && ("bcc" in f <==> |m.bcc| > 0)
      && (|m.bcc| > 0 ==> f["bcc"] == AddressArray(m.bcc))
  {
  }

  /** The reply-to address is sent only when set. */
  lemma RequestReplyTo(m: Message)
    ensures var f := BuildRequest(m).fields;
      && ("reply_to" in f <==> m.replyTo.Some?)
      && (m.replyTo.Some? ==> f["reply_to"] == AddressObject(m.replyTo.value))
  {
  }

  /** Each body is sent only when present. */
  lemma RequestBodies(m: Message)
    ensures var f := BuildRequest(m).fields;
      && ("text" in f <==> m.textBody.Some?)
      && (m.textBody.Some? ==> f["text"] == String(m.textBody.value))
      && ("html" in f <==> m.htmlBody.Some?)
      && (m.htmlBody.Some? ==> f["html"] == String(m.htmlBody.value))
  {
  }

  /** No other field is ever sent. */
  lemma RequestKeys(m: Message)
    ensures BuildRequest(m).fields.Keys <= {"from", "to", "subject", "cc", "bcc", "reply_to", "text", "html"}
  {
  }

  /** The message's envelope and content can be read back from the request:
      nothing `build_request` sends is lost. */
  lemma RequestKeepsMessage(m: Message)
    ensures var f := BuildRequest(m).fields;
      && ReadAddress(f["from"]) == Some(m.from)
      && ReadAddressList(f["to"]) == Some(m.to)
      && (if "cc" in f then ReadAddressList(f["cc"]) == Some(m.cc) else m.cc == [])
      && (if "bcc" in f then ReadAddressList(f["bcc"]) == Some(m.bcc) else m.bcc == [])
      && (if "reply_to" in f then ReadAddress(f["reply_to"]) == m.replyTo else m.replyTo == None)
      && (if "text" in f then ReadString(f["text"]) == m.textBody else m.textBody == None)
      && (if "html" in f then ReadString(f["html"]) == m.htmlBody else m.htmlBody == None)
  {
    RequestCopies(m);
    RequestReplyTo(m);
    RequestBodies(m);
    ReadAddressObject(m.from);
    ReadAddressArray(m.to);
    ReadAddressArray(m.cc);
    ReadAddressArray(m.bcc);
    if m.replyTo.Some? {
      ReadAddressObject(m.replyTo.value);
    }
  }

  /** `flat_map(as_str)` over the `message_ids` array: the string elements,
      in order; anything else is skipped. */
  function StringsIn(items: seq<Json>): (ids: seq<string>)
    ensures |ids| <= |items|
  {
    if |items| == 0 then []
    else (if items[0].String? then [items[0].s] else []) + StringsIn(items[1..])
  }

  /** Collecting distributes over concatenation. */
  lemma {:induction false} StringsInAppend(a: seq<Json>, b: seq<Json>)
    ensures StringsIn(a + b) == StringsIn(a) + StringsIn(b)
  {
    if |a| > 0 {
      var head := if a[0].String? then [a[0].s] else [];
      assert (a + b)[0] == a[0];
      assert (a + b)[1..] == a[1..] + b;
      StringsInAppend(a[1..], b);
      assert StringsIn(a + b) == head + StringsIn(a[1..] + b);
      assert StringsIn(a) == head + StringsIn(a[1..]);
      assert head + (StringsIn(a[1..]) + StringsIn(b)) == (head + StringsIn(a[1..])) + StringsIn(b);
    } else {
      assert a + b == b;
    }
  }

  /** An id is collected exactly when the array holds it as a string. */
  lemma {:induction false} StringsInMembers(items: seq<Json>, id: string)
    ensures id in StringsIn(items) <==> String(id) in items
  {
    if |items| > 0 {
      StringsInMembers(items[1..], id);
      assert items == [items[0]] + items[1..];
    }
  }

  /** An array of strings only is collected whole. */
  lemma {:induction false} StringsInAllStrings(items: seq<Json>)
    requires forall i :: 0 <= i < |items| ==> items[i].String?
    ensures |StringsIn(items)| == |items|
    ensures forall i :: 0 <= i < |items| ==> StringsIn(items)[i] == items[i].s
  {
    if |items| > 0 {
      StringsInAllStrings(items[1..]);
    }
  }

  /** A response document the mailer accepts: an object whose `success` is
      `true` and whose `message_ids` is an array. */
  predicate Accepted(doc: Json) {
    && Get(doc, "success") == Some(Bool(true))
    && Get(doc, "message_ids").Some?
    && Get(doc, "message_ids").value.Array?
  }

  /** How `send` turns a response into its result. `status` is the response
      status; `body` its text, or the reason reading it failed; `parsed` the
      text parsed as JSON, `None` when it is not JSON. */
  function Classify(status: u16, body: Result<string, string>, parsed: Option<Json>)
    : (r: Result<seq<string>, MailerError>)
    ensures body.Err? ==> r == Err(UnexpectedError(body.error))
    ensures body.Ok? && !IsSuccess(status) ==> r == Err(UnexpectedResponse(status, body.value))
    ensures r.Ok? <==> body.Ok? && IsSuccess(status) && parsed.Some? && Accepted(parsed.value)
    ensures r.Ok? ==> r.value == StringsIn(parsed.value.fields["message_ids"].items)
    ensures body.Ok? && r.Err? ==> r == Err(UnexpectedResponse(status, body.value))
  {
    match body
    case Err(cause) => Err(UnexpectedError(cause))
    case Ok(text) =>
      if !IsSuccess(status) then Err(UnexpectedResponse(status, text))
      else if parsed.Some? && Accepted(parsed.value) then
        Ok(StringsIn(parsed.value.fields["message_ids"].items))
      else Err(UnexpectedResponse(status, text))
  }

  /** A successful send reports exactly the string ids of the response, in
      the response's order. */
  lemma ClassifyIds(status: u16, text: string, doc: Json, id: string)
    requires IsSuccess(status) && Accepted(doc)
    ensures Classify(status, Ok(text), Some(doc)).Ok?
    ensures id in Classify(status, Ok(text), Some(doc)).value <==>
            String(id) in doc.fields["message_ids"].items
  {
    StringsInMembers(doc.fields["message_ids"].items, id);
  }

  /** A `success: false` answer is an unexpected response, whatever ids it
      carries. */
  lemma ClassifyRejected(status: u16, text: string, doc: Json)
    requires doc.Object? && "success" in doc.fields && doc.fields["success"] == Bool(false)
    ensures Classify(status, Ok(text), Some(doc)) == Err(UnexpectedResponse(status, text))
  {
  }

  /** The request of the crate's Mailtrap test. */
  lemma SampleRequest()
    ensures BuildRequest(SampleMessage()) == Object(map[
      "from" := Object(map["name" := String("Sender"), "email" := String("sender@example.com")]),
      "to" := Array([Object(map["name" := String("Recipient"), "email" := String("recipient@example.com")])]),
      "cc" := Array([Object(map["email" := String("cc@example.com")])]),
      "subject" := String("Test Email"),
      "text" := String("This is a test email.")])
  {
    var m := SampleMessage();
    var sender := Object(map["name" := String("Sender"), "email" := String("sender@example.com")]);
    var recipient := Object(map["name" := String("Recipient"), "email" := String("recipient@example.com")]);
    var cc := Object(map["email" := String("cc@example.com")]);
    assert AddressObject(m.from) == sender;
    assert AddressObject(m.to[0]) == recipient;
    assert AddressArray(m.to) == Array([recipient]);
    assert AddressArray(m.cc) == Array([cc]);
  }
}
