/** The SendGrid v3 `mail/send` request body that `SendgridMailer` builds
    from a message. */
module Sendgrid {
  import opened Wrappers
  import opened Addresses
  import opened Messages
  import opened JsonValues

  /** `build_personalization`: `to` always, `cc` and `bcc` only when
      non-empty. */
  function BuildPersonalization(m: Message): (j: Json)
    ensures j.Object?
    ensures "to" in j.fields && j.fields["to"] == AddressArray(m.to)
    ensures "cc" in j.fields <==> |m.cc| > 0
    ensures |m.cc| > 0 ==> j.fields["cc"] == AddressArray(m.cc)
    ensures "bcc" in j.fields <==> |m.bcc| > 0
    ensures |m.bcc| > 0 ==> j.fields["bcc"] == AddressArray(m.bcc)
    ensures j.fields.Keys <= {"to", "cc", "bcc"}
  {
    var p := map["to" := AddressArray(m.to)];
    var p := if |m.cc| > 0 then p["cc" := AddressArray(m.cc)] else p;
    var p := if |m.bcc| > 0 then p["bcc" := AddressArray(m.bcc)] else p;
    Object(p)
  }

  function ContentEntry(mime: string, body: string): Json
  {
    Object(map["type" := String(mime), "value" := String(body)])
  }

  /** `build_content`: the `text/plain` entry, then the `text/html` entry,
      each only when that body is present. */
  function BuildContent(m: Message): (c: seq<Json>)
    ensures |c| == (if m.textBody.Some? then 1 else 0) + (if m.htmlBody.Some? then 1 else 0)
    ensures m.textBody.Some? ==> c[0] == ContentEntry("text/plain", m.textBody.value)
    ensures m.htmlBody.Some? ==> c[|c| - 1] == ContentEntry("text/html", m.htmlBody.value)
    ensures Valid(m) ==> 1 <= |c| <= 2
  {
    (if m.textBody.Some? then [ContentEntry("text/plain", m.textBody.value)] else [])
    + (if m.htmlBody.Some? then [ContentEntry("text/html", m.htmlBody.value)] else [])
  }

  /** The keys of a list of pairs. */
  function KeysOf(pairs: seq<Pair>): set<string>
  {
    set i | 0 <= i < |pairs| :: pairs[i].0
  }

  /** The value of the last pair with key `k`: the one an object built
      from the pairs keeps. */
  function LastValue(pairs: seq<Pair>, k: string): string
    requires k in KeysOf(pairs)
  {
    var last := pairs[|pairs| - 1];
    if last.0 == k then last.1
    else
      assert k in KeysOf(pairs[..|pairs| - 1]) by {
        var i :| 0 <= i < |pairs| && pairs[i].0 == k;
        assert pairs[..|pairs| - 1][i] == pairs[i];
      }
      LastValue(pairs[..|pairs| - 1], k)
  }

  /** `serde_json::Map::from_iter` over the pairs: inserted in order, so a
      later pair overwrites an earlier one with the same key. */
  function PairsObject(pairs: seq<Pair>): (o: map<string, Json>)
    ensures o.Keys == KeysOf(pairs)
    ensures forall k :: k in o ==> o[k] == String(LastValue(pairs, k))
  {
    InsertAllLast(map[], pairs);
    InsertAll(map[], pairs)
  }

  /** Inserts the pairs into `acc` one after another. */
  function InsertAll(acc: map<string, Json>, pairs: seq<Pair>): map<string, Json>
    decreases |pairs|
  {
    if |pairs| == 0 then acc
    else InsertAll(acc[pairs[0].0 := String(pairs[0].1)], pairs[1..])
  }

  /** Inserting pair by pair keeps, for each key, the last value inserted. */
  lemma {:induction false} InsertAllLast(acc: map<string, Json>, pairs: seq<Pair>)
    ensures InsertAll(acc, pairs).Keys == acc.Keys + KeysOf(pairs)
    ensures forall k :: k in KeysOf(pairs) ==> InsertAll(acc, pairs)[k] == String(LastValue(pairs, k))
    ensures forall k :: k in acc && k !in KeysOf(pairs) ==> InsertAll(acc, pairs)[k] == acc[k]
    decreases |pairs|
  {
    if |pairs| > 0 {
      var k0, v0 := pairs[0].0, pairs[0].1;
      var acc' := acc[k0 := String(v0)];
      InsertAllLast(acc', pairs[1..]);
      KeysOfCons(pairs);
      forall k | k in KeysOf(pairs)
        ensures InsertAll(acc, pairs)[k] == String(LastValue(pairs, k))
      {
        LastValueCons(pairs, k);
      }
    }
  }

  lemma KeysOfCons(pairs: seq<Pair>)
    requires |pairs| > 0
    ensures KeysOf(pairs) == {pairs[0].0} + KeysOf(pairs[1..])
  {
    forall k | k in KeysOf(pairs)
      ensures k in {pairs[0].0} + KeysOf(pairs[1..])
    {
      var i :| 0 <= i < |pairs| && pairs[i].0 == k;
      if i > 0 {
        assert pairs[1..][i - 1] == pairs[i];
      }
    }
    forall k | k in KeysOf(pairs[1..])
      ensures k in KeysOf(pairs)
    {
      var i :| 0 <= i < |pairs[1..]| && pairs[1..][i].0 == k;
      assert pairs[i + 1] == pairs[1..][i];
    }
  }

  lemma KeysOfSnoc(pairs: seq<Pair>)
    requires |pairs| > 0
    ensures KeysOf(pairs) == KeysOf(pairs[..|pairs| - 1]) + {pairs[|pairs| - 1].0}
  {
    var init := pairs[..|pairs| - 1];
    forall k | k in KeysOf(pairs)
      ensures k in KeysOf(init) + {pairs[|pairs| - 1].0}
    {
      var i :| 0 <= i < |pairs| && pairs[i].0 == k;
      if i < |pairs| - 1 {
        assert init[i] == pairs[i];
      }
    }
    forall k | k in KeysOf(init)
      ensures k in KeysOf(pairs)
    {
      var i :| 0 <= i < |init| && init[i].0 == k;
      assert pairs[i] == init[i];
    }
  }

  /** The last value for a key, seen from the front: the rest decides, unless
      the key occurs only in the first pair. */
  lemma {:induction false} LastValueCons(pairs: seq<Pair>, k: string)
    requires |pairs| > 0 && k in KeysOf(pairs)
    ensures k in KeysOf(pairs[1..]) ==> LastValue(pairs, k) == LastValue(pairs[1..], k)
    ensures k !in KeysOf(pairs[1..]) ==> LastValue(pairs, k) == pairs[0].1
    decreases |pairs|
  {
    var n := |pairs|;
    var tail := pairs[1..];
    if n == 1 {
      assert tail == [];
    } else {
      var last, init := pairs[n - 1], pairs[..n - 1];
      KeysOfSnoc(tail);
      assert tail[..|tail| - 1] == init[1..];
      assert tail[|tail| - 1] == last;
      if last.0 != k {
        KeysOfSnoc(pairs);
        LastValueCons(init, k);
        assert init[0] == pairs[0];
      }
    }
  }

  /** `build_request`: sender, the single personalization, subject and
      content always; the optional fields are described by the lemmas that
      follow. */
  function BuildRequest(m: Message): (j: Json)
    ensures j.Object?
    ensures "from" in j.fields && j.fields["from"] == AddressObject(m.from)
    ensures "personalizations" in j.fields && j.fields["personalizations"] == Array([BuildPersonalization(m)])
    ensures "subject" in j.fields && j.fields["subject"] == String(m.subject)
    ensures "content" in j.fields && j.fields["content"] == Array(BuildContent(m))
  {
    var req := map[
      "from" := AddressObject(m.from),
      "personalizations" := Array([BuildPersonalization(m)]),
      "subject" := String(m.subject),
      "content" := Array(BuildContent(m))];
    var req := if m.replyTo.Some? then req["reply_to" := AddressObject(m.replyTo.value)] else req;
    var req := if |m.headers| > 0 then req["headers" := Object(PairsObject(m.headers))] else req;
    var req := if m.category.Some? then req["categories" := Array([String(m.category.value)])] else req;
    var req := if |m.metadata| > 0 then req["custom_args" := Object(PairsObject(m.metadata))] else req;
    Object(req)
  }

  /** The reply-to address is sent only when set. */
  lemma RequestReplyTo(m: Message)
    ensures var f := BuildRequest(m).fields;
      && ("reply_to" in f <==> m.replyTo.Some?)
      && (m.replyTo.Some? ==> f["reply_to"] == AddressObject(m.replyTo.value))
  {
  }

  /** Custom headers are sent only when there are some, as one object in
      which a later header overrides an earlier one with the same name. */
  lemma RequestHeaders(m: Message)
    ensures var f := BuildRequest(m).fields;
      && ("headers" in f <==> |m.headers| > 0)
      && (|m.headers| > 0 ==> f["headers"] == Object(PairsObject(m.headers)))
  {
  }

  /** The category is sent as a one-element `categories` list, only when
      set. */
  lemma RequestCategories(m: Message)
    ensures var f := BuildRequest(m).fields;
      && ("categories" in f <==> m.category.Some?)
      && (m.category.Some? ==> f["categories"] == Array([String(m.category.value)]))
  {
  }

  /** Metadata is sent as `custom_args` only when there is some, with the
      same last-wins rule as headers. */
  lemma RequestCustomArgs(m: Message)
    ensures var f := BuildRequest(m).fields;
      && ("custom_args" in f <==> |m.metadata| > 0)
      && (|m.metadata| > 0 ==> f["custom_args"] == Object(PairsObject(m.metadata)))
  {
  }

  /** No other field is ever sent. */
  lemma RequestKeys(m: Message)
    ensures BuildRequest(m).fields.Keys <= {"from", "personalizations", "subject", "content", "reply_to",
                                            "headers", "categories", "custom_args"}
  {
  }

  /** The body of the first content entry of the given MIME type. */
  function ReadBody(content: seq<Json>, mime: string): Option<string>
  {
    if |content| == 0 then None
    else
      match (Get(content[0], "type"), Get(content[0], "value"))
      case (Some(String(t)), Some(String(v))) =>
        if t == mime then Some(v) else ReadBody(content[1..], mime)
      case _ => ReadBody(content[1..], mime)
  }

  /** Both bodies can be read back from the content list. */
  lemma ContentKeepsBodies(m: Message)
    ensures ReadBody(BuildContent(m), "text/plain") == m.textBody
    ensures ReadBody(BuildContent(m), "text/html") == m.htmlBody
  {
    var c := BuildContent(m);
    if m.textBody.Some? && m.htmlBody.Some? {
      assert c[1..] == [ContentEntry("text/html", m.htmlBody.value)];
      assert c[1..][1..] == [];
    } else if |c| == 1 {
      assert c[1..] == [];
    }
  }

  /** The message's envelope and content can be read back from the request:
      nothing `build_request` sends is lost. */
  lemma RequestKeepsMessage(m: Message)
    ensures var f := BuildRequest(m).fields;
      var p := f["personalizations"].items[0].fields;
      var content := f["content"].items;
      && ReadAddress(f["from"]) == Some(m.from)
      && ReadString(f["subject"]) == Some(m.subject)
      && ReadAddressList(p["to"]) == Some(m.to)
      && (if "cc" in p then ReadAddressList(p["cc"]) == Some(m.cc) else m.cc == [])
      && (if "bcc" in p then ReadAddressList(p["bcc"]) == Some(m.bcc) else m.bcc == [])
      && (if "reply_to" in f then ReadAddress(f["reply_to"]) == m.replyTo else m.replyTo == None)
      && ReadBody(content, "text/plain") == m.textBody
      && ReadBody(content, "text/html") == m.htmlBody
  {
    RequestReplyTo(m);
    ReadAddressObject(m.from);
    ReadAddressArray(m.to);
    ReadAddressArray(m.cc);
    ReadAddressArray(m.bcc);
    if m.replyTo.Some? {
      ReadAddressObject(m.replyTo.value);
    }
    ContentKeepsBodies(m);
  }

  /** The request of the crate's SendGrid test. */
  lemma SampleRequest()
    ensures BuildRequest(SampleMessage()) == Object(map[
      "from" := Object(map["name" := String("Sender"), "email" := String("sender@example.com")]),
      "personalizations" := Array([Object(map[
        "to" := Array([Object(map["name" := String("Recipient"), "email" := String("recipient@example.com")])]),
        "cc" := Array([Object(map["email" := String("cc@example.com")])])])]),
      "subject" := String("Test Email"),
      "content" := Array([Object(map["type" := String("text/plain"), "value" := String("This is a test email.")])])])
  {
    var m := SampleMessage();
    var sender := Object(map["name" := String("Sender"), "email" := String("sender@example.com")]);
    var recipient := Object(map["name" := String("Recipient"), "email" := String("recipient@example.com")]);
    var cc := Object(map["email" := String("cc@example.com")]);
    var text := Object(map["type" := String("text/plain"), "value" := String("This is a test email.")]);
    assert AddressObject(m.from) == sender;
    assert AddressObject(m.to[0]) == recipient;
    assert AddressArray(m.to) == Array([recipient]);
    assert AddressArray(m.cc) == Array([cc]);
    assert BuildPersonalization(m) == Object(map["to" := Array([recipient]), "cc" := Array([cc])]);
    assert BuildContent(m) == [text];
  }
}
