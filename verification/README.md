# gen_mailer: a Dafny model of the message layer and its renderers

This project models the value layer of the `gen_mailer` Rust crate together with the pure functions that turn a `Message` into text or JSON:

- `Address`: an email address with an optional display name. The model covers its constructors, its `Display` form `name <email>` and the `From<&str>` parser that splits `Name <email>` text.
- `MessageBuilder` and `Message`: a consuming builder. Its setters overwrite, append or replace, and `build` checks the required fields in a fixed order. `BuilderSteps` describes a whole chain of setter calls independently and proves the builder agrees with that description.
- `encode_mime_b`: the RFC 2047 encoded-word `=?UTF-8?B?…?=` (section 4.1, "B" encoding). The model includes the UTF-8 encoding of a string and the base 64 encoding of section 4 of RFC 4648 (standard alphabet, `=` padding), each with a decoder and a round-trip proof.
- `ConsoleMailer::send`: the plain-text transcript of a message. The `io::Write` sink is modelled as the list of lines written (`Console.Lines`) and the string they make (`Console.Render`). `join_addresses` is modelled too.
- SendGrid and Mailtrap `build_request`, `build_personalization`, `build_content` and `build_address`: the JSON bodies of the provider requests. JSON is a datatype whose objects are maps.
- The Mailtrap response classification in `send`, from status, body text and parsed JSON to the message ids or a `GenericMailerError`.

Each request builder has a read-back lemma. Sender, recipient lists, reply-to and both bodies are recovered from either request, as is the subject from the SendGrid request. The Mailtrap subject is pinned by `Mailtrap.BuildRequest`'s own contract. Two kinds of field are not recovered from the SendGrid request:

- Headers and metadata are sent as JSON objects, so duplicate keys collapse to the last value and their order is lost. Two messages that differ only there can give the same request.
- The category is sent as a one-element `categories` list. `Sendgrid.RequestCategories` states this, but no lemma reads it back.

The UTF-8 and base 64 encoders each have a decoder that rejects every non-canonical input, and both round trips are proved. Decoding an encoding gives the input back, and every accepted input is the encoding of what it decodes to.

`src/address.rs:29` writes the display name raw, without quotes. The model follows it. The console test at `src/mailers/console.rs:88-89` expects quoted names (`"Sender" <sender@example.com>`), which disagrees with `src/address.rs:29` and with that file's own test at `src/address.rs:67`. `Console.ExampleLines` proves the transcript the code as written produces for that test's message: the names are unquoted.

Files: `wrappers.dfy` (Option, Result), `bytes.dfy`, `text.dfy` (trim, find, ends_with, join), `utf8.dfy`, `base64.dfy`, `mime.dfy`, `address.dfy`, `message.dfy`, `builder_steps.dfy`, `json.dfy`, `mailer.dfy` (status and error shape), `console.dfy`, `sendgrid.dfy`, `mailtrap.dfy`.

## Model

| member | source | states |
|---|---|---|
| Addresses.New | src/address.rs:11-16 | the address has no name and holds the given email |
| Addresses.WithName | src/address.rs:18-23 | the address has the given name and email |
| Addresses.Display | src/address.rs:26-33 | without a name the text is the email; with one it is exactly the raw name, ` <`, the email and `>`, at the stated positions and length |
| Addresses.Parse | src/address.rs:35-47 | text not ending in `>` or holding no `<` becomes `new(text)`, and only such text does; otherwise the name is the trimmed text before the first `<`, which never contains `<`, and the email is the text strictly between that `<` and the final `>` |
| Addresses.ParseDisplayWithName | src/address.rs:29-42 | parsing the display form of a named address gives the address back, when the name has no `<` and no surrounding whitespace |
| Addresses.ParseDisplayNew | src/address.rs:30-46 | parsing the display form of a bare address gives it back unless the email ends in `>` and holds a `<` |
| Addresses.DisplayExamples | src/address.rs:54-68 | the display forms the crate's tests expect |
| Addresses.ParseExampleBare | src/address.rs:71-74 | `test@example.com` parses to a bare address |
| Addresses.ParseExampleNamed | src/address.rs:76-78 | `Test User <test@example.com>` parses to name `Test User` and email `test@example.com` |
| Text.Trim | src/address.rs:39 | `str::trim` returns a slice with no whitespace at either end and only whitespace outside it |
| Text.IndexOf | src/address.rs:38 | `str::find` of one character: -1 iff absent, otherwise the index of its first occurrence |
| Text.TrimOfTrimmedPlusSpace | src/address.rs:29-39 | trimming a trimmed name followed by the space `Display` writes gives the name back |
| Text.JoinLength | src/mailers/console.rs:63-69 | a join holds every part once plus one separator between neighbours |
| Messages.Describe | src/message.rs:45-58 | `Display for MessageBuilderError`: each error's text opens with the word naming what is missing (`Sender`, `Recipient`, `Subject`, `Body`) |
| Messages.DescribeInjective | src/message.rs:45-58 | the four builder error texts are pairwise different |
| Messages.NewBuilder | src/message.rs:62-80 | a new builder has every optional field unset and every list empty |
| Messages.Category | src/message.rs:82-86 | sets the category and changes no other field |
| Messages.SetCategory | src/message.rs:88-92 | replaces the category, `None` included, and changes no other field |
| Messages.Metadata | src/message.rs:94-102 | appends exactly the one pair at the end and changes no other field |
| Messages.SetMetadata | src/message.rs:104-116 | replaces the metadata with the given pairs, in order, and changes no other field |
| Messages.From | src/message.rs:118-122 | sets the sender and changes no other field |
| Messages.ReplyTo | src/message.rs:124-128 | sets the reply-to address and changes no other field |
| Messages.SetReplyTo | src/message.rs:130-134 | replaces the reply-to address, `None` included, and changes no other field |
| Messages.To | src/message.rs:136-140 | appends exactly the one recipient at the end and changes no other field |
| Messages.SetTo | src/message.rs:142-150 | replaces the recipients with the given list and changes no other field |
| Messages.Cc | src/message.rs:152-156 | appends exactly the one cc address at the end and changes no other field |
| Messages.SetCc | src/message.rs:158-166 | replaces the cc list and changes no other field |
| Messages.Bcc | src/message.rs:168-172 | appends exactly the one bcc address at the end and changes no other field |
| Messages.SetBcc | src/message.rs:174-182 | replaces the bcc list and changes no other field |
| Messages.Headers | src/message.rs:184-188 | appends exactly the one header pair at the end and changes no other field |
| Messages.SetHeaders | src/message.rs:190-202 | replaces the headers and changes no other field |
| Messages.Subject | src/message.rs:204-208 | sets the subject and changes no other field |
| Messages.TextBody | src/message.rs:210-214 | sets the text body and changes no other field |
| Messages.SetTextBody | src/message.rs:216-220 | replaces the text body, `None` included, and changes no other field |
| Messages.HtmlBody | src/message.rs:222-226 | sets the HTML body and changes no other field |
| Messages.SetHtmlBody | src/message.rs:228-232 | replaces the HTML body, `None` included, and changes no other field |
| Messages.Build | src/message.rs:234-260 | succeeds iff sender, a recipient, subject and a body are all present; each error is reported exactly when it is the first unmet condition in the order from, to, subject, body; a built message has a recipient and a body and holds every field as set |
| Messages.BuildContents | src/message.rs:247-259 | every message with a recipient and a body is what `build` makes of its own fields |
| Messages.BuildEmpty | src/message.rs:235 | an empty builder reports the missing sender |
| Messages.SetToReplaces | src/message.rs:136-150 | `to(a)` then `set_to([x, y])` leaves exactly `[x, y]` |
| Messages.AppendKeepsOrder | src/message.rs:136-140 | two `to` calls append in call order |
| Messages.LastWriteWins | src/message.rs:204-220 | for subject and text body the last write wins, and `set_text_body(None)` clears the body |
| Messages.ClearingBodyFails | src/message.rs:216-245 | clearing the only body turns a successful build into `MissingBody` |
| Messages.BuilderExample | src/message.rs:268-284 | the builder test's chain, with addresses given as text, builds the expected message |
| Messages.SampleBuilds | src/mailers/sendgrid.rs:150-157 | the providers' test chain builds the sample message |
| BuilderSteps.LastWhere | src/message.rs:82-232 | the index of the last call that decides a field, and no later call decides it |
| BuilderSteps.RunRecipients | src/message.rs:136-150 | after any chain of setter calls the recipients are the last `set_to` list, or the initial list, followed by every later `to` address in order |
| BuilderSteps.RunScalars | src/message.rs:118-232 | after any chain, sender, subject and bodies are those of the last call that set or cleared them |
| BuilderSteps.BuildChain | src/message.rs:82-245 | a chain from a new builder builds iff it called `from` and `subject`, leaves a recipient and leaves a body |
| BuilderSteps.OtherStepsKeepOutcome | src/message.rs:82-245 | category, metadata, reply-to, cc, bcc and header calls never change whether `build` succeeds, nor which error it reports |
| Utf8.EncodeChar | src/utils.rs:10-13 | one to four octets per character, a single octet exactly for ASCII, continuation octets after the first |
| Utf8.DecodeEncode | src/utils.rs:10-13 | `str::as_bytes` (`Utf8.Encode`, whose own contract only bounds the length) loses nothing: decoding the octets gives the string back, so `str::len` is the length of exactly this encoding |
| Utf8.EncodeDecode | src/utils.rs:13 | every octet sequence the decoder accepts is the encoding of what it decodes to: no overlong form, surrogate or value beyond U+10FFFF is accepted |
| Utf8.DecodeIffEncode | src/utils.rs:13 | octets decode to a string iff they are its encoding |
| Utf8.EncodeInjective | src/utils.rs:13 | different strings have different UTF-8 octets |
| Utf8.EncodeAscii | src/utils.rs:10 | an ASCII string has one octet per character, equal to its code |
| Base64.Index | src/utils.rs:13 | a character has a digit value iff it is in the standard alphabet, and that value encodes back to it |
| Base64.Encode | src/utils.rs:13 | the padded encoding has 4 characters per started group of 3 octets |
| Base64.EncodePadded | src/utils.rs:13 | the encoding uses only the alphabet, with `=` in at most the last two places and only as a trailing run |
| Base64.DecodeEncode | src/utils.rs:13 | decoding an encoding gives the octets back |
| Base64.EncodeDecode | src/utils.rs:13 | every text the decoder accepts is the encoding of what it decodes to |
| Base64.DecodeIffEncode | src/utils.rs:13 | a text decodes to some octets iff it is their encoding |
| Base64.EncodeInjective | src/utils.rs:13 | different octet strings have different encodings |
| Base64.RfcVectorsShort | src/utils.rs:13 | the RFC 4648 section 10 vectors "", "f", "fo", "foo" encode to "", `Zg==`, `Zm8=`, `Zm9v` |
| Base64.RfcVectorsLong | src/utils.rs:13 | the RFC 4648 section 10 vectors "foob", "fooba", "foobar" encode to `Zm9vYg==`, `Zm9vYmE=`, `Zm9vYmFy` |
| Mime.EncodeMimeB | src/utils.rs:6-17 | the result has length `12 + 4 * ceil(n / 3)` for `n` UTF-8 octets, starts with `=?UTF-8?B?`, ends with `?=`, and its middle decodes to the UTF-8 octets of the input |
| Mime.PayloadIsBase64 | src/utils.rs:12-14 | the middle is exactly the padded base 64 encoding of the octets |
| Mime.CapacitySuffices | src/utils.rs:7-10 | the reserved capacity `12 + 4 * (n + 2) / 3` is never less than the final length |
| Mime.EmptyInput | src/utils.rs:12-14 | the empty string gives `=?UTF-8?B??=` |
| Mime.Injective | src/utils.rs:6-17 | different strings give different encoded-words |
| JsonValues.Get | src/mailers/mailtrap.rs:59-65 | a key lookup gives a value iff the value is an object holding the key |
| JsonValues.AddressObject | src/mailers/sendgrid.rs:135-141 | the object always has `email`, has `name` iff the address has a name, and nothing else |
| JsonValues.ReadAddressObject | src/mailers/mailtrap.rs:111-117 | the address object reads back to the address it came from |
| JsonValues.AddressArray | src/mailers/sendgrid.rs:101 | the array holds one address object per address, in order |
| JsonValues.ReadAddressArray | src/mailers/mailtrap.rs:84 | an address array reads back to the list it came from |
| Console.Displays | src/mailers/console.rs:66 | one display form per address, in order |
| Console.JoinAddresses | src/mailers/console.rs:63-69 | empty for no addresses, the display form for one, otherwise the join of the first ones, `, ` and the last display form; its length counts `n - 1` separators |
| Console.Lines | src/mailers/console.rs:22-60 | the banner, `From: ` with the sender's display form, the optional headers, `Subject: ` with the subject, an empty line, the text body or `No text body.`, and the closing banner |
| Console.HeadersShape | src/mailers/console.rs:29-43 | at most four header lines in the order Reply-To, To, Cc, Bcc; each appears iff its field is set or non-empty, carrying the display form or the joined addresses |
| Console.WriteFirstTwo | src/mailers/console.rs:22-60 | the output of `writeln!` calls (`Console.WriteLines`) opens with the first two lines, each followed by a newline |
| Console.WriteLast | src/mailers/console.rs:22-60 | the output of `writeln!` calls ends with the last line and a newline |
| Console.Render | src/mailers/console.rs:22-60 | the transcript opens with the BEGIN banner line and the `From:` line and closes with the END banner and a newline |
| Console.WriteLinesAppend | src/mailers/console.rs:22-60 | writing two runs of lines gives the concatenation of their outputs |
| Console.RenderIgnores | src/mailers/console.rs:22-60 | the HTML body, headers, category and metadata never change the transcript |
| Console.ExampleLines | src/mailers/console.rs:76-97 | the lines written for the test's message, with names unquoted as `Display` writes them |
| Sendgrid.BuildPersonalization | src/mailers/sendgrid.rs:99-113 | `to` always, as the recipients in order; `cc` and `bcc` iff non-empty; no other key |
| Sendgrid.BuildContent | src/mailers/sendgrid.rs:115-133 | the `text/plain` entry first and the `text/html` entry last, each iff its body is present; one or two entries for a built message |
| Sendgrid.PairsObject | src/mailers/sendgrid.rs:78-94 | the object's keys are the pairs' keys, and each key maps to the value of its last pair |
| Sendgrid.InsertAllLast | src/mailers/sendgrid.rs:79-81 | inserting pairs in order keeps, for each key, the last value inserted and leaves other keys alone |
| Sendgrid.BuildRequest | src/mailers/sendgrid.rs:66-72 | `from`, a one-element `personalizations`, `subject` and `content` are always present with those values |
| Sendgrid.RequestReplyTo | src/mailers/sendgrid.rs:74-76 | `reply_to` is present iff set, as its address object |
| Sendgrid.RequestHeaders | src/mailers/sendgrid.rs:78-83 | `headers` is present iff there are headers, as an object in which a later duplicate name wins |
| Sendgrid.RequestCategories | src/mailers/sendgrid.rs:85-87 | `categories` is present iff the category is set, as the one-element list of it |
| Sendgrid.RequestCustomArgs | src/mailers/sendgrid.rs:89-94 | `custom_args` is present iff there is metadata, with the same last-wins rule |
| Sendgrid.RequestKeys | src/mailers/sendgrid.rs:66-97 | the request has no keys beyond the eight it may set |
| Sendgrid.ContentKeepsBodies | src/mailers/sendgrid.rs:115-133 | both bodies read back from the content list by type |
| Sendgrid.RequestKeepsMessage | src/mailers/sendgrid.rs:66-133 | sender, subject, recipient lists, reply-to and bodies all read back from the request |
| Sendgrid.SampleRequest | src/mailers/sendgrid.rs:149-176 | the test's request, exactly |
| Mailtrap.BuildRequest | src/mailers/mailtrap.rs:81-86 | `from`, `to` (the recipients in order) and `subject` are always present with those values |
| Mailtrap.RequestCopies | src/mailers/mailtrap.rs:88-94 | `cc` and `bcc` are present iff non-empty, as the address arrays |
| Mailtrap.RequestReplyTo | src/mailers/mailtrap.rs:96-98 | `reply_to` is present iff set |
| Mailtrap.RequestBodies | src/mailers/mailtrap.rs:100-106 | `text` and `html` are present iff their bodies are, with the body as value |
| Mailtrap.RequestKeys | src/mailers/mailtrap.rs:81-109 | no key beyond `from`, `to`, `subject`, `cc`, `bcc`, `reply_to`, `text`, `html`: headers, category and metadata are never sent |
| Mailtrap.RequestKeepsMessage | src/mailers/mailtrap.rs:81-117 | sender, recipient lists, reply-to and bodies all read back from the request |
| Mailtrap.StringsIn | src/mailers/mailtrap.rs:70-74 | never more ids than array elements |
| Mailtrap.StringsInAppend | src/mailers/mailtrap.rs:70-74 | collecting ids distributes over concatenation |
| Mailtrap.StringsInMembers | src/mailers/mailtrap.rs:70-74 | an id is collected iff the array holds it as a string |
| Mailtrap.StringsInAllStrings | src/mailers/mailtrap.rs:70-74 | an array of strings only is collected whole, in order |
| Mailer.IsSuccess | src/mailers/mailtrap.rs:46 | `StatusCode::is_success`: the status is in 200..299; used by `Mailtrap.Classify` |
| Mailtrap.Classify | src/mailers/mailtrap.rs:46-76 | a body read error is `UnexpectedError`; a non-success status is `UnexpectedResponse(status, body)`; the result is `Ok` iff the status is 2xx and the body parses to an object with `success: true` and an array `message_ids`, and then holds the string ids in order; every other outcome is `UnexpectedResponse(status, text)` |
| Mailtrap.ClassifyIds | src/mailers/mailtrap.rs:59-76 | an accepted response reports exactly the string ids it carries |
| Mailtrap.ClassifyRejected | src/mailers/mailtrap.rs:59-61 | `success: false` is an unexpected response whatever ids it carries |
| Mailtrap.SampleRequest | src/mailers/mailtrap.rs:127-148 | the test's request, exactly |

## Left out

- `src/mailers/aws_ses.rs`: a thin wrapper over the AWS SDK request builders, whose code is not part of this model. It also imports types from `src/mailer.rs`, which `src/lib.rs` does not compile.
- The HTTP exchange in every async `send` (reqwest client, bearer token, URL): it is I/O. The Mailtrap status, body text and parsed JSON are parameters of `Mailtrap.Classify` instead.
- The panic at `src/mailers/mailtrap.rs:44` when the transport fails: a panic is not a result, and the transport is not modelled.
- SendGrid `send` (`src/mailers/sendgrid.rs:33-62`): reading the `x-message-id` header and the non-success path are HTTP handling. Only its request builders are modelled.
- `io::Write` errors in `ConsoleMailer::send`, and the `GenericMailer` wrapper that writes to stdout: the writer is modelled as the lines it receives, and writes never fail.
- `src/generic_mailer.rs`: the trait, the `Display` text of the error and the `From` conversions of foreign errors. Only the two-variant error shape is kept, in `Mailer.MailerError`, with the cause as a string.
- `src/mailers/no_op.rs`, `src/mailers/noop.rs`, `src/mailers/mod.rs`, `src/lib.rs`, `src/mailer.rs`: stubs and module wiring with no behaviour to model.
- JSON text: serialization, parsing, and the key order of objects. Objects are maps, and parsed values are inputs. JSON numbers are integers. No request holds a number, and a number in a parsed Mailtrap response is never read: `message_ids` keeps only strings (`src/mailers/mailtrap.rs:72`), and `success` must be `true`. So fractional numbers change nothing.
- `Cow` borrowing and lifetimes: every string is an owned value.
- The `usize` arithmetic of the capacity in `encode_mime_b`: integers are unbounded, so overflow for inputs near `usize::MAX` bytes is not modelled.
- Quoting or RFC 2047 encoding of display names: `src/address.rs:29` does neither, so neither is modelled.
- Tuple addresses: the only `From` conversion for `Address` in the crate is `From<&str>` (`src/address.rs:35-47`). The `(name, email)` tuples the console test passes at `src/mailers/console.rs:78-79` have no conversion anywhere in the crate, so that test belongs to another revision. The model builds that test's message with `Addresses.WithName` and `Addresses.New`.
- Non-canonical base 64 text: `Base64.Decode` is the canonical decoder of section 3.5 of RFC 4648, which rejects non-zero pad bits. The crate never decodes; the decoder exists only to state the round trip.
