/** `ConsoleMailer::send`: the plain-text transcript of a message, written
    line by line. The writer is modelled as the string it receives. */
module Console {
  import opened Wrappers
  import opened Text
  import opened Addresses
  import opened Messages

  const BeginBanner: string := "==================== [ BEGIN EMAIL ] ===================="
  const EndBanner: string := "==================== [  END EMAIL  ] ===================="
  const NoTextBody: string := "No text body."

  const ReplyToTag: string := "Reply-To: "
  const ToTag: string := "To: "
  const CcTag: string := "Cc: "
  const BccTag: string := "Bcc: "

  function Displays(addrs: seq<Address>): (r: seq<string>)
    ensures |r| == |addrs|
    ensures forall i :: 0 <= i < |addrs| ==> r[i] == Display(addrs[i])
  {
    seq(|addrs|, i requires 0 <= i < |addrs| => Display(addrs[i]))
  }

  /** `join_addresses`: the display forms separated by `", "`. */
  function JoinAddresses(addrs: seq<Address>): (r: string)
    ensures |addrs| == 0 ==> r == ""
    ensures |addrs| == 1 ==> r == Display(addrs[0])
    ensures |addrs| > 0 ==> |r| == TotalLength(Displays(addrs)) + 2 * (|addrs| - 1)
    ensures |addrs| > 1 ==>
      r == JoinAddresses(addrs[..|addrs| - 1]) + ", " + Display(addrs[|addrs| - 1])
  {
    JoinedDisplays(addrs);
    Join(Displays(addrs), ", ")
  }

  lemma JoinedDisplays(addrs: seq<Address>)
    ensures var ds := Displays(addrs);
      && (|addrs| > 0 ==> |Join(ds, ", ")| == TotalLength(ds) + 2 * (|addrs| - 1))
      && (|addrs| > 1 ==> ds[..|ds| - 1] == Displays(addrs[..|addrs| - 1]))
  {
    if |addrs| > 0 {
      JoinLength(Displays(addrs), ", ");
      DisplaysPrefix(addrs);
    }
  }

  lemma DisplaysPrefix(addrs: seq<Address>)
    requires |addrs| > 0
    ensures Displays(addrs)[..|addrs| - 1] == Displays(addrs[..|addrs| - 1])
  {
    var ds, init := Displays(addrs), addrs[..|addrs| - 1];
    var di := Displays(init);
    forall i | 0 <= i < |di|
      ensures ds[..|addrs| - 1][i] == di[i]
    {
      assert init[i] == addrs[i];
    }
  }

  /** The optional header lines, each present iff its field is set or
      non-empty, in the order Reply-To, To, Cc, Bcc. */
  function OptionalHeaders(m: Message): seq<string>
  {
    (if m.replyTo.Some? then [ReplyToTag + Display(m.replyTo.value)] else [])
    + (if |m.to| > 0 then [ToTag + JoinAddresses(m.to)] else [])
    + (if |m.cc| > 0 then [CcTag + JoinAddresses(m.cc)] else [])
    + (if |m.bcc| > 0 then [BccTag + JoinAddresses(m.bcc)] else [])
  }

  /** Position of a header line in the fixed order, read from its first
      character (the four tags start differently). */
  function Rank(line: string): int
  {
    if |line| == 0 then 4
    else if line[0] == 'R' then 0
    else if line[0] == 'T' then 1
    else if line[0] == 'C' then 2
    else if line[0] == 'B' then 3
    else 4
  }

  predicate HasLine(lines: seq<string>, line: string) {
    exists i :: 0 <= i < |lines| && lines[i] == line
  }

  /** Whether some line carries the given tag. */
  predicate HasTag(lines: seq<string>, tag: string) {
    exists i :: 0 <= i < |lines| && |tag| <= |lines[i]| && lines[i][..|tag|] == tag
  }

  /** The lines `send` writes, each followed by a newline: the banner, the
      sender, the optional headers, the subject, a blank line, the text body
      (or a placeholder) and the closing banner. */
  function Lines(m: Message): (ls: seq<string>)
    ensures |ls| == 6 + |OptionalHeaders(m)|
    ensures ls[0] == BeginBanner
    ensures ls[1] == "From: " + Display(m.from)
    ensures ls[2..|ls| - 4] == OptionalHeaders(m)
    ensures ls[|ls| - 4] == "Subject: " + m.subject
    ensures ls[|ls| - 3] == ""
    ensures ls[|ls| - 2] == (if m.textBody.Some? then m.textBody.value else NoTextBody)
    ensures ls[|ls| - 1] == EndBanner
  {
    var hs := OptionalHeaders(m);
    var ls := [BeginBanner, "From: " + Display(m.from)] + hs
      + ["Subject: " + m.subject, "", if m.textBody.Some? then m.textBody.value else NoTextBody, EndBanner];
    assert ls[2..|ls| - 4] == hs;
    ls
  }

  /** The header block between `From:` and `Subject:` holds at most the four
      optional headers, in the order Reply-To, To, Cc, Bcc; each appears
      exactly when its field is set or non-empty, with the joined addresses. */
  lemma HeadersShape(m: Message)
    ensures var hs := OptionalHeaders(m);
      && |hs| <= 4
      && (forall i, j :: 0 <= i < j < |hs| ==> Rank(hs[i]) < Rank(hs[j]))
      && (m.replyTo.Some? <==> HasTag(hs, ReplyToTag))
      && (m.replyTo.Some? ==> HasLine(hs, ReplyToTag + Display(m.replyTo.value)))
      && (|m.to| > 0 <==> HasTag(hs, ToTag))
      && (|m.to| > 0 ==> HasLine(hs, ToTag + JoinAddresses(m.to)))
      && (|m.cc| > 0 <==> HasTag(hs, CcTag))
      && (|m.cc| > 0 ==> HasLine(hs, CcTag + JoinAddresses(m.cc)))
      && (|m.bcc| > 0 <==> HasTag(hs, BccTag))
      && (|m.bcc| > 0 ==> HasLine(hs, BccTag + JoinAddresses(m.bcc)))
  {
    var r := Optional(m.replyTo.Some?, ReplyToTag, if m.replyTo.Some? then Display(m.replyTo.value) else "");
    var t := Optional(|m.to| > 0, ToTag, JoinAddresses(m.to));
    var c := Optional(|m.cc| > 0, CcTag, JoinAddresses(m.cc));
    var b := Optional(|m.bcc| > 0, BccTag, JoinAddresses(m.bcc));
    assert OptionalHeaders(m) == r + t + c + b;
    TagRanks();
    OptionalTagged(m.replyTo.Some?, ReplyToTag, if m.replyTo.Some? then Display(m.replyTo.value) else "");
    OptionalTagged(|m.to| > 0, ToTag, JoinAddresses(m.to));
    OptionalTagged(|m.cc| > 0, CcTag, JoinAddresses(m.cc));
    OptionalTagged(|m.bcc| > 0, BccTag, JoinAddresses(m.bcc));
    Segments(r, t, c, b, ReplyToTag, ToTag, CcTag, BccTag);
  }

  lemma TagRanks()
    ensures |ReplyToTag| > 0 && |ToTag| > 0 && |CcTag| > 0 && |BccTag| > 0
    ensures Rank(ReplyToTag) == 0 && Rank(ToTag) == 1 && Rank(CcTag) == 2 && Rank(BccTag) == 3
  {
  }

  lemma OptionalTagged(present: bool, tag: string, value: string)
    ensures TaggedSegment(Optional(present, tag, value), tag)
  {
    if present {
      assert (tag + value)[..|tag|] == tag;
    }
  }

  /** `[tag + value]` when `present`, else nothing. */
  function Optional(present: bool, tag: string, value: string): (r: seq<string>)
    ensures |r| <= 1 && (|r| == 1 <==> present)
    ensures present ==> r[0] == tag + value
  {
    if present then [tag + value] else []
  }

  predicate TaggedSegment(seg: seq<string>, tag: string) {
    |seg| <= 1 && (|seg| == 1 ==> |tag| <= |seg[0]| && seg[0][..|tag|] == tag)
  }

  /** Four at-most-one-line segments with tags of ranks 0 to 3, in order. */
  lemma Segments(r: seq<string>, t: seq<string>, c: seq<string>, b: seq<string>,
                 rt: string, tt: string, ct: string, bt: string)
    requires |rt| > 0 && |tt| > 0 && |ct| > 0 && |bt| > 0
    requires Rank(rt) == 0 && Rank(tt) == 1 && Rank(ct) == 2 && Rank(bt) == 3
    requires TaggedSegment(r, rt) && TaggedSegment(t, tt) && TaggedSegment(c, ct) && TaggedSegment(b, bt)
    ensures var hs := r + t + c + b;
      && |hs| <= 4
      && (forall i, j :: 0 <= i < j < |hs| ==> Rank(hs[i]) < Rank(hs[j]))
      && (|r| == 1 <==> HasTag(hs, rt)) && (|r| == 1 ==> HasLine(hs, r[0]))
      && (|t| == 1 <==> HasTag(hs, tt)) && (|t| == 1 ==> HasLine(hs, t[0]))
      && (|c| == 1 <==> HasTag(hs, ct)) && (|c| == 1 ==> HasLine(hs, c[0]))
      && (|b| == 1 <==> HasTag(hs, bt)) && (|b| == 1 ==> HasLine(hs, b[0]))
  {
    SegmentsOrdered(r, t, c, b, rt, tt, ct, bt);
    SegmentsPresent(r, t, c, b, rt, tt, ct, bt);
  }

  lemma SegmentsOrdered(r: seq<string>, t: seq<string>, c: seq<string>, b: seq<string>,
                        rt: string, tt: string, ct: string, bt: string)
    requires |rt| > 0 && |tt| > 0 && |ct| > 0 && |bt| > 0
    requires Rank(rt) == 0 && Rank(tt) == 1 && Rank(ct) == 2 && Rank(bt) == 3
    requires TaggedSegment(r, rt) && TaggedSegment(t, tt) && TaggedSegment(c, ct) && TaggedSegment(b, bt)
    ensures var hs := r + t + c + b;
      && |hs| <= 4
      && (forall i, j :: 0 <= i < j < |hs| ==> Rank(hs[i]) < Rank(hs[j]))
  {
    var hs := r + t + c + b;
    SegmentRanks(r, t, c, b, rt, tt, ct, bt);
    forall i, j | 0 <= i < j < |hs|
      ensures Rank(hs[i]) < Rank(hs[j])
    {
      SegmentIndexStrict(|r|, |t|, |c|, |b|, i, j);
    }
  }

  lemma SegmentsPresent(r: seq<string>, t: seq<string>, c: seq<string>, b: seq<string>,
                        rt: string, tt: string, ct: string, bt: string)
    requires |rt| > 0 && |tt| > 0 && |ct| > 0 && |bt| > 0
    requires Rank(rt) == 0 && Rank(tt) == 1 && Rank(ct) == 2 && Rank(bt) == 3
    requires TaggedSegment(r, rt) && TaggedSegment(t, tt) && TaggedSegment(c, ct) && TaggedSegment(b, bt)
    ensures var hs := r + t + c + b;
      && (|r| == 1 <==> HasTag(hs, rt)) && (|r| == 1 ==> HasLine(hs, r[0]))
      && (|t| == 1 <==> HasTag(hs, tt)) && (|t| == 1 ==> HasLine(hs, t[0]))
      && (|c| == 1 <==> HasTag(hs, ct)) && (|c| == 1 ==> HasLine(hs, c[0]))
      && (|b| == 1 <==> HasTag(hs, bt)) && (|b| == 1 ==> HasLine(hs, b[0]))
  {
    var hs := r + t + c + b;
    HasTagFour(r, t, c, b, rt);
    HasTagOwn(r, rt);
    HasTagOther(t, tt, rt);
    HasTagOther(c, ct, rt);
    HasTagOther(b, bt, rt);
    HasTagFour(r, t, c, b, tt);
    HasTagOther(r, rt, tt);
    HasTagOwn(t, tt);
    HasTagOther(c, ct, tt);
    HasTagOther(b, bt, tt);
    HasTagFour(r, t, c, b, ct);
    HasTagOther(r, rt, ct);
    HasTagOther(t, tt, ct);
    HasTagOwn(c, ct);
    HasTagOther(b, bt, ct);
    HasTagFour(r, t, c, b, bt);
    HasTagOther(r, rt, bt);
    HasTagOther(t, tt, bt);
    HasTagOther(c, ct, bt);
    HasTagOwn(b, bt);
    if |r| == 1 { assert hs[0] == r[0]; }
    if |t| == 1 { assert hs[|r|] == t[0]; }
    if |c| == 1 { assert hs[|r| + |t|] == c[0]; }
    if |b| == 1 { assert hs[|r| + |t| + |c|] == b[0]; }
  }

  /** A tag occurs in a concatenation exactly when it occurs in a part. */
  lemma HasTagAppend(a: seq<string>, b: seq<string>, tag: string)
    ensures HasTag(a + b, tag) <==> HasTag(a, tag) || HasTag(b, tag)
  {
    var ab := a + b;
    if HasTag(ab, tag) {
      var i :| 0 <= i < |ab| && |tag| <= |ab[i]| && ab[i][..|tag|] == tag;
      if i < |a| {
        assert ab[i] == a[i];
      } else {
        assert ab[i] == b[i - |a|];
      }
    }
    if HasTag(a, tag) {
      var i :| 0 <= i < |a| && |tag| <= |a[i]| && a[i][..|tag|] == tag;
      assert ab[i] == a[i];
    }
    if HasTag(b, tag) {
      var i :| 0 <= i < |b| && |tag| <= |b[i]| && b[i][..|tag|] == tag;
      assert ab[|a| + i] == b[i];
    }
  }

  lemma HasTagFour(r: seq<string>, t: seq<string>, c: seq<string>, b: seq<string>, tag: string)
    ensures HasTag(r + t + c + b, tag) <==>
      HasTag(r, tag) || HasTag(t, tag) || HasTag(c, tag) || HasTag(b, tag)
  {
    HasTagAppend(r, t, tag);
    HasTagAppend(r + t, c, tag);
    HasTagAppend(r + t + c, b, tag);
  }

  /** A segment carries its own tag exactly when it holds its line. */
  lemma HasTagOwn(seg: seq<string>, tag: string)
    requires TaggedSegment(seg, tag)
    ensures HasTag(seg, tag) <==> |seg| == 1
  {
    if |seg| == 1 {
      assert |tag| <= |seg[0]| && seg[0][..|tag|] == tag;
    }
  }

  /** A segment never carries a tag of another rank. */
  lemma HasTagOther(seg: seq<string>, segTag: string, tag: string)
    requires |segTag| > 0 && |tag| > 0 && Rank(segTag) != Rank(tag)
    requires TaggedSegment(seg, segTag)
    ensures !HasTag(seg, tag)
  {
    if HasTag(seg, tag) {
      var i :| 0 <= i < |seg| && |tag| <= |seg[i]| && seg[i][..|tag|] == tag;
      assert false;
    }
  }

  lemma SegmentIndexStrict(nr: nat, nt: nat, nc: nat, nb: nat, i: int, j: int)
    requires nr <= 1 && nt <= 1 && nc <= 1 && nb <= 1
    requires 0 <= i < j < nr + nt + nc + nb
    ensures SegmentIndex(nr, nt, nc, i) < SegmentIndex(nr, nt, nc, j)
  {
  }

  /** Each line of the concatenation has the rank of the segment it came
      from. */
  lemma SegmentRanks(r: seq<string>, t: seq<string>, c: seq<string>, b: seq<string>,
                     rt: string, tt: string, ct: string, bt: string)
    requires |rt| > 0 && |tt| > 0 && |ct| > 0 && |bt| > 0
    requires Rank(rt) == 0 && Rank(tt) == 1 && Rank(ct) == 2 && Rank(bt) == 3
    requires TaggedSegment(r, rt) && TaggedSegment(t, tt) && TaggedSegment(c, ct) && TaggedSegment(b, bt)
    ensures var hs := r + t + c + b;
      forall i :: 0 <= i < |hs| ==> Rank(hs[i]) == SegmentIndex(|r|, |t|, |c|, i)
  {
    var hs := r + t + c + b;
    SegmentRank(r, rt, 0);
    SegmentRank(t, tt, 1);
    SegmentRank(c, ct, 2);
    SegmentRank(b, bt, 3);
    forall i | 0 <= i < |hs|
      ensures Rank(hs[i]) == SegmentIndex(|r|, |t|, |c|, i)
    {
      if i < |r| {
        assert hs[i] == r[i];
      } else if i < |r| + |t| {
        assert hs[i] == t[i - |r|];
      } else if i < |r| + |t| + |c| {
        assert hs[i] == c[i - |r| - |t|];
      } else {
        assert hs[i] == b[i - |r| - |t| - |c|];
      }
    }
  }

  /** Which of the four segments index `i` of their concatenation falls in. */
  function SegmentIndex(nr: nat, nt: nat, nc: nat, i: int): int
  {
    if i < nr then 0 else if i < nr + nt then 1 else if i < nr + nt + nc then 2 else 3
  }

  lemma SegmentRank(seg: seq<string>, tag: string, k: int)
    requires |tag| > 0 && Rank(tag) == k
    requires TaggedSegment(seg, tag)
    ensures forall i :: 0 <= i < |seg| ==> Rank(seg[i]) == k
  {
    if |seg| == 1 {
      assert seg[0][0] == seg[0][..|tag|][0] == tag[0];
    }
  }

  /** Concatenation of lines, each ended by a newline, as `writeln!` emits. */
  function WriteLines(ls: seq<string>): (r: string)
  {
    if |ls| == 0 then "" else WriteLines(ls[..|ls| - 1]) + ls[|ls| - 1] + "\n"
  }


  lemma {:induction false} WriteLinesAppend(a: seq<string>, b: seq<string>)
    ensures WriteLines(a + b) == WriteLines(a) + WriteLines(b)
    decreases |b|
  {
    if |b| == 0 {
      assert a + b == a;
    } else {
      assert (a + b)[..|a + b| - 1] == a + b[..|b| - 1];
      WriteLinesAppend(a, b[..|b| - 1]);
    }
  }

  lemma WriteFirstTwo(ls: seq<string>)
    requires |ls| >= 2
    ensures var head := ls[0] + "\n" + ls[1] + "\n";
      |head| <= |WriteLines(ls)| && WriteLines(ls)[..|head|] == head
  {
    WriteLinesAppend(ls[..2], ls[2..]);
    assert ls[..2] + ls[2..] == ls;
    assert ls[..2][..1] == [ls[0]];
    assert [ls[0]][..0] == [];
  }

  lemma WriteLast(ls: seq<string>)
    requires |ls| >= 1
    ensures var tail := ls[|ls| - 1] + "\n"; var out := WriteLines(ls);
      |tail| <= |out| && out[|out| - |tail|..] == tail
  {
    var out := WriteLines(ls);
    var tail := ls[|ls| - 1] + "\n";
    assert out == WriteLines(ls[..|ls| - 1]) + tail;
  }

  /** The transcript `send` writes: it opens with the BEGIN banner and the
      `From:` line and closes with the END banner and a newline. */
  function Render(m: Message): (r: string)
    ensures var head := BeginBanner + "\n" + ("From: " + Display(m.from)) + "\n";
      |head| <= |r| && r[..|head|] == head
    ensures var tail := EndBanner + "\n";
      |tail| <= |r| && r[|r| - |tail|..] == tail
  {
    var ls := Lines(m);
    WriteFirstTwo(ls);
    WriteLast(ls);
    WriteLines(ls)
  }

  /** The HTML body, custom headers, category and metadata never appear in
      the transcript. */
  lemma RenderIgnores(m: Message, html: Option<string>, headers: seq<Pair>,
                      category: Option<string>, metadata: seq<Pair>)
    ensures Render(m.(htmlBody := html, headers := headers, category := category, metadata := metadata))
         == Render(m)
  {
  }

  /** The sample's lines spelled out, one concatenation per lemma: proved
      together, or inside `ExampleLines`, they cost the solver far more. */
  lemma SampleFromSpelling()
    ensures "From: " + ("Sender" + " <" + "sender@example.com" + ">") == "From: Sender <sender@example.com>"
  {
  }

  lemma SampleToSpelling()
    ensures "To: " + ("Recipient" + " <" + "recipient@example.com" + ">") == "To: Recipient <recipient@example.com>"
  {
  }

  lemma SampleSubjectSpelling()
    ensures "Subject: " + "Test Email" == "Subject: Test Email"
  {
  }

  lemma SampleCcSpelling()
    ensures "Cc: " + "cc@example.com" == "Cc: cc@example.com"
  {
  }

  /** The console test's transcript, with names written raw as `Display`
      writes them. */
  lemma ExampleLines()
    ensures Lines(SampleMessage()) == [
      BeginBanner,
      "From: Sender <sender@example.com>",
      "To: Recipient <recipient@example.com>",
      "Cc: cc@example.com",
      "Subject: Test Email",
      "",
      "This is a test email.",
      EndBanner]
  {
    var m := SampleMessage();
    SampleFromSpelling();
    SampleToSpelling();
    SampleCcSpelling();
    SampleSubjectSpelling();
    assert Display(m.from) == "Sender" + " <" + "sender@example.com" + ">";
    assert JoinAddresses(m.to) == "Recipient" + " <" + "recipient@example.com" + ">";
    assert JoinAddresses(m.cc) == "cc@example.com";
    var hs := OptionalHeaders(m);
    assert hs == ["To: Recipient <recipient@example.com>", "Cc: cc@example.com"];
    var ls := Lines(m);
    assert |ls| == 8 && ls[2] == hs[0] && ls[3] == hs[1];
    assert ls[4] == "Subject: Test Email" && ls[6] == "This is a test email.";
  }
}
