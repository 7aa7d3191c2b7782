/** Reading a reply back: decoders for each reply shape `check_breach`
    produces, and the lemmas that each decoder recovers exactly the values
    the reply was built from. They show that the count, the email, the order
    of the blocks and every field of every block are all present in the text. */
module Reading {
  import opened Wrappers
  import opened Strings
  import opened Breach

  /** What a reply tells the user who receives it. */
  datatype ReplyView =
    | Invalid(email: string)
    | Found(count: nat, email: string, blocks: seq<BlockView>)
    | NoBreaches(email: string)
    | ApiError(status: int, body: string)
    | Failed
    | Unreadable

  /** A block can be read back when no field contains the character that
      closes it in the text. */
  predicate Readable(v: BlockView) {
    '*' !in v.name && ')' !in v.domain && '`' !in v.date && '`' !in v.exposed
  }

  /** The same condition stated on a record's own fields. */
  predicate Displayable(r: Record) {
    (r.Name.Some? ==> '*' !in r.Name.value) &&
    (r.Domain.Some? ==> ')' !in r.Domain.value) &&
    (r.BreachDate.Some? ==> '`' !in r.BreachDate.value) &&
    (r.DataClasses.Some? ==> forall i :: 0 <= i < |r.DataClasses.value| ==> '`' !in r.DataClasses.value[i])
  }

  lemma DisplayableReadable(r: Record)
    requires Displayable(r)
    ensures Readable(View(r))
  {
    JoinAvoids(r.DataClasses.GetOr([]), ClassSeparator, '`');
  }

  function ParseBlock(s: string): (r: Option<(BlockView, string)>)
    ensures r.Some? ==> |r.value.1| < |s|
  {
    var r0 :- StripPrefix(BlockOpen, s);
    var name :- ReadUntil(r0, '*');
    var r1 :- StripPrefix(DomainOpen, name.1);
    var domain :- ReadUntil(r1, ')');
    var r2 :- StripPrefix(DateOpen, domain.1);
    var date :- ReadUntil(r2, '`');
    var r3 :- StripPrefix(ExposedOpen, date.1);
    var exposed :- ReadUntil(r3, '`');
    var r4 :- StripPrefix("\n", exposed.1);
    var v := BlockView(name.0, domain.0, date.0, exposed.0, VerifiedLabel <= r4);
    var r5 :- StripPrefix(VerifiedText(v.verified), r4);
    var rest :- StripPrefix("\n\n", r5);
    Some((v, rest))
  }

  /** A block followed by more text, with the concatenation nested to the right. */
  lemma RenderBlockOnto(v: BlockView, rest: string)
    ensures RenderBlock(v) + rest ==
      BlockOpen + (v.name + ("*" + (DomainOpen + (v.domain + (")" + (DateOpen + (v.date + ("`" +
      (ExposedOpen + (v.exposed + ("`" + ("\n" + (VerifiedText(v.verified) + ("\n\n" + rest))))))))))))))
  {
    var p1 := BlockOpen + v.name;
    var p2 := p1 + "*";
    var p3 := p2 + DomainOpen;
    var p4 := p3 + v.domain;
    var p5 := p4 + ")";
    var p6 := p5 + DateOpen;
    var p7 := p6 + v.date;
    var p8 := p7 + "`";
    var p9 := p8 + ExposedOpen;
    var p10 := p9 + v.exposed;
    var p11 := p10 + "`";
    var p12 := p11 + "\n";
    var p13 := p12 + VerifiedText(v.verified);
    var t13 := "\n\n" + rest;
    Assoc(p13, "\n\n", rest);
    var t12 := VerifiedText(v.verified) + t13;
    Assoc(p12, VerifiedText(v.verified), t13);
    var t11 := "\n" + t12;
    Assoc(p11, "\n", t12);
    var t10 := "`" + t11;
    Assoc(p10, "`", t11);
    var t9 := v.exposed + t10;
    Assoc(p9, v.exposed, t10);
    var t8 := ExposedOpen + t9;
    Assoc(p8, ExposedOpen, t9);
    var t7 := "`" + t8;
    Assoc(p7, "`", t8);
    var t6 := v.date + t7;
    Assoc(p6, v.date, t7);
    var t5 := DateOpen + t6;
    Assoc(p5, DateOpen, t6);
    var t4 := ")" + t5;
    Assoc(p4, ")", t5);
    var t3 := v.domain + t4;
    Assoc(p3, v.domain, t4);
    var t2 := DomainOpen + t3;
    Assoc(p2, DomainOpen, t3);
    var t1 := "*" + t2;
    Assoc(p1, "*", t2);
    Assoc(BlockOpen, v.name, t1);
  }

  /** A rendered block is read back as the view it was rendered from, and
      whatever follows it is left untouched. */
  lemma ParseBlockOf(v: BlockView, rest: string)
    requires Readable(v)
    ensures ParseBlock(RenderBlock(v) + rest) == Some((v, rest))
  {
    var r6 := "\n\n" + rest;
    var r5 := VerifiedText(v.verified) + r6;
    var r4 := "\n" + r5;
    var r3 := v.exposed + ("`" + r4);
    var r2 := ExposedOpen + r3;
    var r2' := v.date + ("`" + r2);
    var r1 := DateOpen + r2';
    var r1' := v.domain + (")" + r1);
    var r0 := DomainOpen + r1';
    var r0' := v.name + ("*" + r0);
    RenderBlockOnto(v, rest);
    StripPrefixOf(BlockOpen, r0');
    ReadUntilOf(v.name, '*', r0);
    StripPrefixOf(DomainOpen, r1');
    ReadUntilOf(v.domain, ')', r1);
    StripPrefixOf(DateOpen, r2');
    ReadUntilOf(v.date, '`', r2);
    StripPrefixOf(ExposedOpen, r3);
    ReadUntilOf(v.exposed, '`', r4);
    StripPrefixOf("\n", r5);
    assert (VerifiedLabel <= r5) == v.verified by {
      if !v.verified {
        assert r5[0] == UnverifiedLabel[0] != VerifiedLabel[0];
      }
    }
    StripPrefixOf(VerifiedText(v.verified), r6);
    StripPrefixOf("\n\n", rest);
  }

  /** The block of a record shows its name, domain and date, or "Unknown",
      "Unknown site" and "Unknown Date" where they are missing; its data
      classes joined by ", " in their order, or nothing where they are
      missing; and "verified" exactly when IsVerified is present and true. */
  lemma RecordBlockRoundTrip(r: Record, rest: string)
    requires Displayable(r)
    ensures ParseBlock(RecordBlock(r) + rest).Some?
    ensures var (v, after) := ParseBlock(RecordBlock(r) + rest).value;
      after == rest &&
      v.name == (if r.Name.Some? then r.Name.value else "Unknown") &&
      v.domain == (if r.Domain.Some? then r.Domain.value else "Unknown site") &&
      v.date == (if r.BreachDate.Some? then r.BreachDate.value else "Unknown Date") &&
      v.exposed == (if r.DataClasses.Some? then Join(r.DataClasses.value, ", ") else "") &&
      v.verified == (r.IsVerified == Some(true))
  {
    DisplayableReadable(r);
    ParseBlockOf(View(r), rest);
  }

  function ParseBlocks(s: string): Option<seq<BlockView>>
    decreases |s|
  {
    if s == [] then Some([])
    else
      var b :- ParseBlock(s);
      var more :- ParseBlocks(b.1);
      Some([b.0] + more)
  }

  /** The blocks of a record list are read back as the views of the records:
      one per record, in the order of the list, with nothing in between. */
  lemma {:induction false} ParseBlocksOf(rs: seq<Record>)
    requires forall i :: 0 <= i < |rs| ==> Displayable(rs[i])
    ensures ParseBlocks(Blocks(rs)) == Some(Views(rs))
  {
    if rs != [] {
      var block, more := RecordBlock(rs[0]), Blocks(rs[1..]);
      assert Blocks(rs) == block + more;
      DisplayableReadable(rs[0]);
      ParseBlockOf(View(rs[0]), more);
      ParseBlocksOf(rs[1..]);
      ParseBlocksStep(block + more, View(rs[0]), more, Views(rs[1..]));
      ViewsCons(rs);
    }
  }

  lemma ViewsCons(rs: seq<Record>)
    requires rs != []
    ensures Views(rs) == [View(rs[0])] + Views(rs[1..])
  {
    assert forall i :: 0 <= i < |rs| ==> Views(rs)[i] == ([View(rs[0])] + Views(rs[1..]))[i];
  }

  lemma ParseBlocksStep(s: string, v: BlockView, rest: string, vs: seq<BlockView>)
    requires ParseBlock(s) == Some((v, rest)) && ParseBlocks(rest) == Some(vs)
    ensures ParseBlocks(s) == Some([v] + vs)
  {
  }

  /** Reads a reply to a 200 response: the count in the header, the email,
      and the blocks that follow. */
  function ParseFound(s: string): Option<(nat, string, seq<BlockView>)> {
    var r0 :- StripPrefix(HeaderOpen, s);
    var count :- ReadUntil(r0, ' ');
    var n :- ParseNat(count.0);
    var r1 :- StripPrefix(CountTail, count.1);
    var email :- ReadUntil(r1, '`');
    var r2 :- StripPrefix(EmailTail, email.1);
    var blocks :- ParseBlocks(r2);
    Some((n, email.0, blocks))
  }

  /** The reply to a 200 response, with the concatenation nested to the right. */
  lemma FoundReplyNested(email: string, rs: seq<Record>)
    ensures FoundReply(email, rs) ==
      HeaderOpen + (NatToDecimal(|rs|) + (" " + (CountTail + (email + ("`" + (EmailTail + Blocks(rs)))))))
  {
    var p1 := HeaderOpen + NatToDecimal(|rs|);
    var p2 := p1 + " ";
    var p3 := p2 + CountTail;
    var p4 := p3 + email;
    var p5 := p4 + "`";
    var t5 := EmailTail + Blocks(rs);
    Assoc(p5, EmailTail, Blocks(rs));
    var t4 := "`" + t5;
    Assoc(p4, "`", t5);
    var t3 := email + t4;
    Assoc(p3, email, t4);
    var t2 := CountTail + t3;
    Assoc(p2, CountTail, t3);
    var t1 := " " + t2;
    Assoc(p1, " ", t2);
    Assoc(HeaderOpen, NatToDecimal(|rs|), t1);
  }

  /** The reply to a 200 response states the number of records, the email
      and, block by block in list order, the view of each record. */
  lemma FoundReplyRoundTrip(email: string, rs: seq<Record>)
    requires '`' !in email
    requires forall i :: 0 <= i < |rs| ==> Displayable(rs[i])
    ensures ParseFound(FoundReply(email, rs)) == Some((|rs|, email, Views(rs)))
  {
    var digits := NatToDecimal(|rs|);
    var r2 := EmailTail + Blocks(rs);
    var r1' := email + ("`" + r2);
    var r1 := CountTail + r1';
    var r0 := digits + (" " + r1);
    FoundReplyNested(email, rs);
    StripPrefixOf(HeaderOpen, r0);
    ReadUntilOf(digits, ' ', r1);
    ParseNatOf(|rs|);
    StripPrefixOf(CountTail, r1');
    ReadUntilOf(email, '`', r2);
    StripPrefixOf(EmailTail, Blocks(rs));
    ParseBlocksOf(rs);
  }

  function ParseGoodNews(s: string): Option<string> {
    var r :- StripPrefix(GoodOpen, s);
    if |r| >= |GoodClose| && r[|r| - |GoodClose|..] == GoodClose then Some(r[..|r| - |GoodClose|]) else None
  }

  /** The 404 reply names the email, whatever characters it holds. */
  lemma GoodNewsRoundTrip(email: string)
    ensures ParseGoodNews(GoodNewsReply(email)) == Some(email)
  {
    var r := email + GoodClose;
    assert GoodNewsReply(email) == GoodOpen + r;
    StripPrefixOf(GoodOpen, r);
    assert |GoodClose| == 2;
    assert r[|r| - |GoodClose|..] == GoodClose;
    assert r[..|r| - |GoodClose|] == email;
  }

  function ParseError(s: string): Option<(int, string)> {
    var r0 :- StripPrefix(ErrorOpen, s);
    var code :- ReadUntil(r0, ' ');
    var status :- ParseInt(code.0);
    var body :- StripPrefix("\U{2014} ", code.1);
    Some((status, body))
  }

  /** The reply to any other status gives back that status code and the raw
      body unchanged, whatever the body holds. */
  lemma ErrorReplyRoundTrip(status: int, body: string)
    ensures ParseError(ErrorReply(status, body)) == Some((status, body))
  {
    var digits := IntToDecimal(status);
    var r1 := "\U{2014} " + body;
    assert ErrorDash == " " + "\U{2014} ";
    Assoc(ErrorOpen + digits, ErrorDash, body);
    Assoc(" ", "\U{2014} ", body);
    Assoc(ErrorOpen, digits, " " + r1);
    assert ErrorReply(status, body) == ErrorOpen + (digits + (" " + r1));
    StripPrefixOf(ErrorOpen, digits + (" " + r1));
    ReadUntilOf(digits, ' ', r1);
    ParseIntOf(status);
    StripPrefixOf("\U{2014} ", body);
  }

  /** Reads any reply. The reply shapes are told apart by their first
      character and, among those opening with a cross mark, by the third. */
  function ReadReply(s: string): ReplyView {
    if |s| < 3 then Unreadable
    else if s[0] == '\U{274C}' then ReadCrossReply(s)
    else if s[0] == '\U{2705}' then ReadGoodNewsReply(s)
    else ReadFoundReply(s)
  }

  function ReadCrossReply(s: string): ReplyView
    requires |s| >= 3
  {
    if s[2] == 'I' then ReadInvalidReply(s)
    else if s[2] == 'E' then ReadErrorReply(s)
    else if s == FaultReply then Failed
    else Unreadable
  }

  function ReadInvalidReply(s: string): ReplyView {
    match StripPrefix(InvalidOpen, s)
    case Some(email) => Invalid(email)
    case None => Unreadable
  }

  function ReadErrorReply(s: string): ReplyView {
    match ParseError(s)
    case Some((status, body)) => ApiError(status, body)
    case None => Unreadable
  }

  function ReadGoodNewsReply(s: string): ReplyView {
    match ParseGoodNews(s)
    case Some(email) => NoBreaches(email)
    case None => Unreadable
  }

  function ReadFoundReply(s: string): ReplyView {
    match ParseFound(s)
    case Some((n, email, blocks)) => Found(n, email, blocks)
    case None => Unreadable
  }

  /** What the reply to `text` should tell the user, given the lookup outcome. */
  function Meaning(text: string, outcome: HttpOutcome): ReplyView {
    var email := Strip(text);
    if !IsPlausibleEmail(email) then Invalid(email)
    else
      match outcome
      case Fault => Failed
      case Response(status, body, json) =>
        if status == 200 then
          match json
          case Some(rs) => Found(|rs|, email, Views(rs))
          case None => Failed
        else if status == 404 then NoBreaches(email)
        else ApiError(status, body)
  }

  /** The outcome a reply can be read back from: only the breach list of a
      200 response is constrained, by the characters that delimit its text. */
  predicate ReadableOutcome(email: string, outcome: HttpOutcome) {
    outcome.Response? && outcome.status == 200 && outcome.json.Some? ==>
      '`' !in email && forall i :: 0 <= i < |outcome.json.value| ==> Displayable(outcome.json.value[i])
  }

  lemma ReadInvalid(email: string)
    ensures ReadReply(InvalidReply(email)) == Invalid(email)
  {
    var s := InvalidReply(email);
    assert s[0] == '\U{274C}' && s[2] == 'I';
    StripPrefixOf(InvalidOpen, email);
  }

  lemma ReadFault()
    ensures ReadReply(FaultReply) == Failed
  {
    assert FaultReply[0] == '\U{274C}' && FaultReply[2] == 'S';
  }

  lemma ReadFound(email: string, rs: seq<Record>)
    requires '`' !in email
    requires forall i :: 0 <= i < |rs| ==> Displayable(rs[i])
    ensures ReadReply(FoundReply(email, rs)) == Found(|rs|, email, Views(rs))
  {
    var s := FoundReply(email, rs);
    FoundReplyRoundTrip(email, rs);
    FoundReplyNested(email, rs);
    assert s[0] == HeaderOpen[0];
    ReadFoundAt(s, |rs|, email, Views(rs));
  }

  lemma ReadFoundAt(s: string, n: nat, email: string, blocks: seq<BlockView>)
    requires |s| >= 3 && s[0] == '\U{26A0}'
    requires ParseFound(s) == Some((n, email, blocks))
    ensures ReadReply(s) == Found(n, email, blocks)
  {
  }

  lemma ReadGoodNews(email: string)
    ensures ReadReply(GoodNewsReply(email)) == NoBreaches(email)
  {
    var s := GoodNewsReply(email);
    GoodNewsRoundTrip(email);
    assert s[0] == '\U{2705}';
  }

  lemma ReadError(status: int, body: string)
    ensures ReadReply(ErrorReply(status, body)) == ApiError(status, body)
  {
    ErrorReplyOpening(status, body);
    ErrorReplyRoundTrip(status, body);
    ReadErrorAt(ErrorReply(status, body), status, body);
  }

  lemma ErrorReplyOpening(status: int, body: string)
    ensures |ErrorReply(status, body)| >= 3
    ensures ErrorReply(status, body)[0] == '\U{274C}' && ErrorReply(status, body)[2] == 'E'
  {
    Assoc(ErrorOpen + IntToDecimal(status), ErrorDash, body);
    Assoc(ErrorOpen, IntToDecimal(status), ErrorDash + body);
    assert ErrorReply(status, body) == ErrorOpen + (IntToDecimal(status) + (ErrorDash + body));
  }

  lemma ReadErrorAt(s: string, status: int, body: string)
    requires |s| >= 3 && s[0] == '\U{274C}' && s[2] == 'E'
    requires ParseError(s) == Some((status, body))
    ensures ReadReply(s) == ApiError(status, body)
  {
  }

  /** Every reply the handler sends is read back as what it should say: the
      branch is the one the validity of the text and the status select, and
      the values in it are those of the input. */
  lemma RespondMeans(text: string, outcome: HttpOutcome)
    requires ReadableOutcome(Strip(text), outcome)
    ensures ReadReply(Respond(text, outcome).reply) == Meaning(text, outcome)
  {
    var email := Strip(text);
    var reply := Respond(text, outcome).reply;
    if !IsPlausibleEmail(email) {
      assert reply == InvalidReply(email);
      ReadInvalid(email);
    } else {
      assert reply == OutcomeReply(email, outcome);
      match outcome
      case Fault =>
        ReadFault();
      case Response(status, body, json) =>
        if status == 200 && json.Some? {
          assert reply == FoundReply(email, json.value);
          ReadFound(email, json.value);
        } else if status == 200 {
          ReadFault();
        } else if status == 404 {
          assert reply == GoodNewsReply(email);
          ReadGoodNews(email);
        } else {
          assert reply == ErrorReply(status, body);
          ReadError(status, body);
        }
    }
  }
}
