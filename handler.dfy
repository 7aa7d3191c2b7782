/** The two message handlers as they run: `start` sends a fixed greeting, and
    `check_breach` strips the text, checks it, and builds its reply, the one
    for a 200 response by appending a block per record. Each is proved to
    compute what the `Breach` module specifies. */
module Handler {
  import opened Wrappers
  import opened Strings
  import opened Breach

  /** The greeting the `/start` command sends (U+1F44B WAVING HAND SIGN, and
      U+2019 RIGHT SINGLE QUOTATION MARK as the apostrophe). */
  const StartGreeting := "\U{1F44B} Welcome to *BreachWatcher Bot*.\n\n" +
    "Send me your *email address* and I\U{2019}ll check if it\U{2019}s " +
    "been exposed in any known data breaches."

  /** The reply to a 200 response, built the way the handler builds it: the
      count header, then for each record in turn its five display values and
      the block made from them appended to the reply. */
  method BuildFoundReply(email: string, data: seq<Record>) returns (reply: string)
    ensures reply == FoundReply(email, data)
  {
    var header := Header(|data|, email);
    reply := header;
    for i := 0 to |data|
      invariant reply == header + Blocks(data[..i])
    {
      var breach := data[i];
      var name := breach.Name.GetOr(UnknownName);
      var date := breach.BreachDate.GetOr(UnknownDate);
      var classes := Join(breach.DataClasses.GetOr([]), ClassSeparator);
      var domain := breach.Domain.GetOr(UnknownSite);
      var verified := if breach.IsVerified == Some(true) then VerifiedLabel else UnverifiedLabel;
      var block := BlockOpen + name + "*" + DomainOpen + domain + ")" + DateOpen + date + "`" +
        ExposedOpen + classes + "`" + "\n" + verified + "\n\n";
      assert block == RecordBlock(breach);
      AppendStep(header, data, i);
      reply := reply + block;
    }
    assert data[..|data|] == data;
  }

  /** Appending the block of record `i` extends the blocks of the records before it. */
  lemma AppendStep(header: string, data: seq<Record>, i: nat)
    requires i < |data|
    ensures header + Blocks(data[..i + 1]) == header + Blocks(data[..i]) + RecordBlock(data[i])
  {
    var done, next := data[..i], data[i];
    assert data[..i + 1] == done + [next];
    BlocksAppend(done, next);
    Assoc(header, Blocks(done), RecordBlock(next));
  }

  /** `check_breach` for the message text `text`, where `outcome` stands for
      what the GET request and the JSON decoding come to. Returns the URL
      requested (None when no request is made) and the reply sent. */
  method CheckBreach(text: string, outcome: HttpOutcome) returns (request: Option<string>, reply: string)
    ensures Exchange(request, reply) == Respond(text, outcome)
  {
    var email := Strip(text);
    if '@' !in email || '.' !in email {
      return None, InvalidOpen + email;
    }
    request := Some(ApiPrefix + email);
    match outcome {
      case Fault =>
        reply := FaultReply;
      case Response(status, body, json) =>
        if status == 200 {
          match json {
            case None =>
              reply := FaultReply;
            case Some(data) =>
              reply := BuildFoundReply(email, data);
          }
        } else if status == 404 {
          reply := GoodOpen + email + GoodClose;
        } else {
          reply := ErrorOpen + IntToDecimal(status) + ErrorDash + body;
        }
    }
  }
}
