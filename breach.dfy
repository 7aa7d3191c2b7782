/** The decision `check_breach` makes for one incoming message: strip the
    text, accept it as an email only if it holds both '@' and '.', and turn
    the outcome of the breach lookup into the reply text. The HTTP call and
    its JSON decoding are not modelled; their outcome is an input. */
module Breach {
  import opened Wrappers
  import opened Strings

  /** One element of the breach list the lookup service returns. Every field
      may be absent from the JSON object. */
  datatype Record = Record(
    Name: Option<string>,
    BreachDate: Option<string>,
    Domain: Option<string>,
    DataClasses: Option<seq<string>>,
    IsVerified: Option<bool>)

  /** What the GET request came to: a fault raised by the client library, or
      a response with its status code, its raw body, and what the 200 branch
      makes of the body. `Some(rs)` when the body decodes to a JSON list of
      breach objects `rs`; also `Some([])` when it decodes to an empty object
      or an empty string, which `len` counts as 0 and the loop never enters.
      `None` when anything from the decoding up to the field reads in the loop
      raises: a body that is not JSON, `null` or a number (`len` raises), or
      a non-empty object, a non-empty string or a list holding a non-object
      (`.get` raises). */
  datatype HttpOutcome =
    | Fault
    | Response(status: int, text: string, json: Option<seq<Record>>)

  /** The request the handler issues (None: no request at all) and the one
      reply it sends back. */
  datatype Exchange = Exchange(request: Option<string>, reply: string)

  const ApiPrefix := "https://haveibeenpwned.com/api/v3/breachedaccount/"

  // The emoji in the replies, by code point: U+274C CROSS MARK, U+2705 WHITE
  // HEAVY CHECK MARK, U+26A0 WARNING SIGN followed by U+FE0F VARIATION
  // SELECTOR-16, U+1F510 CLOSED LOCK WITH KEY, U+1F4C5 CALENDAR and U+1F4C2
  // OPEN FILE FOLDER. U+2014 is an EM DASH.

  const InvalidOpen := "\U{274C} Invalid email: "
  const GoodOpen := "\U{2705} Good news! No breaches found for `"
  const GoodClose := "`."
  const ErrorOpen := "\U{274C} Error: "
  const ErrorDash := " \U{2014} "
  // Written as two literals: the verifier reads the characters of a short
  // literal directly, which the proofs that classify this reply rely on.
  const FaultReply := "\U{274C} Something went wrong" + " while checking the breach."

  const HeaderOpen := "\U{26A0}\U{FE0F} *"
  const CountTail := "breaches found for* `"
  const EmailTail := ":\n\n"

  const BlockOpen := "\U{1F510} *"
  const DomainOpen := " ("
  const DateOpen := "\n\U{1F4C5} Breach Date: `"
  const ExposedOpen := "\n\U{1F4C2} Exposed: `"
  const VerifiedLabel := "\U{2705} Verified"
  const UnverifiedLabel := "\U{26A0}\U{FE0F} Unverified"

  const UnknownName := "Unknown"
  const UnknownDate := "Unknown Date"
  const UnknownSite := "Unknown site"
  const ClassSeparator := ", "

  /** The loose check: an email must contain an '@' and a '.', anywhere. */
  predicate IsPlausibleEmail(email: string) {
    '@' in email && '.' in email
  }

  /** The lookup URL: the fixed endpoint with the email appended unescaped. */
  function RequestUrl(email: string): (url: string)
    ensures StripPrefix(ApiPrefix, url) == Some(email)
  {
    StripPrefixOf(ApiPrefix, email);
    ApiPrefix + email
  }

  function InvalidReply(email: string): string {
    InvalidOpen + email
  }

  function GoodNewsReply(email: string): string {
    GoodOpen + email + GoodClose
  }

  function ErrorReply(status: int, body: string): string {
    ErrorOpen + IntToDecimal(status) + ErrorDash + body
  }

  /** The values one breach block shows, after the defaults are applied. */
  datatype BlockView = BlockView(name: string, domain: string, date: string, exposed: string, verified: bool)

  /** The fields of a record as its block shows them: a fixed placeholder for
      each missing text field, the data classes joined by ", " (nothing when
      they are missing), and "verified" only for a present `true`. */
  function View(r: Record): BlockView {
    BlockView(
      r.Name.GetOr(UnknownName),
      r.Domain.GetOr(UnknownSite),
      r.BreachDate.GetOr(UnknownDate),
      Join(r.DataClasses.GetOr([]), ClassSeparator),
      r.IsVerified == Some(true))
  }

  function Views(rs: seq<Record>): (vs: seq<BlockView>)
    ensures |vs| == |rs|
    ensures forall i :: 0 <= i < |rs| ==> vs[i] == View(rs[i])
  {
    seq(|rs|, i requires 0 <= i < |rs| => View(rs[i]))
  }

  function VerifiedText(verified: bool): string {
    if verified then VerifiedLabel else UnverifiedLabel
  }

  function RenderBlock(v: BlockView): string {
    BlockOpen + v.name + "*" + DomainOpen + v.domain + ")" + DateOpen + v.date + "`" +
    ExposedOpen + v.exposed + "`" + "\n" + VerifiedText(v.verified) + "\n\n"
  }

  /** The block appended to the reply for one breach record. */
  function RecordBlock(r: Record): string {
    RenderBlock(View(r))
  }

  /** The blocks of all records, in the order of the list. */
  function Blocks(rs: seq<Record>): string {
    if rs == [] then [] else RecordBlock(rs[0]) + Blocks(rs[1..])
  }

  lemma {:induction false} BlocksAppend(rs: seq<Record>, r: Record)
    ensures Blocks(rs + [r]) == Blocks(rs) + RecordBlock(r)
  {
    if rs == [] {
      assert [] + [r] == [r];
    } else {
      var first := RecordBlock(rs[0]);
      assert (rs + [r])[0] == rs[0] && (rs + [r])[1..] == rs[1..] + [r];
      assert Blocks(rs + [r]) == first + Blocks(rs[1..] + [r]);
      BlocksAppend(rs[1..], r);
      Assoc(first, Blocks(rs[1..]), RecordBlock(r));
    }
  }

  function Header(count: nat, email: string): string {
    HeaderOpen + NatToDecimal(count) + " " + CountTail + email + "`" + EmailTail
  }

  /** The reply to a 200 response: the count header, then one block per record. */
  function FoundReply(email: string, rs: seq<Record>): string {
    Header(|rs|, email) + Blocks(rs)
  }

  /** The reply for an accepted email, chosen by the outcome of the lookup:
      a fault, or a 200 body that does not decode, gives the generic message. */
  function OutcomeReply(email: string, outcome: HttpOutcome): string {
    match outcome
    case Fault => FaultReply
    case Response(status, text, json) =>
      if status == 200 then
        match json
        case Some(rs) => FoundReply(email, rs)
        case None => FaultReply
      else if status == 404 then GoodNewsReply(email)
      else ErrorReply(status, text)
  }

  /** `check_breach` on the message text `text`, given what the lookup would return. */
  function Respond(text: string, outcome: HttpOutcome): Exchange {
    var email := Strip(text);
    if !IsPlausibleEmail(email) then Exchange(None, InvalidReply(email))
    else Exchange(Some(RequestUrl(email)), OutcomeReply(email, outcome))
  }

  /** A request is issued exactly when the stripped text holds both '@' and
      '.', and then it asks for exactly that stripped text. */
  lemma RequestIffPlausible(text: string, outcome: HttpOutcome)
    ensures Respond(text, outcome).request.Some? <==> '@' in Strip(text) && '.' in Strip(text)
    ensures Respond(text, outcome).request.Some? ==>
      StripPrefix(ApiPrefix, Respond(text, outcome).request.value) == Some(Strip(text))
  {
  }

  /** A rejected text gives the invalid-email reply naming the stripped text,
      whatever the lookup would have returned. */
  lemma RejectedIgnoresOutcome(text: string, o1: HttpOutcome, o2: HttpOutcome)
    requires !IsPlausibleEmail(Strip(text))
    ensures Respond(text, o1) == Respond(text, o2) == Exchange(None, InvalidOpen + Strip(text))
  {
  }

  /** Leading and trailing whitespace never changes what the handler does. */
  lemma PaddingIgnored(pre: string, text: string, post: string, outcome: HttpOutcome)
    requires AllSpace(pre) && AllSpace(post)
    ensures Respond(pre + text + post, outcome) == Respond(text, outcome)
  {
    StripPadded(pre, text, post);
  }
}
