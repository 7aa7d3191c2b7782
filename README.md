# BreachWatcher: the breach-lookup handler in Dafny

BreachWatcher is a Telegram bot. A user sends it an email address and it looks
the address up with the HaveIBeenPwned v3 `breachedaccount` API. This project
models the bot's message handler, `check_breach`. The handler strips the
message text and accepts it as an email only if it contains both `@` and `.`.
It then builds the lookup URL and turns the outcome of the lookup into one
reply:

- a list of breaches for status 200;
- a "good news" line for 404;
- an error line echoing the status code and body for any other status;
- one generic message when the request or the JSON decoding fails.

The HTTP call and the JSON decoding are not modelled. Their result is passed in
as a value of `Breach.HttpOutcome`:

- `Fault`: the client library raised an exception;
- `Response(status, text, json)`: a response. `json` is `Some(records)` when
  the body decodes to a list of breach objects, and `Some([])` when it decodes
  to an empty object or empty string (`len` gives 0 and the loop does not
  run). It is `None` when something from the decoding through the loop's
  field reads raises.

A `Record` has five optional fields: `Name`, `BreachDate`, `Domain`,
`DataClasses` and `IsVerified`.

Files and modules:

- `wrappers.dfy` (`Wrappers`): the `Option` type.
- `strings.dfy` (`Strings`): the Python built-ins the handler uses. These are
  `str.strip()` (`Strip`), `str.join` (`Join`) and integer rendering
  (`NatToDecimal`, `IntToDecimal`). The module also holds the readers that undo
  them (`Split`, `ParseNat`, `ParseInt`, `StripPrefix`, `ReadUntil`).
- `breach.dfy` (`Breach`): the data model, the constants of every reply, and
  the handler as a pure function. `Respond(text, outcome)` gives the request
  made (or `None`) and the reply sent.
- `handler.dfy` (`Handler`): the handler written the way the source runs it.
  `CheckBreach` builds the 200 reply in `BuildFoundReply`, which appends one
  block per record in a loop. `BuildFoundReply` is proved to compute
  `Breach.FoundReply`, and `CheckBreach` to compute `Respond`.
  The module also holds the `/start` greeting as a constant.
- `reading.dfy` (`Reading`): a decoder for each reply shape, and round-trip
  lemmas. They show that a reply gives back exactly what it was built from: the
  branch taken, the count, the email, every block in list order, every field
  with its placeholder, the status code and the raw body.

The handler is a function of its input, so two calls with the same text and the
same outcome give the same reply. This needs no lemma.

Two details of the code that are easy to misremember, modelled as written:

- The invalid-email reply names the stripped text, not the original text
  (main.py:22, main.py:26).
- A missing breach date shows as `Unknown Date`, not `Unknown` (main.py:45).

## Model

| member | source | states |
|---|---|---|
| `Strings.Strip` | main.py:22 | The stripped text is a slice of the input. Only Python whitespace (the `str.isspace` set) lies around it, and it neither starts nor ends with whitespace. |
| `Strings.StripIsUnique` | main.py:22 | That description of stripping allows exactly one result, so `Strip` is fully specified by it. |
| `Strings.StripPadded` | main.py:22 | Whitespace added before and after a text does not change what `Strip` returns. |
| `Strings.Join` | main.py:46 | Joining no classes gives the empty text. One class gives that class. Several start with the first class followed by the separator. |
| `Strings.JoinAvoids` | main.py:46 | A character found in no class and not in the separator does not occur in the joined text. |
| `Strings.SplitJoin` | main.py:46 | When no class contains `,`, splitting the joined text on `", "` gives back the same non-empty list of classes, in the same order. |
| `Strings.NatToDecimal` | main.py:41 | The count is rendered as a non-empty string of decimal digits with no leading zero. Zero renders as `"0"`. |
| `Strings.ParseNatOf` | main.py:41 | Reading the rendered digits back gives the number that was rendered. |
| `Strings.IntToDecimal` | main.py:59 | A status code renders as a non-empty text without spaces. It starts with a minus sign exactly when the code is negative, and the rest is a non-empty run of decimal digits with a leading zero exactly when the code is zero. |
| `Strings.ParseIntOf` | main.py:59 | Reading a rendered status code back gives the code that was rendered. |
| `Breach.RequestUrl` | main.py:29 | The URL is the fixed `breachedaccount/` endpoint followed by the email, unescaped. Removing the endpoint gives back exactly the email. |
| `Breach.BlocksAppend` | main.py:43-55 | Adding one more record to the list adds exactly that record's block at the end of the text. |
| `Breach.RequestIffPlausible` | main.py:25-29 | A request is issued exactly when the stripped text contains both `@` and `.`. The request then asks for exactly the stripped text. |
| `Breach.RejectedIgnoresOutcome` | main.py:25-27 | For a rejected text there is no request, and the reply is `❌ Invalid email: ` followed by the stripped text. The lookup outcome has no influence. |
| `Breach.PaddingIgnored` | main.py:22-29 | Leading or trailing whitespace in the message never changes the request or the reply. |
| `Reading.ParseBlockOf` | main.py:50-55 | A block whose fields avoid their closing characters reads back as exactly the name, domain, date, joined classes and verified flag it was made from. Whatever follows the block is left untouched. |
| `Reading.RecordBlockRoundTrip` | main.py:44-55 | A record's block shows each text field that is present, or else its placeholder: `Unknown`, `Unknown site` or `Unknown Date`. It shows the classes joined by `", "`, or nothing when they are missing. It is marked verified exactly when `IsVerified` is present and true. |
| `Reading.ParseBlocksOf` | main.py:43-55 | The blocks of a record list read back as one view per record, in list order, with nothing before, between or after them. |
| `Reading.FoundReplyRoundTrip` | main.py:39-55 | The 200 reply reads back as the decimal record count, the email, and exactly the list of record views in input order. |
| `Reading.GoodNewsRoundTrip` | main.py:56-57 | The 404 reply reads back as the queried email, whatever characters the email holds. |
| `Reading.ErrorReplyRoundTrip` | main.py:58-59 | The reply to any other status reads back as that status code and the unchanged raw body. |
| `Reading.ReadInvalid` | main.py:25-26 | The invalid-email reply is classified as a rejection and names the stripped text. |
| `Reading.ReadFault` | main.py:63-65 | The generic failure reply is classified as a failure. |
| `Reading.ReadFound` | main.py:39-55 | The 200 reply is classified as a breach list with its count, email and blocks. |
| `Reading.ReadGoodNews` | main.py:56-57 | The 404 reply is classified as "no breaches" for its email. |
| `Reading.ReadError` | main.py:58-59 | The reply to any other status is classified as an API error with its code and body. |
| `Reading.RespondMeans` | main.py:21-65 | Every reply reads back as the branch that the text's validity and the outcome select. A text without `@` or `.` is rejected. A fault, or a 200 body that does not decode, gives the generic failure. Status 200 lists the records, 404 gives good news, and any other status gives an error. Each branch carries the values of the input. |
| `Handler.BuildFoundReply` | main.py:41-55 | The loop that starts from the header and appends one block per record computes exactly the header followed by the blocks of all records, in order. |
| `Handler.CheckBreach` | main.py:21-65 | The handler as it runs (strip, validate, build the URL, branch on the outcome) produces exactly the request and the reply that `Breach.Respond` specifies. |

## Left out

- The Telegram framework is left out: `Updater`, the dispatcher, handler registration, `reply_text`, polling and `main` (main.py:5, main.py:68-80). The greeting that `start` sends (main.py:13-18) is only the constant `Handler.StartGreeting`.
- Sending is left out. The reply is the string the handler would send. The send at main.py:61 is inside the `try`, so a send failure would also produce the generic failure message; the model does not cover that case.
- Markdown rendering (`parse_mode='Markdown'`) is left out. The model produces the raw reply text only.
- Loading the environment and secrets (main.py:8-10) is left out, as are the `hibp-api-key` and `User-Agent` header values (main.py:30-33). They are opaque configuration strings with no behaviour to model.
- `requests.get` and `response.json()` (main.py:36, main.py:40) are left out. They are network I/O and library parsing, represented by the `HttpOutcome` input. A 200 body is represented by what the code makes of it. A list of objects becomes its records. An empty object or empty string becomes the empty list, because `len` gives 0 and the loop does not run (main.py:41-43). Any other body raises somewhere: at `response.json()` if it is not JSON, at `len` (main.py:41) for `null` or a number, or at `breach.get` (main.py:44) for a non-empty object, a non-empty string or a list holding a non-object. It becomes `None`, which gives the generic failure message.
- JSON `null` is not modelled. `dict.get` substitutes its default only for an absent key, so a present `null` would render as `None`. The model has only present and absent fields. It also assumes that present fields are strings, a list of strings, or a boolean.
- The debug and error `print` calls (main.py:23, main.py:37, main.py:64) are left out. They are diagnostic output only.
- `Strings.Strip` uses a fixed whitespace set: the 29 characters for which Python's `str.isspace` holds. It does not consult a Unicode database at run time.
- The round-trip lemmas for the 200 reply require that fields avoid certain characters: a name without `*`, a domain without `)`, and a date, data classes and email without a backtick. Text that contains those characters is still rendered exactly as in the source, but cannot always be read back unambiguously.
