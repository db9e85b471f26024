# Authenticated outbound-call dispatcher, modelled in Dafny

The service exposes one HTTP route. A request must carry HTTP basic-auth
credentials equal to the configured `APP_USER` / `APP_PASSWORD`. Then four
environment values must be set: the Twilio account SID, the auth token, the
origin number and the destination list. The destination list is split on
commas, and each piece is stripped of surrounding whitespace. Pieces that
strip to nothing are dropped. One Twilio call is placed per remaining
destination, strictly in order. Each outcome becomes one report line:
`[Success] <number>: <sid>` or `[Error] <number>: <message>`. A failed call
never stops the batch. The lines are joined with newlines and returned with
status 200. If the Twilio client cannot be built, the response is
`System Error: <message>` with status 500.

Modules, one per concern of `main.py`:

- `Wrappers` (wrappers.dfy): `Option`, for absent environment variables and
  an absent `Authorization` header.
- `PyStr` (pystr.dfy): Python's `str.strip()`, `str.split(sep)` and
  `sep.join(parts)`. `IsSpace` is Python's `str.isspace()` set, written out.
- `Config` (config.dfy): the environment as an immutable record `Env`, and
  Python truthiness (`Truthy`: present and non-empty).
- `Auth` (auth.dfy): `check_auth`, and the `Authorized` test of `make_call`.
- `Destinations` (destinations.dfy): the list comprehension that parses
  `TO_PHONE_NUMBER`.
- `Dispatch` (dispatch.dfy): the per-destination loop, as a method over a
  sequence proved against the `Report` specification function.
- `Handler` (handler.dfy): `authenticate` and `make_call`, whose contract
  covers every path: 401, the two 500 validation errors, the 500 system
  error, and 200.

External collaborators are parameters:

- The environment is the `Env` record.
- The request's basic-auth header is `Option<BasicAuth>`.
- The Twilio client constructor is `clientError: Option<string>`: the
  message it raises, or `None` when it succeeds.
- `client.calls.create` is `place: Provider`. It gives the outcome of the
  call at each position of the batch: `Created(sid)` or `Raised(message)`.
- `MakeCall` also returns the calls it placed, in order. This is how the
  model states that no call is placed on the 401 and 500 paths.

The promise of "exactly one line per destination" holds for the body text
only when no destination, SID or error message contains a newline itself.
Nothing in the code prevents that: a Twilio error message can span several
lines. `Dispatch.ReportBodyLines` proves the line count under that
condition. `Dispatch.MultiLineMessageSplitsLine` shows the limit: one
destination whose error message holds a newline gives a two-line body. The
report as a sequence (`Report`) always has exactly one entry per
destination.

The system-error body carries the exception's message
(`System Error: <message>`), as the code at main.py:70-71 does. It is not a
generic text.

## Model

| member | source | states |
|---|---|---|
| `Auth.CheckAuth` | main.py:8-14 | accepting implies APP_USER and APP_PASSWORD are set and equal to the supplied username and password, which are then non-empty |
| `Auth.FailClosed` | main.py:12-13 | with APP_USER or APP_PASSWORD unset or empty, no request is authorized, whatever credentials it carries |
| `Auth.CheckAuthExact` | main.py:14 | with both configured, the check accepts exactly when username and password both match |
| `Handler.MakeCall` | main.py:17-71 | no or wrong credentials give the 401 challenge (fixed body, `WWW-Authenticate: Basic realm="Login Required"`) and no call; a missing or empty value among account SID, token, from-number and destination string gives 500 and no call; an empty parsed list gives 500 and no call; a failed client construction gives 500 `System Error: <msg>` and no call; otherwise 200 with the newline-join of one report line per parsed destination, and exactly one call per destination, in order, from FROM_PHONE_NUMBER; calls are placed exactly when the status is 200 |
| `Handler.BlankDestinationsRejected` | main.py:39-47 | a non-empty destination value made only of whitespace and commas passes the configuration check and parses to the empty list |
| `Auth.Authorized` | main.py:26-27 | a request passes the gate exactly when APP_USER and APP_PASSWORD are set and non-empty and the request carries basic-auth credentials equal to them |
| `Handler.Authenticate` | main.py:17-21 | the challenge response has status 401, the fixed two-line body and the header `WWW-Authenticate: Basic realm="Login Required"` |
| `Config.Truthy` | main.py:39 | an environment value is truthy exactly when it is present and not the empty string |
| `Config.ToNumbers` | main.py:37 | TO_PHONE_NUMBER read with default `""`: its value when present, and empty exactly when it is unset or empty |
| `Config.Complete` | main.py:39 | `all([...])` holds exactly when account SID, auth token, from-number and destination string are each present and non-empty |
| `PyStr.IsSpaceIsPythonWhitespace` | main.py:44 | the whitespace test used by strip is exactly Python's `str.isspace()` set, listed character by character |
| `PyStr.LStrip` | main.py:44 | left-stripping never lengthens the string and leaves it empty or starting with a non-whitespace character |
| `PyStr.RStrip` | main.py:44 | right-stripping never lengthens the string and leaves it empty or ending with a non-whitespace character |
| `PyStr.StripTrimmed` | main.py:44 | a non-empty string with no whitespace at either end is its own strip |
| `PyStr.Join` | main.py:68 | joining no parts gives the empty string, and otherwise the first part starts the result; `SplitJoin` and `JoinSplit` make it the inverse of split |
| `PyStr.Strip` | main.py:44 | the stripped string is empty or starts and ends with a non-whitespace character |
| `PyStr.LStripSuffix` | main.py:44 | left-stripping keeps a suffix that does not start with whitespace and drops only whitespace |
| `PyStr.RStripPrefix` | main.py:44 | right-stripping keeps a prefix that does not end with whitespace and drops only whitespace |
| `PyStr.StripIsSlice` | main.py:44 | the stripped string is a contiguous slice of the input with only whitespace before and after it |
| `PyStr.StripChars` | main.py:44 | every character of the stripped string occurs in the input |
| `PyStr.StripEmpty` | main.py:44 | a piece strips to the empty string exactly when it is all whitespace |
| `PyStr.StripIdempotent` | main.py:44 | stripping twice equals stripping once |
| `PyStr.Split` | main.py:44 | a split has at least one piece and no piece contains the separator |
| `PyStr.JoinSplit` | main.py:44 | joining the pieces with the separator rebuilds the string |
| `PyStr.SplitNoSep` | main.py:44 | a string without the separator splits into itself |
| `PyStr.SplitAfterPiece` | main.py:44 | splitting `p + sep + t` with separator-free `p` gives `p` and then the pieces of `t` |
| `PyStr.SplitJoin` | main.py:44 | splitting the join of separator-free parts (at least one) gives back the parts |
| `Destinations.Keep` | main.py:44 | keeps at most as many entries as pieces, each non-empty with no whitespace at either end |
| `Destinations.KeepFromPieces` | main.py:44 | each kept entry is the stripped form of some piece |
| `Destinations.KeepEmpty` | main.py:44 | nothing is kept exactly when every piece strips to empty |
| `Destinations.KeepAppend` | main.py:44 | keeping distributes over concatenation, so the pieces' order is preserved |
| `Destinations.KeepTrimmed` | main.py:44 | already-trimmed pieces are all kept, unchanged |
| `Destinations.Parse` | main.py:44 | every parsed destination is non-empty, has no leading or trailing whitespace and contains no comma |
| `Destinations.ParseStripped` | main.py:44 | stripping a parsed destination again leaves it unchanged |
| `Destinations.ParseOrder` | main.py:44 | the destinations of `a + "," + b` are those of `a` followed by those of `b` |
| `Destinations.ParseJoin` | main.py:44 | a list of clean destinations is recovered by parsing its comma-join |
| `Destinations.ReparseIdempotent` | main.py:44 | parsing the comma-join of a parsed list gives the same list |
| `Destinations.ParseEmpty` | main.py:44-47 | the list is empty exactly when the value holds only whitespace and commas |
| `Destinations.ParseDropsBlankPieces` | main.py:44 | `"d1, d2,, "` parses to `[d1, d2]` for clean `d1`, `d2` |
| `Dispatch.ResultLine` | main.py:62-65 | a line starts with `[Success] ` exactly when the call was created and with `[Error] ` exactly when it raised |
| `Dispatch.Attempts` | main.py:55-61 | one call per destination, in order: call i goes to destination i from FROM_PHONE_NUMBER |
| `Dispatch.Report` | main.py:49-68 | the report has exactly one line per destination |
| `Dispatch.PlaceCalls` | main.py:49-65 | the loop places exactly the calls `Call(d_i, from)` in destination order and its results are the report, one line per destination |
| `Dispatch.ReportLineKind` | main.py:62-65 | line i starts with `[Success] ` exactly when call i succeeded and with `[Error] ` exactly when it raised, and is `[Success] d_i: sid_i` or `[Error] d_i: msg_i` |
| `Dispatch.EveryCallCreated` | main.py:55-62 | when every call succeeds, every line is the `[Success]` line of its own destination, in order |
| `Dispatch.FailureIsLocal` | main.py:56-65 | changing the outcome of one call changes no other report line |
| `Dispatch.ResultLineOneLine` | main.py:62-65 | a report line has no newline when its destination and SID or message have none |
| `Dispatch.ReportBodyLines` | main.py:62-68 | for a non-empty batch without embedded newlines, splitting the body on newlines gives back exactly the report, one line per destination |
| `Dispatch.MultiLineMessageSplitsLine` | main.py:62-68 | one destination whose call raises the message `a + "\n" + b` gives a body that splits into two lines, so the one-line-per-destination count needs the newline-free condition |

## Left out

- Flask: app setup, routing, the GET/POST distinction (both behave the same), `Response` objects and content types, `app.run`, the PORT variable and `debug=True`. A response is a `(body, status, optional header)` value.
- `os.environ` lookups: replaced by the `Env` record passed in.
- The Twilio SDK: client construction is the `clientError` parameter, `calls.create` the `place` parameter. The TwiML URL, the account credentials sent to Twilio, and what a call does are not modelled.
- The Python exception mechanism and `str(exception)`: errors are opaque message strings.
- Concurrent requests served by the web server: each request is modelled as one sequential pass.
