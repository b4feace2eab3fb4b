# decky-sunshine controller, modelled in Dafny

decky-sunshine is a Steam Deck plugin that starts, stops and pairs the
Sunshine game-streaming server. Its controller, `SunshineController` in
`py_modules/sunshine.py`, does five things:

- keeps an HTTP Basic `Authorization` value for Sunshine's web API;
- builds and sends JSON requests to `https://127.0.0.1:47990`;
- finds the Sunshine process by reading `pgrep` output;
- launches Sunshine through flatpak after preparing a private `bwrap` copy;
- is meant to install missing dependencies.

The model treats the controller as a functional state machine over the record
`State(authHeader, shellHandle, isFreshInstallation)`. Each operation takes
the record and its view of the outside world as parameters:

- what `pgrep` printed, or that launching it raised;
- the HTTPS server, as a function from request to exchange;
- the JSON reader;
- whether each other `subprocess.Popen` raised;
- `os.getpgid`;
- the host's files and exit codes.

Each operation returns three things:

- the new record;
- the effects it had, in order: requests sent, process launches attempted, signals sent;
- either the Python return value or `Fault`, for an exception that escapes the method.

The modules are:

- `Basics`: bytes, `Option`, `Outcome`.
- `Utf8`: the strict UTF-8 codec, used by `str.encode`/`bytes.decode`.
- `Base64`: the alphabet and padding of section 4 of RFC 4648, with a strict decoder (section 3.5 of RFC 4648) as the encoder's partner.
- `BasicAuth`: the credentials of section 2 of RFC 7617.
- `Pgrep`: `bytes.split()`, Python's `int()` on a token, `getPID` and `isRunning`.
- `Http`: `createRequest`, `request`, `isAuthorized`.
- `Controller`: the controller record and its operations.
- `Dependencies`: `ensureDependencies` as written and as intended.

Three exception paths of the code are easy to overlook, and the model keeps each:

- `killShell` (py_modules/sunshine.py:80): `os.getpgid` runs outside the `try` of `killpg`, so a failed group lookup escapes and the handle is kept.
- `stop` (py_modules/sunshine.py:87, 96-98): `getPID` catches nothing, so a `pgrep` launch that raises, or a token `int()` refuses, escapes from `killSunshine` and from `stop`.
- `setUser` (py_modules/sunshine.py:278-279): the test is `or`, so either truthy current credential reaches the `dict += dict` that raises `TypeError`.

## Model

| member | source | states |
|---|---|---|
| Utf8.Encode | py_modules/sunshine.py:112 | The encoding is at least as long as the text, and empty only for the empty text |
| Utf8.Decode | py_modules/sunshine.py:130 | A decoded text is no longer than its bytes and empty only for no bytes; ASCII bytes always decode, one character each |
| Utf8.EncodeChar | py_modules/sunshine.py:112 | A character takes 1 to 4 bytes by its code point; only the first byte is not a continuation byte, and ASCII stays one byte |
| Utf8.DecodeEncode | py_modules/sunshine.py:112 | Strict UTF-8 decoding reads back every encoded string |
| Utf8.EncodeDecode | py_modules/sunshine.py:130 | Every byte string the strict decoder accepts is the encoding of what it decodes to |
| Utf8.EncodeAscii | py_modules/sunshine.py:112 | ASCII text encodes to its own code points |
| Base64.Encode | py_modules/sunshine.py:112 | The encoding of n bytes is 4*ceil(n/3) characters |
| Base64.KnownAnswersShort | py_modules/sunshine.py:112 | The test vectors of section 10 of RFC 4648 for "", "f", "fo" and "foo" |
| Base64.KnownAnswerFoob | py_modules/sunshine.py:112 | The RFC 4648 vector for "foob": "Zm9vYg==" |
| Base64.KnownAnswerFooba | py_modules/sunshine.py:112 | The RFC 4648 vector for "fooba": "Zm9vYmE=" |
| Base64.SymbolOfCharOf | py_modules/sunshine.py:112-113 | Each of the 64 alphabet characters and the pad `=` reads back as its value |
| Base64.ParseRender | py_modules/sunshine.py:113 | Encoded text, as a `str`, reads back as its symbol values |
| Base64.RenderParse | py_modules/sunshine.py:113 | Text over the alphabet and the pad is the rendering of the symbols it parses to |
| Base64.EncodeShape | py_modules/sunshine.py:112 | The encoding of n bytes is 4*ceil(n/3) characters: alphabet characters, then (3 - n mod 3) mod 3 pads |
| Base64.DecodeEncode | py_modules/sunshine.py:112 | Decoding an encoding gives back the original bytes |
| Base64.EncodeDecode | py_modules/sunshine.py:112 | Every string the strict decoder accepts is the encoding of its result |
| Base64.EncodeInjective | py_modules/sunshine.py:112 | Different byte strings have different encodings |
| BasicAuth.Credentials | py_modules/sunshine.py:111-113 | The header is `Basic ` followed by Base 64 text that decodes to the UTF-8 of user, colon, password |
| BasicAuth.SplitUserPass | py_modules/sunshine.py:111 | Splitting at the first colon gives a colon-free user and the rest, and fails exactly when there is no colon |
| BasicAuth.ParseCredentials | py_modules/sunshine.py:111-113 | A server reading the header gets back the user and password, provided the user has no colon |
| BasicAuth.ReadsBack | py_modules/sunshine.py:111-113 | Whenever the user has no colon, the header reads back as the user and password |
| BasicAuth.CredentialsOfParse | py_modules/sunshine.py:111-113 | Any header that reads back as a user and password is exactly their credentials |
| BasicAuth.CredentialsInjective | py_modules/sunshine.py:111-113 | Distinct colon-free users or distinct passwords give distinct headers |
| BasicAuth.ColonInUserIdIsAmbiguous | py_modules/sunshine.py:111 | A colon in the user name is not rejected, and then two different pairs share one header |
| Pgrep.Split | py_modules/sunshine.py:98 | `bytes.split()` yields non-empty tokens free of ASCII whitespace, no more tokens than bytes; with `SplitToken` and `SplitAround` the tokens are exactly the maximal non-whitespace runs |
| Pgrep.SplitToken | py_modules/sunshine.py:98 | A lone token splits into itself |
| Pgrep.SplitAround | py_modules/sunshine.py:98 | A whitespace byte separates: the split of `a + [sep] + b` is the split of `a` followed by the split of `b`; with `Split([]) == []` and `SplitToken` this fixes the split of every input |
| Pgrep.SplitKeepsContent | py_modules/sunshine.py:98 | Joined back together, the tokens are exactly the input's non-whitespace bytes, in order |
| Pgrep.SplitTerminated | py_modules/sunshine.py:98 | A token followed by whitespace splits off as the first token |
| Pgrep.ParseInt | py_modules/sunshine.py:98 | `int()` accepts a token iff, after one optional sign, it is digits with single underscores between them, of at most 4300 digits; the value is negative only after a minus sign |
| Pgrep.ParseMinus | py_modules/sunshine.py:98 | A minus sign in front of an unsigned token negates its value and keeps acceptance |
| Pgrep.ParsePlus | py_modules/sunshine.py:98 | A plus sign in front of an unsigned token changes nothing |
| Pgrep.ParseLeadingZero | py_modules/sunshine.py:98 | A leading zero changes neither acceptance nor value, within the digit limit |
| Pgrep.ParseUnderscore | py_modules/sunshine.py:98 | An underscore between two numerals changes neither acceptance nor value |
| Pgrep.ParseAll | py_modules/sunshine.py:98 | The comprehension succeeds iff every token is an integer, and then yields each token's value in order |
| Pgrep.ParseDecimal | py_modules/sunshine.py:98 | `int()` reads a printed process id of at most 4300 digits back as itself |
| Pgrep.GetPid | py_modules/sunshine.py:96-101 | Faults iff launching pgrep raised or some token is not an integer; otherwise gives `None` iff there are no tokens, and else the value of the first token |
| Pgrep.GetPidOfListing | py_modules/sunshine.py:96-101 | On a listing of one id per line, gives the first id, or `None` for an empty listing |
| Pgrep.IsRunning | py_modules/sunshine.py:140 | True iff the lookup found a process, false iff it found none, and a fault when the lookup faults |
| Http.CreateRequest | py_modules/sunshine.py:37-47 | URL is the origin plus the path; the three fixed headers come first, followed by exactly one more (two with data); Authorization is the given value; Content-Type JSON and the body are present iff data is truthy, which makes it a POST |
| Http.Fetch | py_modules/sunshine.py:120-133 | Non-empty text only after a 2xx answer, and it is the body decoded; every failure gives the empty string |
| Http.FetchReadsBody | py_modules/sunshine.py:127-133 | The text is non-empty exactly when a 2xx answer carries a non-empty UTF-8 body, and then it is that body decoded |
| Http.IsAuthorized | py_modules/sunshine.py:142-152 | A GET of `/api/apps` that is true iff the answer's status is exactly 200; no answer gives false |
| Controller.SetAuthHeaderRaw | py_modules/sunshine.py:116-118 | Stores the value verbatim and returns the stored value; nothing else in the record changes |
| Controller.SetAuthHeaderRawLastWins | py_modules/sunshine.py:116-118 | Of two raw writes only the second is visible |
| Controller.SetAuthHeader | py_modules/sunshine.py:103-114 | Empty user and password return "" and change nothing; otherwise the stored value equals the returned one, and its Base 64 part decodes to user:password (and reads back as the pair when the user has no colon) |
| Controller.SetAuthHeaderLastWins | py_modules/sunshine.py:103-118 | A second non-empty call replaces the first one's header; an empty second call keeps it |
| Controller.Confirms | py_modules/sunshine.py:196-203 | The reply means yes iff the server answered 2xx with a non-empty UTF-8 body whose `status` field is the string "true" |
| Controller.SendPin | py_modules/sunshine.py:190-203 | POSTs `{"pin": pin}` once, and returns true iff the server confirmed; the record is not changed |
| Controller.ChangeUser | py_modules/sunshine.py:281-295 | One request; on confirmation it acts as `setAuthHeader(newUsername, newPassword)`; otherwise it returns `None` with the record unchanged |
| Controller.SetUser | py_modules/sunshine.py:275-295 | Faults, with nothing sent and the record unchanged, iff a current name or password is truthy. Otherwise it sends the new credential triple and returns the new header iff the server confirmed; `None` leaves the record unchanged |
| Controller.SetUserWithCurrentPasswordFaults | py_modules/sunshine.py:278-279 | Supplying the current credentials crashes the call whatever the server would answer |
| Controller.SetUserMerged | py_modules/sunshine.py:276-279 | With the current credentials merged into the payload, the call never faults and otherwise behaves as `setUser` |
| Controller.SetUserMergedAgrees | py_modules/sunshine.py:278-279 | Without current credentials the merged version and the code as written are the same call |
| Controller.Start | py_modules/sunshine.py:154-181 | A lookup fault escapes. A running server means nothing is launched and nothing changes. Otherwise the launches are a prefix of chown, chmod, flatpak that stops at the first failure, and the handle is kept (the chown process's) iff all three launched |
| Controller.StartWhileRunning | py_modules/sunshine.py:158-159 | With any process listed, start is a no-op whatever the launches would do |
| Controller.KillShell | py_modules/sunshine.py:75-81 | After a normal return the handle is `None`, and the only signal went to the held process's group. With no handle nothing happens. A failed group lookup escapes with the handle kept |
| Controller.KillSunshine | py_modules/sunshine.py:83-89 | Signals the first listed process, or none; never changes the record; a lookup fault (failed pgrep launch or unreadable token) escapes with nothing sent |
| Controller.KillSunshineOfListing | py_modules/sunshine.py:83-101 | On a pgrep listing, exactly the first listed id gets SIGTERM, and an empty listing sends nothing |
| Controller.Stop | py_modules/sunshine.py:183-188 | A killShell fault escapes at once, with nothing sent and the record unchanged. Otherwise killShell's effects come first, then killSunshine's; the handle is dropped even when killSunshine then faults; the call returns normally iff the lookup does |
| Controller.StartThenStop | py_modules/sunshine.py:154-188 | After a fully successful start, a stop signals the chown process's group first and leaves the record as it was before, without a handle |
| Dependencies.SplitLines | py_modules/sunshine.py:239 | `split("\n")` gives at least one piece, none containing a line feed |
| Dependencies.ContainsAround | py_modules/sunshine.py:239-240 | A pattern without a line feed occurs across a line feed iff it occurs on one side |
| Dependencies.AnyLineContains | py_modules/sunshine.py:239-242 | The loop returns true iff some line contains the pattern |
| Dependencies.AnyLineContainsText | py_modules/sunshine.py:239-242 | The line-by-line search finds such a pattern iff it occurs anywhere in the text |
| Dependencies.IsSunshineInstalled | py_modules/sunshine.py:233-244 | True iff the listing launched, decodes as UTF-8, and contains "Sunshine" |
| Dependencies.Branches | py_modules/sunshine.py:209-230 | Never faults. Result is true iff bwrap is present or copied and Sunshine is present or installed. Its launches are exactly a bwrap copy if bwrap is missing, followed by a Sunshine install if bwrap is then ready and Sunshine is missing, in that order; it sets the fresh flag iff already set or installed here |
| Dependencies.EnsureDependenciesAsWritten | py_modules/sunshine.py:209-230 | As written: always true, with nothing checked or launched and the record unchanged |
| Dependencies.EnsureDependencies | py_modules/sunshine.py:205-273 | As intended: a failed bwrap copy returns false before any install. The result, the exact launches and the fresh flag are as in `Branches`, over the real checks |
| Dependencies.EnsureDependenciesAgreeWhenInstalled | py_modules/sunshine.py:209-219 | When both dependencies are present the two versions agree |
| Dependencies.EnsureDependenciesAsWrittenSkipsInstall | py_modules/sunshine.py:209-228 | On a bare host the code as written reports success with no launch, while the intended version copies bwrap, installs Sunshine and sets the fresh flag |
| Dependencies.EnsureDependenciesKeepsFreshFlag | py_modules/sunshine.py:228 | A set fresh-installation flag is never cleared |

## Left out

- Process spawning (`pgrep`, `chown`, `chmod`, `sh -c flatpak run`, `cp`, `flatpak list/install`) and signals: OS I/O. The model sees each only as an input (output, raised or not, exit code) or as a recorded effect.
- Delivery of `SIGTERM` by `killpg`/`kill`: those helpers swallow every error, so a signal is recorded as sent whatever happened to it.
- The network, TLS and the SSL context that disables certificate checks: a `Server` function stands for the whole exchange. Redirects are not modelled.
- `json.dumps`: a request carries its payload as key/value pairs, not serialized text.
- `json.loads`: the JSON reader is a parameter that yields the `status` field or a failure.
- `Request.add_header` capitalizes header names (`Content-type`, `User-agent`): the model keeps the names as the code writes them.
- Logger calls and the environment set up in `__init__`: no bearing on the control flow.
- Python `str` values holding lone surrogates: a Dafny string cannot hold them. Python's `encode('utf-8')` would raise on them.
- `str(authHeader)` in `setAuthHeaderRaw`: the model only passes strings.
- `os.path.isfile`: the existence of the bwrap copy is an input.
- Exceptions inside the two checks (a failed `flatpak list` launch, `isfile`): they are read as "not present", as the code does.
- The limit of 4300 digits on `int()` is CPython's default from version 3.11 on (`sys.set_int_max_str_digits` changes it); the model fixes it at the default.
- `start` is annotated `-> bool` but returns `None` on every path: the model returns the unit value.

## Findings

| source | as written | input that shows it | evidently intended | confidence | as-written member | corrected member |
|---|---|---|---|---|---|---|
| py_modules/sunshine.py:209-219 | `if self._isBwrapInstalled:` and `if self._isSunshineInstalled:` test the bound methods, which are always true | a host with neither the bwrap copy nor Sunshine: the call returns true and installs nothing | call the checks, `self._isBwrapInstalled()` and `self._isSunshineInstalled()` | high; not executed | Dependencies.EnsureDependenciesAsWritten, Dependencies.EnsureDependenciesAsWrittenSkipsInstall | Dependencies.EnsureDependencies |
| py_modules/sunshine.py:278-279 | `data += {...}` on a `dict` raises `TypeError` | `setUser("new", "secret", "secret", "old", "hunter2")` | merge the current credentials into the payload (`data.update(...)` or `data \|= ...`) | high; not executed | Controller.SetUser, Controller.SetUserWithCurrentPasswordFaults | Controller.SetUserMerged |
