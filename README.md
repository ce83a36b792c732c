# Authenticated static-file server: decision logic in Dafny

This project models the request-handling decisions of a small HTTP file
server written in Python. Every request is authorised with HTTP Basic
credentials, checked first against PAM (the system's pluggable
authentication) and otherwise against one username/password pair taken from
the environment. A path under the served directory is answered with the file,
with a generated HTML listing of a directory, or with 404. A separate raw-view
endpoint serves one file as `text/plain`. The command-line wrapper reads a
port spec and, in auto mode, searches upward for a free port.

Modules, one per component:

- `Http`: the shared shapes. A handler returns a response, raises an
  `HTTPException` (status, detail, headers), or lets another exception escape.
- `Escaping`: `escape`, three `str.replace` passes in the order `<`, `>`,
  `&`. Because `&` is replaced last, `<` becomes `&amp;lt;`, so a browser shows
  the text `&lt;` rather than `<`. The model keeps this behaviour and proves it
  equal to a per-character definition.
- `Authorisation`: `authorise`, with the PAM call as an input that returned
  true or false or raised `TypeError` (meaning PAM is unavailable), and the
  two environment variables as optional strings. Also the masked password the
  handler logs.
- `Strings`: the parts of Python's `str` the handlers rely on. These are
  `split` and `join` on a one-character separator, with the round trip
  between them, and substring occurrence in rendered text.
- `Paths`: paths as sequences of already-resolved components. The filesystem
  is a snapshot map from path to node, and directories list their children in
  `iterdir` order. `is_relative_to` is a component-prefix test.
- `PlainView`: `read_plain` and its three guards in source order: exists,
  then is-directory, then inside the working directory.
- `Fallback`: `FallbackStaticFiles.get_response`. It authorises first, then
  passes through what the static-file handler found. Otherwise it branches:
  a directory gets a listing, a missing path gets 404, and any other path gets
  the file. The listing's rows are built by a loop (`BuildRows`) proved equal
  to `ListingRows`. The HTML templates are rendered by concatenation.
- `PortSpec`: the `--port` branch of `run_server` and `find_port`. The socket
  probe becomes an `inUse` oracle.

The model follows the code, including where it departs from what a file
server usually does:
- In `get_response`, a resolved path outside the working directory makes
  `relative_to` raise `ValueError`, which nothing catches. It does not give
  403. The model returns `Crash("ValueError")`.
- The "View Raw" link inserts the child's location without escaping. Only the
  main link and the displayed name are escaped.
- The 501 detail keeps the source's spelling, "Unvailable".

## Model

| member | source | states |
|---|---|---|
| `Escaping.Replace` | src/main.py:43 | `str.replace` with a one-character pattern: the result holds no pattern character unless the replacement does, and is the input when the pattern does not occur |
| `Escaping.ReplaceKeepsAbsent` | src/main.py:43 | a character found neither in the input nor in the replacement is not in the result, so a later pass cannot bring back what an earlier one removed |
| `Escaping.Escape` | src/main.py:42-43 | escaped text never contains `<` or `>`; text with none of `<`, `>`, `&` is returned unchanged |
| `Escaping.EscapeIsPerCharacter` | src/main.py:43 | the three passes equal escaping each character on its own: `<` to `&amp;lt;`, `>` to `&amp;gt;`, `&` to `&amp;`, others kept |
| `Escaping.EscapedAmpersandsStartEntity` | src/main.py:43 | in escaped text every `&` begins the substring `&amp;`, including those of the inserted `&lt;`/`&gt;` |
| `Escaping.EscapeSingle` | src/main.py:43 | escaping one character gives `EscapeChar`: because of the replace order, `<` becomes `&amp;lt;`, `>` becomes `&amp;gt;` and `&` becomes `&amp;` |
| `Authorisation.Authorise` | src/main.py:87-105 | Allow exactly when PAM returned true, or PAM raised `TypeError` and both environment values are non-empty and equal the credentials; 501 exactly when PAM raised `TypeError` and a variable is unset or empty; every other case is 401 with `WWW-Authenticate: Basic realm=PAM` |
| `Authorisation.PamAnswerIgnoresEnvironment` | src/main.py:88-92 | when PAM returns, the environment is not consulted: the decision is Allow for true and 401 for false, whatever the variables hold |
| `Authorisation.RejectionStatus` | src/main.py:101-104 | a rejection is either 401 carrying the Basic challenge header, or 501 and then only when PAM was unavailable |
| `Authorisation.Stars` | src/main.py:85 | `"*" * n` has `n` characters, all `*`, and none when `n` is zero or negative |
| `Authorisation.Mask` | src/main.py:85 | the logged password has the password's length, its first min(2, len) characters equal the password's, and every later character is `*` |
| `Authorisation.MaskRevealsOnlyLengthAndPrefix` | src/main.py:85 | two passwords with equal length and equal first two characters are logged identically |
| `Paths.IsRelativeTo` | src/main.py:118 | `is_relative_to`: holds exactly when some relative path appended to the base gives the path, i.e. the base is a prefix of it component by component |
| `Paths.RelativeTo` | src/main.py:53 | `relative_to` on a contained path gives the suffix that, appended to the base, is the path again |
| `Paths.PathString` | src/main.py:61-64 | `str()` of a relative path: `.` for the empty path; otherwise the components joined by `/`, which splitting on `/` turns back into the components when none of them holds a `/` |
| `Paths.RelativeToIsOrder` | src/main.py:118 | containment is reflexive and transitive |
| `Paths.ContainmentIsNotTextPrefix` | src/main.py:118 | containment compares whole components: `srv/data2/x` is not inside `srv/data` although one text is a prefix of the other |
| `PlainView.ReadPlain` | src/main.py:112-122 | 404 exactly for a nonexistent path wherever it lies; 400 exactly for a directory, even outside the working directory; 403 exactly for an existing non-directory outside it; otherwise a `text/plain` response for that path; never an uncaught exception |
| `PlainView.ViewPlain` | src/main.py:108-122 | the app-wide `authorise` dependency decides first: a rejection is answered with its error, and only an allowed request reaches `read_plain` |
| `PlainView.ServedFilesAreContained` | src/main.py:113-122 | anything the raw view serves was authorised, exists, is a file and lies inside the working directory |
| `PlainView.UnconfiguredServerRefusesRawView` | src/main.py:93-108 | with PAM unavailable and no static pair configured, every raw-view request gets 501, whatever the path |
| `Fallback.MakeRow` | src/main.py:56-69 | one listing row: its link and displayed name carry no `<` or `>`; it has a "View Raw" link exactly when the child is not a directory; its size and time are the child's |
| `Fallback.ListingRows` | src/main.py:54-70 | a listing has as many rows as the directory has children |
| `Fallback.ListingRowDescribesChild` | src/main.py:55-70 | row `k` describes child `k` in iteration order: its link is `escape("./" + path)` and its name `escape(name)`; it has a "View Raw" link, to the unescaped location, exactly when the child is not a directory; size and time come from the child |
| `Fallback.BuildRows` | src/main.py:52-70 | the loop that appends one row per child produces exactly `ListingRows` |
| `Fallback.Missing` | src/main.py:72-73 | the error for a missing path is a 404 with no extra headers whose detail names the path relative to the working directory |
| `Fallback.Fallback` | src/main.py:51-76 | after a failed static lookup: an uncaught `ValueError` exactly when the path is outside the working directory; else a listing of the relative path exactly for a directory, 404 naming the relative path exactly when it is missing, and a file response exactly for an existing non-directory |
| `Fallback.Route` | src/main.py:47-51 | authorisation decides first; once allowed, a successful static lookup is returned unchanged and the fallback runs only when it failed |
| `Fallback.GetResponse` | src/main.py:47-76 | the handler as written, with its early returns and row loop, computes `Route` |
| `Fallback.AuthorisationComesFirst` | src/main.py:48 | a rejected request gets the same 401 or 501 whatever the static handler and the filesystem hold, so no response is built |
| `Fallback.RenderRow` | src/main.py:30-34 | `row_template` filled in: the link, the displayed name, the raw-view link, the modification time and the size each occur in the row's markup |
| `Fallback.JoinLines` | src/main.py:75 | `"\n".join(rows)`: every line occurs in the joined text, and splitting the text on newlines gives the lines back when none holds a newline |
| `Fallback.RowsAppearInPage` | src/main.py:75 | every row's markup occurs in the page that `RenderListing` builds from `base_html`, joined with newlines inside the table |
| `Fallback.ListedNamesHaveNoMarkup` | src/main.py:64-65 | no listing row's link or displayed name contains `<` or `>`, and every `&` in a name starts `&amp;` |
| `Strings.Split` | src/run.py:31 | `str.split`: one more piece than separators, no piece holds a separator, and joining the pieces gives the input back |
| `Strings.SplitAtOnlySeparator` | src/run.py:31 | text with exactly one `:` splits into the text before it and the text after it, so the two-name unpacking succeeds |
| `Strings.SplitJoin` | src/main.py:75 | splitting the joined pieces on the separator gives the pieces back when none of them holds the separator |
| `PortSpec.IsAutoMode` | src/run.py:29 | `port.lower().startswith("auto")` holds exactly when the text has at least four characters, each of the first four is the lower- or upper-case letter of `auto` in turn, whatever follows |
| `PortSpec.ParseInt` | src/run.py:35-38 | `int()` on text: accepted exactly when the text is non-empty digits or a `+`/`-` followed by non-empty digits; digits read as their decimal value, `+digits` as that value and `-digits` as its negation; a negative result needs a leading `-`; accepted text never holds a `:` |
| `PortSpec.NatToString` | src/run.py:35 | the decimal text of a natural number is non-empty, all digits, and reads back as that number |
| `PortSpec.ParseIntOfIntToString` | src/run.py:35-38 | `int(str(n)) == n` for every integer, including negative ones |
| `PortSpec.ParsePortSpec` | src/run.py:29-38 | an auto request only comes from a spec whose lower-case form starts with `auto`; a failure is always `ValueError`; a spec that is not auto mode gives a fixed request for the port `int` reads exactly when `int` accepts it, and otherwise `ValueError` carrying the spec |
| `PortSpec.AutoWithOneColon` | src/run.py:30-35 | in auto mode with exactly one colon, the start is `int` of the text after it, and a non-number there raises `ValueError` |
| `PortSpec.AutoWithoutSingleColon` | src/run.py:30-33 | in auto mode with zero colons, or two or more, the start is 8000 |
| `PortSpec.AutoSpecRoundTrip` | src/run.py:29-35 | any case of `auto`, with anything but a colon after it (`AUTO`, `autox`), followed by `:` and a number, asks for a search from that number |
| `PortSpec.FixedSpecRoundTrip` | src/run.py:37-38 | the canonical decimal text `str(n)` of any integer, as a spec, is used as port `n` |
| `PortSpec.FindPort` | src/run.py:9-16 | a port is returned only when it is in 0..65535, at least the start, reported free, and every port from the start up to it is in use; an error comes exactly when the start is negative or every port from the start to 65535 is in use |
| `PortSpec.FindPortIsFirstFree` | src/run.py:9-16 | the search returns the first free port at or above the start |
| `PortSpec.SelectPort` | src/run.py:29-38 | a spec error escapes unchanged; in auto mode the port is the result of `find_port` from the parsed start, so it is free and in 0..65535; a fixed port is the number `int` reads from the spec |

## Left out

- The PAM `authenticate` call, environment lookups, the socket probe, `os.chdir` and `uvicorn.run` are system or library calls. They become inputs: a PAM result, optional environment strings, an `inUse` predicate. Running the server is not modelled.
- The log line's text is not modelled. It uses `%r` formatting and is printed, which is output. Only the masked password is modelled.
- `Path.resolve`, symlinks and `.`/`..` collapsing are filesystem behaviour. Handlers receive already-resolved component paths.
- `naturalsize` and `strftime("%c")` are a foreign library and locale-dependent formatting. Sizes and times are opaque strings stored in the filesystem snapshot.
- The `PermissionError` and `asyncio.TimeoutError` handlers of the raw view (403 and 504) depend on reading the file, which is I/O.
- The static-file handler's own lookup is library behaviour. It is an input: what it found, or nothing when it raised.
- FastAPI's `HTTPBasic` answers a request without an `Authorization` header by itself. The model starts from parsed credentials.
- The filesystem is a snapshot that does not change during a request: every name a directory lists exists. A file that vanishes between `iterdir` and `stat` is not modelled. Requests are independent and run concurrently; the model handles one at a time.
- `FileResponse` streaming and content-type inference are not modelled. A file response records only its path.
- `ParsePortSpec`: `int()` is modelled for an optional sign followed by ASCII digits. Whitespace, underscores and non-ASCII digits, which Python also accepts, are not modelled.
- `ParseInt`: surrounding whitespace, `_` digit separators and non-ASCII digits, which Python's `int()` also accepts, are refused by the model.
- `IsAutoMode`: `str.lower` is modelled for ASCII letters only.
- `FindPort`: Python's recursion limit is not modelled. A search through about a thousand busy ports would raise `RecursionError` before reaching 65535.
- `SelectPort`: a fixed port is not range-checked, just as in the source. Any error from binding to it belongs to `uvicorn.run`, which is not modelled.
