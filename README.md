# httpwaymid session store, access-log fields and file-name shortening, in Dafny

This project models the middleware package `httpwaymid`, which sits on top of
the `httpway` router. Three parts are modelled:

- **The in-memory session store** (`memorysession.dfy`).
  - A `Session` is an identifier plus a mutable attribute bag. The bag has typed views: the
    authentication flag under `_isAuth`, the username under `_username`, and integer and
    string reads.
  - A `SessionManager` maps identifiers to sessions. It resolves a request's `_s` cookie
    to a session, or mints a new identifier and creates a session. It also runs the
    two-phase expiration sweep.
  - Both are Dafny classes whose methods update their fields in place.
  - Identifiers are the lowercase hex of 32 random bytes. When the random read fails or
    is short, they are the hex of a 16-byte MD5 digest (`hex.dfy`, with its inverse).
- **Access-log field rules** (`accesslog.dfy`). These pure functions turn request data
  into the fields of a W3C extended log record: username, client IP, query,
  X-Forwarded-For, status code and time taken. The module also gives the header block.
  The Go `strings.Split` and `strings.Trim` behaviour they rely on is in `gostrings.dfy`,
  together with `Join`, the inverse used to characterise `Split`.
- **`getFileLine`** (`paniccatcher.dfy`). This is the panic logger's backward scan that
  keeps the part of the caller's path after its last `/`. The scan never looks at index 0.

Time is an explicit integer `now`. The random read is an input: the bytes the source
delivered plus an error flag. The MD5 digest of the clock reading is an input too.

## Model

| member | source | states |
|---|---|---|
| `MemorySession.Session.constructor` | memorysession.go:24-32 | a new session has the given id, an empty attribute map, and creation and access time both equal to `now` |
| `MemorySession.Session.Get` | memorysession.go:81-86 | a present key gives its stored value; a missing key gives `Nil` (Go's nil interface) |
| `MemorySession.Session.IsAuth` | memorysession.go:38-47 | a present `_isAuth` entry is exactly `Bool(result)`; when it is absent the result is false; a non-boolean entry is excluded by the precondition |
| `MemorySession.Session.SetAuth` | memorysession.go:49-54 | stores `Bool(b)` under `_isAuth`; afterwards `IsAuth()` is `b` and generic `Get("_isAuth")` is `Bool(b)`; every other key is unchanged |
| `MemorySession.Session.Username` | memorysession.go:56-65 | a present `_username` entry is exactly `Str(result)`; when it is absent the result is `""`; a non-string entry is excluded |
| `MemorySession.Session.SetUsername` | memorysession.go:67-72 | stores `Str(u)` under `_username`; afterwards `Username()` is `u` and `Get("_username")` is `Str(u)`; every other key is unchanged |
| `MemorySession.Session.Set` | memorysession.go:74-79 | afterwards `Get(key)` is `val` and every other key reads as before; the map is the old map updated at `key` |
| `MemorySession.Session.GetInt` | memorysession.go:88-97 | a present entry is exactly `Int(result)`; an absent key reads 0; a non-integer entry is excluded |
| `MemorySession.Session.GetString` | memorysession.go:99-108 | a present entry is exactly `Str(result)`; an absent key reads `""`; a non-string entry is excluded |
| `MemorySession.NewSessionId` | memorysession.go:211-223 | ids are always lowercase hex. A full 32-byte read with no error gives a 64-character id that decodes back to those bytes. Otherwise the id has 32 characters and decodes back to the clock digest |
| `MemorySession.DistinctReadsDistinctIds` | memorysession.go:211-222 | two full reads of different random bytes give different ids |
| `MemorySession.FallbackIdsAreShorter` | memorysession.go:215-223 | an id from the random path never equals an id from the fallback path |
| `Hex.Encode` | memorysession.go:220-222 | hex encoding gives two lowercase digits per byte, high nibble first, so the length is `2 * |b|` |
| `Hex.Decode` | memorysession.go:220-222 | the inverse of the id encoding: a successful decoding is half the length of its input |
| `Hex.DecodeEncode` | memorysession.go:220-222 | decoding an encoding gives the bytes back |
| `Hex.EncodeDecode` | memorysession.go:220-222 | encoding a successful decoding gives the text back |
| `Hex.EncodeInjective` | memorysession.go:220-222 | different byte strings have different encodings |
| `MemorySession.SessionManager.constructor` | memorysession.go:116-126 | a new manager is empty and satisfies its invariant: every session is registered under its own id |
| `MemorySession.SessionManager.Has` | memorysession.go:193-200 | true exactly when some registered session carries that id; it only reads |
| `MemorySession.SessionManager.CreateSession` | memorysession.go:210-235 | adds one fresh session with an empty map, keyed by its minted id, and replaces any session that had that id; returns the `_s` cookie with path `/` |
| `MemorySession.SessionManager.GetById` | memorysession.go:174-191 | hit: returns the mapped session itself, leaves the map unchanged, sets its access time to `now` and keeps its attributes; sets no cookie. Miss: inserts exactly one fresh empty session under the minted id, keeps every other entry, does not register the requested id unless the minted id equals it, and returns the cookie |
| `MemorySession.SessionManager.CookieId` | memorysession.go:164-169 | the id is the `_s` cookie's value, or `""` when the request has no such cookie |
| `MemorySession.SessionManager.Get` | memorysession.go:162-172 | resolves the cookie's id with the same hit and miss behaviour as `GetById` |
| `MemorySession.SessionManager.ResumeWithCookie` | memorysession.go:162-191 | when no session is registered under the empty id, a request with no cookie gets a fresh session and its cookie. (A session registered under `""` through `Set` would instead be returned, with no cookie.) A username stored on that session is seen by a later request that presents the cookie. That request resolves to the same session, keeps its creation time and sets its access time to the later time |
| `MemorySession.SessionManager.Set` | memorysession.go:202-208 | afterwards `sessions[session.id] == session` and `Has(session.id)` holds; every other entry is unchanged; the invariant is kept |
| `MemorySession.SessionManager.StaleIds` | memorysession.go:134-147 | selects exactly the registered ids whose session is older than a positive `expiration` or has been idle longer than a positive `timeout` |
| `MemorySession.SessionManager.NothingStaleWhenDisabled` | memorysession.go:135-146 | with both settings at 0 or below, nothing is selected |
| `MemorySession.SessionManager.CollectStale` | memorysession.go:132-148 | the scan's delete list holds exactly the stale ids, each once; the `continue` after an expiration hit skips the timeout test |
| `MemorySession.SessionManager.DeleteSessions` | memorysession.go:150-158 | the map afterwards is the old map minus every listed id |
| `MemorySession.SessionManager.Sweep` | memorysession.go:128-159 | one `gc` pass removes exactly the stale sessions; every survivor is unchanged; with both checks off nothing is removed |
| `GoStrings.Split` | accesslog.go:43-45 | `strings.Split` always gives at least one piece, and its last piece is exactly the text after the last separator (the whole text when there is none) |
| `GoStrings.SplitPieces` | accesslog.go:43 | no piece of a split contains the separator |
| `GoStrings.JoinSplit` | accesslog.go:43 | joining the pieces with the separator gives the original text |
| `GoStrings.SplitJoin` | accesslog.go:43 | splitting a join of separator-free pieces gives the pieces back |
| `GoStrings.AfterLast` | accesslog.go:44-45 | the text after the last separator is a separator-free suffix that is either the whole text or follows a separator |
| `GoStrings.SplitNoSeparator` | accesslog.go:43-45 | a text without the separator splits into one piece, the text itself |
| `GoStrings.LeadingRun` | accesslog.go:48 | measures exactly the run of the cut character at the start of the text: every character in it is the cut character and the next one is not |
| `GoStrings.TrailingRun` | accesslog.go:48 | measures exactly the run of the cut character at the end of the text: every character in it is the cut character and the one before it is not |
| `GoStrings.Trim` | accesslog.go:48 | the result is a contiguous piece of the input; everything cut from either end was the cut character; the result neither starts nor ends with it |
| `GoStrings.TrimNoop` | accesslog.go:48 | a text that neither starts nor ends with the cut character is left as it is |
| `AccessLog.UsernameField` | accesslog.go:27-30 | the session's username when there is a session and its username is non-empty, otherwise `-`; never empty |
| `AccessLog.IpField` | accesslog.go:31-34 | the host part when the host/port split succeeds, otherwise the raw remote address |
| `AccessLog.QueryField` | accesslog.go:36-39 | the raw query verbatim, or `-` when it is empty; never empty |
| `AccessLog.ForwardedForField` | accesslog.go:41-51 | an empty header gives `-`; otherwise the field is the text after the header's last comma, or the whole header when it has none, with spaces trimmed from both ends |
| `AccessLog.ForwardedForShape` | accesslog.go:42-48 | for a non-empty header the field contains no comma and neither starts nor ends with a space |
| `AccessLog.ForwardedForSingleEntry` | accesslog.go:42-48 | a header without a comma is only trimmed |
| `AccessLog.StatusField` | accesslog.go:53-56 | a status of 0 is reported as 200; any other status is unchanged; the result is never 0 |
| `AccessLog.TimeTakenField` | accesslog.go:68 | the microseconds are the elapsed nanoseconds divided by 1000, truncated toward zero |
| `AccessLog.HeaderLines` | accesslog.go:74-79 | four directive lines starting with `#`, in this order: `#Version: 1.0`, `#Fields: ...`, `#Software: httpway accesslog`, then `#Start-Date: ` followed by the date |
| `PanicCatcher.GetFileLine` | paniccatcher.go:40-55 | when the caller lookup fails, the result is `???` and 0. Otherwise the line passes through. The file is always a suffix of the path. If the path has a `/` at index 1 or later, the result is exactly the slash-free text after the last one. If it does not, the path is returned unchanged, including a path whose only `/` is at index 0 |

## Left out

- Locks and concurrency: the read/write mutexes, the goroutine started by `NewSessionManager`, and the endless `time.Sleep(60s)` loop around `gc`. `Sweep` is one sequential pass at an explicit `now`. So the race between scan and delete is not modelled. The access-time write in `GetById` is modelled as a plain sequential field update; only the missing lock around it is left out.
- The clock, `crypto/rand`, the little-endian packing of the timestamp and MD5 itself are not modelled. The random read is the `RandomRead` input. The MD5 digest of the packed clock reading is the `clockDigest` input: any 16 bytes.
- Cookie reading and writing are not modelled. The `_s` cookie arrives as an optional value, and the cookie to set is returned as a (name, value, path) triple. `log.Debug` calls are left out.
- Go type-assertion panics (`v.(bool)`, `v.(int)`, `v.(string)` on a value of another type) are not modelled. The typed readers require the stored value to have the right type.
- `Session.Id()` is the immutable field `id` itself and has no separate member.
- `MemorySession.Value`'s `Int` is unbounded. Go's `int` width does not matter here, since the store only passes integers through.
- `MemorySession.SessionManager.Sweep`: the `timeout` and `expiration` settings are in the same unit as `now`. The conversion from seconds to `time.Duration` nanoseconds, and its overflow, are not modelled.
- `MemorySession.SessionManager.GetById`: id collisions are not excluded. Like the source, a minted id equal to an existing key replaces that entry. The "keeps every other entry" and "does not register the requested id" clauses are therefore stated for keys different from the minted id.
- The `AccessLog` handler itself is not modelled: the `ctx.Next` dispatch, the date formatting, the `net.SplitHostPort` internals (passed as a function), `EscapedPath`, the byte count and the `fmt` string the line is printed with.
- `AccessLog.HeaderLines` assumes the logger formats its arguments Printf-style, so the call `("#Start-Date: %s", date)` writes `#Start-Date: ` followed by the date as one line; the logger itself is not modelled.
- The `io.Writer` variant of the header, `AccessLogHeaderWriter`, is not modelled. It writes the same four lines, each ending in a newline.
- The rest of `PanicCatcher` is not modelled: `recover`/re-`panic`, the 500 response, the `http.Flusher` check and `runtime.Caller` (its result is the input).
- `renderer.go` and `handlers.go` are not part of this model. They are template and JSON rendering, response writing and router glue.
