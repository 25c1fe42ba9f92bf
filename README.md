# Credits monitor: cookie-jar policy, freshness and poll handling

A Dafny model of the stateful core of a desktop widget that shows how many
usage credits remain on a coding-assistant account. The widget keeps a
browser-session cookie jar alive: a hidden browser reports every cookie it
receives, the jar is saved to a JSON file, reloaded at start-up only while
it is fresh, and sent with each poll of the credits endpoint. A successful
poll fills a progress bar measured in tenths of a percent; every failure
shows an error state.

Modules:

- `Wrappers`: `Option`.
- `SessionToken`: the "does the existing `_session` carry user information?"
  test. Percent-decoding and base64 decoding are parameters (`TokenCodec`);
  a base64 decode that raises is `None`. The `.` test, the split at the first
  `.` and the search for `userId` are modelled exactly.
- `CookieJar`: the upsert policy on `map<string, string>`, its fold over a run
  of browser events, and lemmas about arbitrary interleavings.
- `Persistence`: the `{cookies, saved_at}` record, the 55-minute freshness
  rule and the one-hour expiry.
- `Credits`: the usage payload, the total, the bar value and the rule by
  which the Qt progress bar accepts a value. Qt's `QProgressBar.setValue`
  ignores a value outside its range, so the bar always stays in 0..1000.
- `Polling`: the status dispatch of one poll.
- `Monitor`: class `CreditsMonitor`, holding `cookies`, `expiry`, `display`,
  `bar` and `file` (the cookie file's contents on disk). Its methods are the
  window's handlers. Each one states its new state in terms of the functions
  above.

Time is whole minutes, passed in as `now`. The HTTP request is a parameter
`server: Cookies -> Response`. A write to the cookie file that fails is the
parameter `writeOk == false`.

A protected `_session` is never replaced, not even by a value that itself
carries `userId`: the rejection looks only at the existing value
(`CookieJar.Upsert`, `CookieJar.ProtectedSessionSurvives`). A 401 or 403
only shows the error state and starts no refresh.

## Model

| member | source | states |
|---|---|---|
| `SessionToken.FirstSegment` | credits_monitor.py:182-183 | the payload is the prefix of the unquoted token up to the first `.`: it is a prefix, it has no `.`, and when shorter than the token the next character is `.` |
| `SessionToken.ContainsMeansOccurrence` | credits_monitor.py:185 | the `'userId' in text` search is true exactly when the marker occurs at some index of the text |
| `SessionToken.HasUserId` | credits_monitor.py:180-187 | a token is judged to carry user information only when its unquoted form has a `.` and the padded part before it decodes |
| `SessionToken.HasUserIdMeaning` | credits_monitor.py:176-189 | an existing token is protected exactly when its unquoted form has a `.`, its payload decodes and the decoded text contains `userId`; a decode that raises never protects (fail open) |
| `CookieJar.Rejects` | credits_monitor.py:175-187 | only an incoming `_session`, while the jar already holds one, is ever dropped |
| `CookieJar.IsAuthenticated` | credits_monitor.py:194 | a jar with `_session` or `web_rpc_proxy_session` is never empty, so a poll with it makes a request |
| `CookieJar.Upsert` | credits_monitor.py:175-191 | a `_session` update is dropped exactly when the existing `_session` carries user information, and then the jar is unchanged; otherwise `name` maps to `value`; the keys grow by at most `name`; every other entry is unchanged |
| `CookieJar.SessionReplacedUnlessUserIdFound` | credits_monitor.py:176-191 | with no `_session`, or one whose payload does not decode or has no `userId`, a new `_session` replaces it and nothing else changes |
| `CookieJar.ProtectedSessionSurvives` | credits_monitor.py:175-191 | once the jar holds a protected `_session`, no run of cookie events changes its value |
| `CookieJar.LastWriteWins` | credits_monitor.py:191 | for any cookie other than `_session`, after a run of events the jar holds the last event's value for it, or its old entry when no event names it |
| `CookieJar.JarNeverShrinks` | credits_monitor.py:191-194 | events never remove a cookie, so an authenticated jar stays authenticated |
| `Persistence.LoadedJar` | credits_monitor.py:113-117 | a record replaces the jar with its map, or with an empty map when the field is absent; a missing or unreadable file leaves the jar unchanged |
| `Persistence.LoadedJarIgnoresTimestamp` | credits_monitor.py:117-128 | the jar a record loads is its map whatever its timestamp (absent, malformed, stale or fresh), because the map is taken before the age test |
| `Persistence.SaveRecord` | credits_monitor.py:144-147 | the record a save writes loads back as exactly the saved map, and is trusted with expiry now plus an hour when read at the minute it was written |
| `Persistence.StaleStaysStale` | credits_monitor.py:125 | a record is fresh exactly while now is less than 55 minutes after it was saved, and once stale it stays stale |
| `Persistence.LoadedExpiry` | credits_monitor.py:119-128 | an expiry is set exactly when the record has a timestamp less than 55 minutes old, and it is that timestamp plus 60 minutes, more than 5 minutes after now |
| `Persistence.SaveThenLoad` | credits_monitor.py:110-149 | loading a saved record restores exactly the saved map; the session is trusted again exactly while the record is younger than 55 minutes |
| `Credits.TruncDiv` | credits_monitor.py:258 | `int()` of the quotient truncates toward zero: bounds for non-negative and for negative numerators |
| `Credits.Remaining` | credits_monitor.py:252 | an absent `usageUnitsRemaining` counts as 0, a present one as its value |
| `Credits.Consumed` | credits_monitor.py:253 | an absent `usageUnitsConsumedThisBillingCycle` counts as 0, a present one as its value |
| `Credits.Total` | credits_monitor.py:253 | the total is remaining plus consumed; it is at least what remains when consumption is not negative, and 0 for a reply with neither field |
| `Credits.BarValue` | credits_monitor.py:252-262 | a non-positive total gives 0 (no division); non-negative fields give a value in 0..1000, the truncated tenths of a percent of remaining over total |
| `Credits.SetValue` | credits_monitor.py:68-71 | the bar takes a value in 0..1000 and ignores any other, so a bar in range never leaves its range |
| `Credits.BarExamples` | credits_monitor.py:252-262 | 750 remaining and 250 consumed give 750 tenths; zero or absent fields give 0 |
| `Polling.Classify` | credits_monitor.py:212-240 | an empty jar ends the poll at once; usage data is shown exactly for status 200 with a readable body; 401 and 403 are told apart from every other failure |
| `Monitor.CreditsMonitor.constructor` | credits_monitor.py:36-46 | a new window starts with an empty jar and no expiry, then loads the file |
| `Monitor.CreditsMonitor.LoadCookiesFromFile` | credits_monitor.py:110-139 | the jar becomes `LoadedJar`; a fresh record sets the expiry and leaves the display alone; every other case keeps the expiry and shows the error state |
| `Monitor.CreditsMonitor.SaveCookiesToFile` | credits_monitor.py:141-152 | the file becomes `{cookies, saved_at: now}`, or stays as it was when the write fails |
| `Monitor.CreditsMonitor.OnCookieAdded` | credits_monitor.py:170-197 | the jar becomes `Upsert` of the old jar; after an accepted update that leaves `_session` or `web_rpc_proxy_session` in the jar, the expiry is now plus an hour and the jar is saved; otherwise expiry and file are unchanged |
| `Monitor.CreditsMonitor.FetchCredits` | credits_monitor.py:212-240 | usage data from a 200 reply updates the display; every other outcome shows the error state; the jar is not changed |
| `Monitor.CreditsMonitor.UpdateCreditsDisplay` | credits_monitor.py:250-269 | the display shows remaining over total, and the bar gets `BarValue`, which for non-negative fields always lands in range |
| `Monitor.CreditsMonitor.ShowErrorState` | credits_monitor.py:271-278 | the display shows the error indicator and the bar is 0 |

## Left out

- The Qt window, its layout, styles and label texts (credits_monitor.py:49-80, 264-278). They are presentation only. The display is modelled as `Placeholder`, `Normal(remaining, total)` or `Error`.
- The embedded browser, the cookie-store wiring and `load_cookies_into_browser` (credits_monitor.py:82-108). These are calls into Qt WebEngine. Browser events reach the model as calls of `OnCookieAdded`.
- `refresh_cookies`, the timers and `main` (credits_monitor.py:154-167, 203-209, 283-302). These are event-loop plumbing. The save on exit is `SaveCookiesToFile`.
- The HTTP request (credits_monitor.py:219-227). It is the parameter `server`, and its result a `Response`.
- JSON and ISO-timestamp parsing, and file reads (credits_monitor.py:112-116, 122). The file is the datatype `CookieFile`. A `cookies` field that is present but not an object, and non-integer usage fields, are not modelled.
- A write that fails partway and leaves a truncated file. A failed save leaves the file unchanged.
- Percent-decoding and base64 decoding of the session token (credits_monitor.py:181, 184). They are the parameters of `TokenCodec`.
- Sub-minute time. Ages are whole minutes, while the source compares fractional minutes.
- The two clock readings in one cookie event. The expiry and `saved_at` are taken as the same minute.
- `Credits.BarValue`: uses exact integer division in place of the source's floating-point `remaining / total * 100 * 10`. The float path can come out one lower (29 of 100 gives 289 there, 290 here).
- A bar value beyond the range of a C `int`. The Qt binding would raise on it, and the source would then show the error state.
- The percentage label's one-decimal rounding (credits_monitor.py:265).
- `Monitor.CreditsMonitor.OnCookieAdded`: cookie names and values are strings, so two cases are not modelled. A name or value that is not valid UTF-8 makes the handler raise before it touches the jar (credits_monitor.py:172-173), so jar, expiry and file stay unchanged. A non-string value in a hand-edited file makes `unquote` raise (credits_monitor.py:181), and the update then goes ahead.
