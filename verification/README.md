# Multi-session launcher: session, tab and license-gate model

This Dafny project models the core of an Electron application that opens
many storage-isolated browsing sessions on one URL. The sessions open either
as tabs inside the renderer page or as separate native windows created by the
main process. The whole page sits behind a remote license check.

The model covers:

- **URL and count validation** (`Urls`, `Numbers`, `Text`): `normalizeUrl`,
  which trims the input, adds the `https://` scheme and runs the URL parser.
  Also the renderer's `parseInt` count with its fallback to one session.
- **Session ids and partitions** (`Sessions`): `generateSessionId` with its
  `${Date.now()}-${sessionCounter++}` fallback. Also the
  `persist:session-<id>` partition each webview is bound to. An id is a
  `SessionId` value, a UUID or a (clock reading, counter) pair. `IdText`
  renders it as the string the source uses, and a partition is derived from
  that string (`Sessions.Partition`). `Sessions.IdTextInjective` shows that
  comparing the values is the same as comparing the strings, as long as no
  UUID text has only digits on both sides of its first '-'. A UUID has four
  '-', so none does.
- **The tab collection** (`Sessions`): `createSession`, `activateTab` and
  `closeTab` over an ordered tab list with one current tab. Also the create
  button's loop, which keeps going when one creation throws.
- **The create button** (`CreateHandler`): early rejection of a bad URL, the
  native-window request, and the tab path's status line.
- **The license gate** (`License`, `App`): `validateAndUnlock`, the
  auto-login block, the login button, the single heartbeat interval, and
  revocation. Revocation clears the stored credentials and reloads the page.
- **The main-process batch handler** (`Bridge`): the `open-multiple-windows`
  IPC handler in `main.js`. It validates the request, adds the scheme, and
  opens one window per loop index, each in a partition of its own.

State is immutable: `Manager` holds the tabs, the current id, the counter and
the status line; `Gate` holds the stored credentials, the heartbeat variable,
the set of live intervals and the login overlay. Every event is a function
from state to state. Network replies are inputs (`License.Reply`,
`CreateHandler.BridgeAnswer`). `new URL(...)` is the parameter `parses`.
`Date.now()` and `crypto.randomUUID()` are parameters too: `IdSource`,
`Env.clock` and the `clock` argument of the main-process handler.

Main invariants proved:

- `Sessions.Valid`: ids are distinct, so partitions are distinct too
  (`Sessions.ValidPartitionsDistinct`). There is a current tab exactly when
  there are tabs. Exactly the current
  tab is active.
- `License.Consistent`: the only live interval is the one
  `licenseCheckInterval` holds. A heartbeat runs exactly while the overlay is
  hidden, and it revalidates the stored credentials.

Behaviours of the code a reader might not expect, which the model follows:

- `activateTab` on the current id re-applies the styles rather than
  returning early. `Sessions.ReactivateCurrentIsIdentity` shows this changes
  nothing in a valid state.
- Closing the current tab activates `tabs[max(0, index-1)]` of the shortened
  list. For the first tab that is its right-hand neighbour, not a left one.
- The bulk loop reports the requested total, not the number of tabs created
  (`CreateHandler.ReportOvercountsOnFailure`).
- Auto-login needs only a stored key. A missing user is sent, and stored
  again on success, as "Unknown".
- A failed manual login does not touch storage. Only a failed auto-login or a
  revocation removes the stored entries.
- The main-process handler rejects a NaN count as well as zero and negative
  ones. An infinite count passes its guard and its loop never ends
  (`Bridge.Outcome.Endless`). Neither does a count above 2^53: the loop index
  is a double, and `i++` stops advancing there. It does no URL parse check, so a whitespace-only
  URL is truthy and opens windows on `https://`.

## Model

| member | source | states |
|---|---|---|
| Text.Trim | src/renderer.js:150 | the result has no whitespace at either end and is the input with only whitespace removed from its two ends |
| Text.TrimPadded | src/renderer.js:150 | trimming `w1 + t + w2` gives `t` whenever `w1` and `w2` are all whitespace and `t` is trimmed, so the decomposition is unique |
| Text.TrimIdempotent | src/renderer.js:150 | trimming a trimmed string changes nothing |
| Text.SchemeIgnoresCase | src/renderer.js:153 | the `/^https?:\/\//i` test gives the same answer for strings that differ only in ASCII case |
| Text.SchemeExamples | src/renderer.js:153 | "http://", "https://", "HTTPS://" and "hTtP://" pass whatever follows them; "ftp://" followed by anything, "https:/" and "example.com" fail |
| Text.WithScheme | src/renderer.js:153-155 | the result always passes the case-insensitive `^https?://` test, equals the input exactly when the input already passes it, and otherwise is the input behind "https://" |
| Text.WithSchemeTrimmed | src/renderer.js:153-155 | adding the scheme to a trimmed non-empty string leaves it trimmed |
| Text.DecRoundTrip | src/renderer.js:169 | reading back the decimal text of a counter gives the counter |
| Text.DecInjective | src/renderer.js:169 | two numbers render to the same decimal text only if they are equal |
| Text.SerialOfStamped | src/renderer.js:169 | the serial after the first '-' of `${now}-${n}` is `n`, whatever the clock reading |
| Text.StampOfStamped | src/renderer.js:169 | the number before the first '-' of `${now}-${n}` is the clock reading `now` |
| Text.StampedInjective | src/renderer.js:169 | two `${now}-${n}` ids are equal exactly when both their clock readings and their serials are |
| Text.StampedDistinct | src/renderer.js:169 | two `${now}-${n}` ids with different serials differ even when the clock repeats |
| Numbers.ParseIntDec | src/renderer.js:331 | `parseInt` of optional whitespace, a decimal count and a non-digit tail is that count |
| Numbers.NoDigitsIsOne | src/renderer.js:331-332 | text with no digit after the whitespace and sign parses to NaN, and the create button then asks for one session |
| Numbers.CountOrOne | src/renderer.js:332 | the total is at least 1; it is the parsed count when that is finite and positive, and 1 otherwise |
| Numbers.ParseInt | src/renderer.js:331 | the result is NaN exactly when no digit follows the whitespace and the optional sign; a finite result is the digits' value with the sign applied, below the double overflow bound; an infinite one has the sign and a magnitude at or above it |
| Numbers.RequestedTotal | src/renderer.js:331-332 | the total is at least 1, is the parsed count when that is finite and positive, and is anything but 1 only when it was parsed as such |
| Numbers.RequestedTotalOfDec | src/renderer.js:331-332 | a typed positive count below the double overflow bound is used as is |
| Urls.NormalizeUrl | src/renderer.js:148-163 | absent or blank input gives null; otherwise the result exists exactly when the parser accepts the schemed trimmed input, and it is trimmed, schemed, ends with the trimmed input, and equals it exactly when the input was already schemed, and is "https://" followed by it otherwise |
| Urls.NormalizeUrlIdempotent | src/renderer.js:148-163 | normalising a normalised URL gives it back |
| Urls.NormalizeKeepsSchemedUrl | src/renderer.js:148-163 | a parsable schemed URL with surrounding whitespace normalises to the URL alone |
| Urls.NormalizePrefixesBareHost | src/renderer.js:148-163 | a trimmed input without a scheme gains exactly "https://" |
| Sessions.PartitionNameParts | src/renderer.js:196 | a partition name is `persist:session-` followed by exactly the id string |
| Sessions.PartitionNameInjective | src/renderer.js:196 | two id strings share the partition `persist:session-<id>` only if they are equal |
| Sessions.IdTextInjective | src/renderer.js:165-170 | two ids, neither a UUID whose text has only digits on both sides of its first '-', have the same text exactly when they are the same id |
| Sessions.PartitionsDistinct | src/renderer.js:195-196 | two such sessions share a partition exactly when they share an id |
| Sessions.ValidPartitionsDistinct | src/renderer.js:195-196 | in a valid manager no two tabs share a storage partition |
| Sessions.GenerateSessionId | src/renderer.js:165-170 | a UUID is used as is and leaves the counter alone; the fallback id is drawn at the current counter value and advances the counter by one |
| Sessions.FallbackIdDecodes | src/renderer.js:169 | the fallback id's text reads back as the clock reading and the counter value it was drawn at |
| Sessions.FallbackIdsDistinct | src/renderer.js:165-170 | fallback ids drawn at different counter values differ as strings, and so do their partitions |
| Sessions.InitialValid | src/renderer.js:1-3 | the empty tab list with no current tab satisfies the manager invariant |
| Sessions.ActivateTab | src/renderer.js:266-297 | an unknown id changes nothing; otherwise the id becomes current, the sessions and their order are unchanged, and a tab is active exactly when it carries the id |
| Sessions.ExactlyOneActive | src/renderer.js:266-297 | in a valid manager with tabs exactly one tab is active, the current one |
| Sessions.ActivatePreservesValid | src/renderer.js:266-297 | activation keeps the manager invariant |
| Sessions.ActivateMakesValid | src/renderer.js:266-297 | activating a known id over distinct ids restores a single current, active tab |
| Sessions.ReactivateCurrentIsIdentity | src/renderer.js:266-297 | activating the current tab again leaves a valid manager unchanged |
| Sessions.CreateSession | src/renderer.js:194-264 | exactly one session is appended at the end, the earlier sessions are unchanged, it carries the drawn id and shows the URL, it becomes current, and the counter is the allocator's |
| Sessions.CreatePreservesValid | src/renderer.js:194-264 | creating a session whose id is fresh keeps the manager invariant |
| Sessions.FallbackCreateKeepsIdsFresh | src/renderer.js:165-196 | under the clock fallback every new id is fresh, so creation keeps the invariant and every serial below the counter |
| Sessions.FindIndex | src/renderer.js:300 | the result is -1 exactly when the id is absent, and otherwise the first index carrying the id |
| Sessions.CloseTab | src/renderer.js:299-323 | an unknown id changes nothing; otherwise exactly that entry is removed with the rest in order; a closed current tab hands over to its left neighbour (the new first tab when it was first), or with no tab left the current id is cleared and the status says no sessions remain; closing another tab keeps the current one |
| Sessions.ClosePreservesValid | src/renderer.js:299-323 | closing keeps the manager invariant and the fallback serials below the counter |
| Sessions.CloseCurrentActivates | src/renderer.js:312-318 | closing the current tab with others left is activating `tabs[max(0, index-1)]` of the shortened list |
| Sessions.StepEffect | src/renderer.js:374-378 | a throwing iteration leaves the tabs and the current one alone; any other appends one tab for the URL and makes it current; either way the counter is the allocator's and the status is untouched |
| Sessions.Run | src/renderer.js:373-379 | after `n` iterations the tab count has grown by at most `n` |
| Sessions.StepValid | src/renderer.js:374-378 | under the clock fallback one iteration, thrown or not, keeps the invariant and the serials below the counter |
| Sessions.StepLastIsCurrent | src/renderer.js:374-378 | one more iteration keeps the last appended tab current |
| Sessions.RunGrows | src/renderer.js:373-379 | after `n` iterations the tab count grew by the non-throwing ones, the fallback counter by `n`, and the status is unchanged |
| Sessions.RunExtends | src/renderer.js:373-379 | after any number of iterations the earlier sessions are kept in order and every added one shows the URL |
| Sessions.RunLastIsCurrent | src/renderer.js:373-379 | after the loop the last added tab is current; with none added, tabs and current are untouched |
| Sessions.RunValid | src/renderer.js:373-379 | under the clock fallback any number of iterations keeps the invariant and the serials below the counter |
| Sessions.CreateTabs | src/renderer.js:373-379 | the loop appends one session per non-throwing iteration, all for the URL, keeps the earlier ones, makes the last one current, advances the fallback counter once per iteration, and keeps the invariant under the clock fallback |
| CreateHandler.AnswerStatus | src/renderer.js:351-364 | a reply with a string message is shown as is, as an error exactly when not ok; any other outcome is an error |
| CreateHandler.OpenTabs | src/renderer.js:369-380 | the tab path appends one session for the URL per non-throwing iteration after the earlier ones, makes the last one current, advances the fallback counter once per iteration, keeps the invariant under the clock fallback, and reports the requested total |
| CreateHandler.OnCreate | src/renderer.js:325-390 | an unusable URL only sets the error status and sends nothing; a usable one in native mode with the bridge present sends exactly the normalised URL and the requested total and changes only the status; otherwise nothing is sent and the tab path runs as `OpenTabs` states |
| CreateHandler.ReportOvercountsOnFailure | src/renderer.js:373-380 | when an iteration throws, fewer sessions are created than the reported total |
| CreateHandler.SucceededAll | src/renderer.js:373-379 | when no iteration throws, every requested session is created |
| License.StartHeartbeat | src/renderer.js:19-44 | the new interval captures the given credentials; in every state the interval the variable held stops, every other live interval keeps running, and the new one is added; the new handle is one no live interval has whenever live handles are below the next handle, as they are in a consistent gate |
| License.RestartKeepsOneTimer | src/renderer.js:19-24 | restarting the heartbeat leaves exactly one live interval, the one the variable holds |
| License.Tick | src/renderer.js:6-43 | a rejection, and only a rejection, revokes, clearing both stored entries and alerting the server's message or the default notice; an acceptance or a transport error changes nothing |
| License.BeginValidation | src/renderer.js:60-64 | while a validation is in flight the error is cleared and the button is disabled with "Verificando..." |
| License.ValidateAndUnlock | src/renderer.js:60-103 | acceptance stores both credentials, hides the overlay and starts a heartbeat for them; otherwise nothing is stored or started and the error is the server's message, "Invalid key." or the connection-error text; the button is re-enabled either way |
| License.ValidatePreservesConsistent | src/renderer.js:60-103 | validation keeps the gate invariant |
| License.Boot | src/renderer.js:105-118 | without a stored key nothing happens; a stored key is validated with a missing user sent as "Unknown"; failure removes both stored entries and leaves the gate locked |
| License.OnLoginClick | src/renderer.js:120-130 | a blank key only sets the missing-fields error; otherwise the trimmed credentials, with a blank user as "Unknown", are validated |
| License.LoginStoresTrimmed | src/renderer.js:120-130 | a successful login stores the trimmed credentials, and the heartbeat it starts captures that user and that key |
| License.LoginPreservesConsistent | src/renderer.js:120-130 | the login button keeps the gate invariant |
| License.RevocationLogsOut | src/renderer.js:6-17 | after a revocation the reloaded page finds no key and stays on the login overlay |
| App.Load | src/renderer.js:1-4 | a page load starts with no tabs and a consistent gate |
| App.HeartbeatTick | src/renderer.js:6-44 | a rejected tick reloads the page: no tabs, no heartbeat, nothing stored, overlay shown; any other tick changes nothing |
| App.NormalizedIsFinal | main.js:29-32 | the main process's trimming and prefixing leave a URL the renderer normalised unchanged |
| App.NativeRequestAccepted | main.js:22-49 | the request the renderer sends in native mode opens exactly the requested number of windows on exactly the sent URL, in distinct partitions, when that number is at most 2^53; a larger one never returns |
| Bridge.FinalUrl | main.js:29-32 | the final URL passes the scheme test; it is the trimmed input when that is already schemed, and "https://" followed by the trimmed input otherwise |
| Bridge.FinalUrlIdempotent | main.js:29-32 | feeding the final URL of any input, a blank one included, back through the trimming and prefixing gives it back |
| Bridge.WindowPartitionDecodes | main.js:35 | a window's partition is `persist:session-` followed by text that reads back as the clock reading and the loop index, the same partition a renderer fallback id with those values gets |
| Bridge.Windows | main.js:34-47 | iteration `i` opens one window on the URL in partition `persist:session-<now>-<i>` |
| Bridge.WindowPartitionsDistinct | main.js:34-47 | the windows of one batch have pairwise distinct partitions, even when the clock repeats |
| Bridge.OpenMultipleWindows | main.js:22-50 | a falsy URL or a NaN, zero or negative count returns the invalid-request reply and opens nothing; an infinite count, or one above 2^53 where `i++` stalls, never returns; any other positive count opens exactly that many windows on the final URL in distinct partitions and reports the count and URL |
| Bridge.AcceptsFinalUrl | main.js:22-50 | a final URL and a positive count up to 2^53 give an ok reply with exactly that batch; a larger count never returns |

## Left out

- `preload.js` is a one-line bridge to `ipcRenderer.invoke` with no logic of its own.
- `createMainWindow` and the `app` lifecycle handlers in `main.js` are Electron plumbing.
- DOM construction and styling are left out: list entries, tab titles, and the literal opacity, pointer-events and z-index values. A tab's webview styling is reduced to one active flag.
- `resizeWebviews`, the window resize listener and the `executeJavaScript` resize dispatch are left out. They only copy the container's float geometry to the webviews, with errors swallowed.
- The `did-start-loading`, `did-stop-loading` and `did-fail-load` handlers are left out. They only update the status text while their tab is current.
- The early return when the login elements are missing from the DOM (src/renderer.js:55-58) is left out.
- `alert`, `console` logging, `urlInput.focus()` and the create button's disabled flag (restored in `finally`) are left out.
- `fetch` and `res.json()` are replaced by their outcome, passed as an input. The 60-second timing of `setInterval` is not modelled; a tick is an event.
- A `localStorage` exception during revocation (src/renderer.js:9-14) is not modelled.
- Concurrency is not modelled: a click during an in-flight validation, or a heartbeat tick interleaving with a login. Every event runs to completion.
- The outer `catch` around the bulk loop (src/renderer.js:381-386) is not modelled. The inner `catch` absorbs every creation error, so the outer one is unreachable.
- Where `createSession` throws is an input: a throwing iteration is taken to fail after `generateSessionId` and before `tabs.push`.
- Sessions.CreateTabs: keeping ids distinct is proved only under the clock fallback. With `crypto.randomUUID` present, distinct ids depend on the randomness of UUIDs, which the model does not assume.
- Sessions.CreateTabs: the loop index is an unbounded integer. In the source it is a double, and `i++` stops advancing at 2^53, so a requested total above 2^53 makes the renderer's loop run forever; the model's loop ends. Such a total is far beyond any number of tabs a page can open.
- Sessions.GenerateSessionId: `sessionCounter` is an unbounded integer. In the source `sessionCounter++` stops advancing at 2^53, after which fallback ids drawn at the same clock reading repeat. Sessions.FallbackCreateKeepsIdsFresh and Sessions.RunValid therefore hold only while the counter stays below 2^53.
- Numbers.ParseInt: does not round magnitudes above 2^53 to the nearest double. It only models the overflow to an infinity at 2^1024 - 2^970.
- Bridge.OpenMultipleWindows: models integer counts only. A fractional count such as 2.5 would open three windows. The conversion `Number(count)` of a non-number is not modelled either.
- Decimal rendering in template literals is plain decimal. JavaScript switches to exponent notation at 10^21.
- Strings are sequences of Unicode scalar values, not UTF-16 code units, so lone surrogates cannot be written.
- License.Tick: does not record the interval being cleared before the reload, because the reload (src/renderer.js:16) discards every interval anyway.
- Cross-batch uniqueness of the main process's partition names is not claimed, since `Date.now()` can repeat between batches.
