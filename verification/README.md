# Pastebin lifecycle and rate limiting, modelled in Dafny

This project models the core of a small pastebin service. Users create text
pastes and share them by a short slug. They read, edit and delete pastes with
a secret token handed out at creation. The service has two server entry points:

- the **Express API** (`server/routes.ts`): a per-client sliding-window rate
  limiter on creation (5 admissions per 60 000 ms), plus the create, read,
  raw-read, update and delete handlers;
- the **edge function** `paste-operations`
  (`supabase/functions/paste-operations/index.ts`): a single dispatcher for
  view, edit and delete, which applies a different access policy.

Each handler is modelled as a total, pure function. It maps the store, the
clock (an integer count of milliseconds) and the request to a response and
the store left behind. The store is a `map<string, Paste>` keyed by slug. The
limiter state is a `map<string, seq<int>>` of admission times per client key.

Files and modules:

| file | module | contents |
|---|---|---|
| `values.dfy` | `Values` | nullable values; request fields (`Undefined`, `Null`, `Str`) with JavaScript truthiness |
| `text.dfy` | `Text` | ECMAScript `trim` and the blank-content test |
| `ratelimit.dfy` | `RateLimit` | `checkRateLimit`, and the theory of a stream of requests from one client |
| `paste.dfy` | `Pastes` | the paste row, the store, redaction, responses, expiration lifetimes |
| `routes.dfy` | `Routes` | the five Express handlers |
| `edge.dfy` | `EdgeFunction` | the edge function's dispatcher and its three operations |
| `lifecycle.dfy` | `Lifecycle` | properties that relate several Express requests |
| `policies.dfy` | `Policies` | where the two access policies agree and where they differ |

The main proof concerns the rate limiter. Requests arrive at non-decreasing
times, starting from an empty history. The lazily pruned history then gives
exactly the decision an ideal counter would give, where the ideal counter
keeps every admitted time and counts those inside the window
(`NextVerdictIsSlidingWindow`). It follows that no trailing window ever holds
more than five admissions (`AtMostMaxPerWindow`).

Behaviour worth noting, all of it modelled as the code has it:

- A successful create answers with status 200 (`res.json`).
- The rate limit is checked before the content. A request with blank content
  therefore still uses up one admission.
- The raw endpoint counts no view. Its access decision is exactly that of a
  read.
- Update and delete never look at the expiry. The update handler writes
  whatever content it is given, blank text or `null` included; whether the
  datastore accepts a `null` content is outside this model.
- An update whose expiration choice is unrecognised (or `null`) keeps the old
  expiry.
- The edge function's view never checks the expiry.
- In the edge function, a missing paste on edit or delete is answered with
  403, not 404.

## Model

| member | source | states |
|---|---|---|
| Values.OrElse | server/routes.ts:66-69 | `x \|\| fallback` with a non-empty fallback never yields the empty string; an empty result means the field was falsy |
| Values.OverwriteWritesSuppliedValue | server/routes.ts:188-191 | a supplied field (string or `null`) replaces the column whatever it held before |
| Text.LeadingCount | server/routes.ts:39 | the longest prefix made only of characters `trim` removes; the next character is kept |
| Text.TrailingCount | server/routes.ts:39 | the longest suffix made only of characters `trim` removes; the character before it is kept |
| Text.TrimRange | server/routes.ts:39 | `trim` keeps a range whose outside is all whitespace or line terminators, and whose ends are not |
| Text.Trim | server/routes.ts:39 | the trimmed string is the slice of the input that follows its longest trimmable prefix and leaves only trimmable characters after it; it is empty (`trim().length === 0`) exactly when every character is whitespace or a line terminator, and otherwise starts and ends on a kept character |
| RateLimit.Prune | server/routes.ts:16 | the filtered list has one entry per in-window position, each in the window, and is no longer than the input |
| RateLimit.PruneKeepsInWindowCopies | server/routes.ts:16 | filtering keeps every copy of an in-window time and drops every other time |
| RateLimit.Step | server/routes.ts:16-22 | a request is rejected iff at least 5 stored times are within 60 000 ms; when admitted, the new list has at most 5 in-window entries and ends with `now` |
| RateLimit.Check | server/routes.ts:11-25 | `checkRateLimit` returns false iff at least 5 stored times are within the window; a rejection stores nothing; an admission stores the in-window entries plus `now` (at most 5, all in window); other keys are unchanged |
| RateLimit.Advance | server/routes.ts:18-24 | each further request adds exactly one verdict |
| RateLimit.Replay | server/routes.ts:11-24 | replaying a request stream gives one verdict per request |
| RateLimit.ReplayAppend | server/routes.ts:11-24 | one more request applies one more `checkRateLimit` to the state the earlier requests left |
| RateLimit.RefusalKeepsCopies | server/routes.ts:18-20 | a refusal stores nothing, so every time the stored list lacks stays out of the window at the later instant |
| RateLimit.AdmissionKeepsCopies | server/routes.ts:16-23 | storing the filtered list plus `now` and admitting `now` keeps the invariant: the stored list lacks only out-of-window admitted times |
| RateLimit.FaithfulAdvance | server/routes.ts:16-23 | one request keeps the invariant: the stored list lacks, compared with every admitted time, only times already out of the window |
| RateLimit.ReplayFaithful | server/routes.ts:16-23 | with a non-decreasing clock, the invariant holds after any stream of requests |
| RateLimit.PruneAgreesWhenCovered | server/routes.ts:16 | under the invariant, filtering the stored list and filtering every admitted time at a later instant keep the same times, copy for copy |
| RateLimit.PrunedHistoryIsExact | server/routes.ts:13-16 | the pruned stored list holds as many in-window times as were ever admitted within the window |
| RateLimit.NextVerdictIsSlidingWindow | server/routes.ts:8-24 | the next request is admitted exactly when fewer than 5 earlier admissions lie in the trailing 60 000 ms; the admitted times and earlier verdicts evolve accordingly |
| RateLimit.PruneShrinksOverTime | server/routes.ts:16 | with no entry later than an earlier instant, a later instant finds no more entries in the window |
| RateLimit.AtMostMaxPerWindow | server/routes.ts:8-24 | at the time of each request, at most 5 admitted requests (that one included) lie within the trailing window |
| RateLimit.StepKeepsBound | server/routes.ts:16-23 | one request keeps at most 5 admissions in the trailing window: a refusal adds none, and an admission happens only with room |
| RateLimit.BoundExtends | server/routes.ts:16-23 | if at most 5 admissions lay in the window at the previous request of a non-decreasing stream, at most 5 lie in the window at the next |
| RateLimit.PruneKeepsRecent | server/routes.ts:16 | a list whose entries are all in the window survives filtering unchanged |
| RateLimit.PruneDropsStale | server/routes.ts:16 | a list with an out-of-window entry shrinks under filtering |
| RateLimit.ShortStreamAdmitted | server/routes.ts:18-23 | a stream of at most 5 requests has every request admitted |
| RateLimit.ShortStreamVerdicts | server/routes.ts:18-23 | every verdict in a stream of at most 5 requests is an admission |
| RateLimit.AdmittedWhileShort | server/routes.ts:18-23 | while fewer than 5 requests have been made, the next is admitted and the earlier verdicts stand |
| RateLimit.SixthWithinWindowRefused | server/routes.ts:8-24 | of six requests within one minute, the first five are admitted and the sixth is refused; a request made once the window has passed the first admission is admitted again |
| RateLimit.StoredHistoryGoesStale | server/routes.ts:16 | a full window after the last request of a stream, filtering leaves nothing stored |
| RateLimit.AdmittedWhenRoom | server/routes.ts:16-23 | whatever the clock reads, a request meeting fewer than 5 in-window stored times is admitted, and the stored list becomes those times plus `now` |
| RateLimit.ThenOneLater | server/routes.ts:16-23 | after five admissions, a request a full window after the last of them is admitted and leaves only itself stored |
| RateLimit.ThenBackInTime | server/routes.ts:16-23 | with one time stored, a request at an earlier clock reading is admitted |
| RateLimit.BackwardClockBreaksBound | server/routes.ts:12-24 | with a clock that steps back, five requests, one a full window later and one back within a minute of the first are all admitted: seven admissions lie in one trailing window |
| Pastes.RedactHidesOnlyToken | server/routes.ts:127-128 | two rows have the same client view exactly when they differ at most in the secret token |
| Pastes.Lifetime | server/routes.ts:49-59 | only "1h", "1d" and "1w" have a lifetime, and it is positive |
| Pastes.Viewed | server/routes.ts:123 | a read raises the view count by one and changes nothing else |
| Routes.CreateExpiry | server/routes.ts:46-60 | "1h", "1d" and "1w" expire 3 600 000, 86 400 000 and 604 800 000 ms after `now`; "never", an absent or empty choice, and anything unrecognised mean no expiry |
| Routes.UpdateExpiry | server/routes.ts:165-183 | "never" clears the expiry and a recognised choice restarts it from `now`; an absent, `null` or unrecognised choice keeps the old expiry |
| Routes.Create | server/routes.ts:31-85 | the limiter decides first (429); then absent, empty or blank content gives 400; then a used slug gives 500 (uniqueness); there is no other failure; failures insert nothing; success inserts only the new slug, with 0 views, title or null, language defaulting to "plaintext", privacy defaulting to "unlisted", and the resolved expiry, and answers with slug and token only |
| Routes.Get | server/routes.ts:95-133 | 404 iff no row, else 410 iff the expiry is strictly before `now`, else 403 iff private without the exact non-empty token; there is no other failure; failures change nothing; success stores and returns one more view, omits the token, and leaves other slugs alone |
| Routes.GetRaw | server/routes.ts:254-280 | the same 404, 410 and 403 conditions as a read and no other failure; success returns the content; the store is never changed |
| Routes.Patched | server/routes.ts:165-193 | each of title, content, language and privacy is replaced only when supplied; slug, token, views and creation time never change; the expiry follows the update rule |
| Routes.Update | server/routes.ts:143-203 | 401 iff the token is falsy (before any lookup), else 404 iff no row, else 403 iff the token differs; there is no other failure; failures change nothing; success stores the patched row and returns it without the token |
| Routes.Delete | server/routes.ts:213-244 | the same 401, 404, 403 order as update and no other failure; success removes exactly that slug and answers `{success: true}` |
| EdgeFunction.View | supabase/functions/paste-operations/index.ts:28-64 | 404 iff no row, else 403 iff private and the token is not exactly the secret; there is no other failure; the expiry is never consulted; success stores and returns one more view, without the token |
| EdgeFunction.Edited | supabase/functions/paste-operations/index.ts:84-89 | title, content, language and privacy are written as given; slug, token, views, creation time and expiry are untouched |
| EdgeFunction.Edit | supabase/functions/paste-operations/index.ts:67-103 | 403 iff the row is missing or the token differs, and no other failure; success stores the edited row and returns it without the token |
| EdgeFunction.Remove | supabase/functions/paste-operations/index.ts:107-139 | 403 iff the row is missing or the token differs, and no other failure; success removes exactly that slug and answers `{success: true}` |
| EdgeFunction.Handle | supabase/functions/paste-operations/index.ts:11-145 | OPTIONS answers "ok"; an operation other than view, edit or delete, or a missing or empty slug, gives 400 "Invalid operation"; otherwise the named operation runs |
| Lifecycle.RawReadMatchesRead | server/routes.ts:263-280 | the raw endpoint has a read's status on every input, returns the content that read would show, and changes nothing |
| Lifecycle.ReadRepeatedly | server/routes.ts:121-125 | a run of reads of one slug never adds or removes a row |
| Lifecycle.ReadsCountViews | server/routes.ts:120-125 | n successful reads in a row raise the view count by exactly n and change nothing else |
| Lifecycle.OneMoreRead | server/routes.ts:104-125 | a read ignores the view count: after k successful reads one more succeeds, raising the count to k + 1 and changing no other slug |
| Lifecycle.CreateSucceedsWhenAllowed | server/routes.ts:33-85 | a request the limiter admits, with non-blank content and an unused slug, creates the paste and answers with its slug and token |
| Lifecycle.PublicPasteServed | server/routes.ts:95-133 | a live paste that is not private is served to any caller, with one more view |
| Lifecycle.CreatedPasteReadable | server/routes.ts:46-118 | a newly created paste is readable with its token up to its expiry, showing its content and one view; after the expiry it gives 410 |
| Lifecycle.OneHourPasteExpires | server/routes.ts:50-51 | a one-hour paste is readable at exactly one hour, and any later read gives 410 whatever the token |
| Lifecycle.PrivateReadNeedsExactToken | server/routes.ts:114-118 | a live private paste is read successfully iff the token is exactly its secret; otherwise the answer is 403 |
| Lifecycle.DeletedPasteNotFound | server/routes.ts:235-238 | after a successful delete, both read endpoints answer 404 for that slug |
| Lifecycle.TitleOnlyUpdate | server/routes.ts:185-193 | an update that supplies only a title changes only the title |
| Lifecycle.CreatePreservesWellFormed | server/routes.ts:62-73 | creation keeps every row under its own slug with a 32-character token |
| Lifecycle.ReadsAndMutationsPreserveWellFormed | server/routes.ts:95-280 | reads, raw reads, updates and deletes keep every row under its own slug with a 32-character token |
| Lifecycle.CreateFollowsSlidingWindow | server/routes.ts:33-35 | creation answers 429 exactly when five requests from that client were admitted by the limiter within the last 60 000 ms, whether or not they went on to create a paste |
| Lifecycle.CreateExtendsReplay | server/routes.ts:31-35 | whatever the body, a create stores for its client the history that the client's request stream, extended by this request, leaves behind |
| Policies.TokenChecksDifferOnlyOnEmptySecret | supabase/functions/paste-operations/index.ts:45 | for a non-empty secret, both token checks agree; for an empty secret, only the edge function accepts the empty token |
| Policies.ReadsDifferOnlyOnExpiry | supabase/functions/paste-operations/index.ts:37-62 | on an unexpired paste, the edge view and the Express read have the same status, store and body; on an expired one, Express answers 410 while the edge view acts like the Express read at the expiry instant |
| Policies.DeletePoliciesAgreeOnOutcome | supabase/functions/paste-operations/index.ts:117-127 | both deletes remove the row under the same condition and leave the same store; Express fails with 401, 404 or 403 where the edge function always gives 403 |
| Policies.AsUpdate | supabase/functions/paste-operations/index.ts:68 | an edge edit body, read as an Express update, supplies all four text fields, the same token and no expiration |
| Policies.EditIsFullUpdate | supabase/functions/paste-operations/index.ts:77-103 | an edge edit equals an Express update that supplies all four fields and no expiration: the same success condition, store and record |
| Policies.OnlyExpressUpdatesExpiry | supabase/functions/paste-operations/index.ts:86 | an edge edit keeps the expiry, while an Express update with "never" clears it |
| Policies.EdgeOperationsPreserveWellFormed | supabase/functions/paste-operations/index.ts:107-139 | every edge operation keeps every row under its own slug with a 32-character token |

## Left out

- Slug and token generation (`server/utils/slug.ts`, a wrapper over nanoid) is not part of this model. Create takes the slug and token as parameters of lengths 8 and 32.
- Datastore failures that answer 500 are left out, except one: inserting an already-used slug answers 500, as the slug uniqueness constraint does. Also left out are every `catch` block, JSON-parse failures, CORS headers and logging. They depend on code outside this core.
- Request fields are strings, `null` or absent. Other JSON values (numbers, arrays, objects, and repeated query parameters) are left out. A truthy non-string `content`, for example, makes `trim` throw, which ends in a 500; a falsy one (`0`, `false`) is refused with 400 before `trim` runs.
- The row's `id` column is not modelled. `created_at` is the datastore's default; the model sets it to the request's `now`.
- Each request reads the clock once. In the source, Create reads it separately for the limiter and for the expiry.
- Timestamps are integer milliseconds. ISO-string formatting and date parsing are left out.
- The Express read's fire-and-forget view update is a plain sequential increment. Lost updates between concurrent reads are out of scope.
- The edge edit sends `undefined` fields through a client library that drops them. The model treats all four fields as supplied values.
- The limiter map is not shared between processes and is never swept, and concurrent access is out of scope. The stream theorems assume a clock that never goes backwards: `Date.now()` follows the wall clock, and when it steps back the five-per-minute bound fails (`RateLimit.BackwardClockBreaksBound`).
- The client address behind the rate-limit key (`req.ip`, the socket address, or `'unknown'`) is a parameter.
- JavaScript strings are sequences of UTF-16 code units, and `trim().length` counts code units. A Dafny `string` holds Unicode scalar values, so lone surrogates cannot be written. The `=== 0` test is unaffected, because every character `trim` removes lies in the Basic Multilingual Plane.
- The React client is left out. It holds presentation only: highlighting, clipboard access and share-URL building.
