# tiny-link: a Dafny model of the link-creation core

tiny-link is a small URL shortener: a user creates a short code for a target
URL, visitors are redirected, and a dashboard shows every live link with its
click count. This project models the parts of it that carry logic of their own:

- `POST /api/links` (`links_route.dfy`): schema parsing, the empty-code
  normalisation, the `^[A-Za-z0-9]{6,8}$` format check, the uniqueness check
  against the link table (soft-deleted rows included), the bounded
  generate-and-check loop of at most 10 attempts, the insert, and the mapping
  of every outcome to 201/400/409/503/500. The link table is the class
  `LinkStore.LinkTable`, whose `links` map is updated in place by `Create`;
  `Post` is a method over it whose result is tied to the specification
  function `PostReply`, about which the properties are proved as lemmas.
  `GET /api/links` is modelled as the count and the newest-first listing.
- The dashboard page's data logic (`dashboard.dfy`): the active-links query,
  the per-row normalisation, total clicks, link count and the rounded average.
- The dashboard form (`link_form.dfy`): the `code` refinement of its schema
  and the empty-to-absent mapping of its submit handler, related to the
  server's check.
- `TruncatedUrl` of the table's columns (`columns.dfy`).
- The uptime decomposition and reply of `/healthz` (`healthz.dfy`).

Shared pieces: `code_format.dfy` (the code regex as a predicate and the
generator's 62-symbol alphabet), `link_store.dfy` (the `Link` row, the table
class, its invariant and the `createdAt`-descending order), `wrappers.dfy`
(`Option`).

Inputs the program takes from its environment are parameters: the random
length roll and nanoid's symbol choices are a sequence of `Draw`s (one per
attempt), the database's verdict on an insert is a `CreateOutcome`
(`Commit`, or `Abort` with the thrown value's string form, `None` for a
nullish throw), the clock is `now`, the URL validity check of the schema
library is a function `isUrl`, and the connectivity check of `/healthz` is
its failure message or `None`.

Behaviour of the handlers worth noting, as the model states it:
- A unique-constraint failure on the insert is 409 "Code already exists" on
  both paths, including for a generated code; the handler does not
  regenerate.
- `GET /api/links` counts and lists every row, soft-deleted ones included;
  only the dashboard page filters on `deleted`.
- The form's `linkSchema` is declared but never given to `useForm` as a
  resolver, so it does not run; it is modelled as a standalone predicate, and
  `LinkForm.SubmittedFormatErrorIffRefineFails` shows that the server's check
  rejects exactly the codes it would have rejected.

## Model

| member | source | states |
|---|---|---|
| CodeFormat.MatchesCodeRegex | app/api/links/route.ts:56-59 | `CODE_REGEX.test` for `^[A-Za-z0-9]{6,8}$` without flags: the whole string has 6 to 8 characters, all in the class; `LinkForm.RefineOnNonEmptyCode` and `LinksRoute.EveryValidCodeIsACandidate` state what it accepts |
| CodeFormat.AlphabetAsWritten | app/api/links/route.ts:102 | the alphabet, defined symbol by symbol, is the route's 62-character literal |
| CodeFormat.SymbolAt | app/api/links/route.ts:102 | every alphabet symbol is in `[A-Za-z0-9]` |
| CodeFormat.AlphabetIsCharacterClass | app/api/links/route.ts:102 | the alphabet has 62 symbols, and a character is in it exactly when it is in `[A-Za-z0-9]` |
| LinkStore.NewLink | app/api/links/route.ts:81-83 | a created row has the given code and URL, zero clicks, no last click, the creation time and `deleted = false` |
| LinkStore.InsertKeepsWellFormed | app/api/links/route.ts:80-84 | inserting a fresh well-formed code with the next id keeps codes unique, keyed by themselves, well formed, and ids distinct |
| LinkStore.LinkTable.FindUnique | app/api/links/route.ts:71-73 | finds the row with the code whenever there is one, soft-deleted or not; the table is unchanged and one more lookup is counted |
| LinkStore.LinkTable.Create | app/api/links/route.ts:81-83 | on commit the table gains exactly the new row under its code and nothing else changes; on a throw nothing changes; no lookup is counted; the invariant is kept |
| LinkStore.SortNewestFirstCorrect | app/api/links/route.ts:16-18 | the `createdAt`-descending order returns a permutation of the rows, newest first |
| LinksRoute.ParsePayload | app/api/links/route.ts:35-46 | the body is accepted exactly when it is an object whose `targetUrl` is a URL string and whose `code` is absent or a string; the values pass through unchanged |
| LinksRoute.NormalizeCode | app/api/links/route.ts:51-54 | the result is absent exactly for an absent or empty code, and otherwise is the code |
| LinksRoute.CodeFormatOk | app/api/links/route.ts:59 | a code passes when it is absent or matches the code regex; `LinkForm.RefineAgreesWithServer` and `LinksRoute.MalformedCodeIsBadRequest` state its effect |
| LinksRoute.ThrownMessage | app/api/links/route.ts:87 | the message is the thrown value's string form, or "Database error" for a nullish throw |
| LinksRoute.Contains | app/api/links/route.ts:88 | `includes`: the empty string is contained in every string, and no string contains a longer one |
| LinksRoute.MentionsUnique | app/api/links/route.ts:88 | the message includes "Unique" or "unique"; `LinksRoute.PrismaUniqueViolationIsConflict` and `LinksRoute.NullishThrowIsServerError` show both outcomes |
| LinksRoute.CreateFailureReply | app/api/links/route.ts:85-95 | a failed insert is 409 "Code already exists" exactly when the message contains "Unique" or "unique", and otherwise 500 with the message |
| LinksRoute.PrismaUniqueViolationIsConflict | app/api/links/route.ts:88-93 | the database's unique-constraint error maps to 409 |
| LinksRoute.NullishThrowIsServerError | app/api/links/route.ts:126-133 | a nullish throw becomes "Database error" and maps to 500 |
| LinksRoute.CreateReply | app/api/links/route.ts:122-134 | the reply is 201 with the new row exactly when the insert commits, and the failure mapping otherwise |
| LinksRoute.CandidateLength | app/api/links/route.ts:105 | each attempt's length is 6, 7 or 8 |
| LinksRoute.Candidate | app/api/links/route.ts:106-107 | a candidate has one character per symbol nanoid picks, each in `[A-Za-z0-9]` |
| LinksRoute.CandidateMatchesRegex | app/api/links/route.ts:102-107 | every generated candidate has the rolled length, uses only alphabet symbols and matches the code regex |
| LinksRoute.EveryValidCodeIsACandidate | app/api/links/route.ts:102-107 | every code of the regex's format is the candidate of some draw |
| LinksRoute.FirstFree | app/api/links/route.ts:103-113 | the chosen attempt is the first of the ten whose candidate is absent, all earlier ones being taken; none means all ten are taken |
| LinksRoute.GenerateCode | app/api/links/route.ts:99-113 | the loop leaves the table unchanged, makes between 1 and 10 lookups on it (counted by the table), and returns the first free candidate, or an empty code after 10 taken ones |
| LinksRoute.PostReply | app/api/links/route.ts:32-135 | the reply is one of 201, 400, 409, 500, 503; a malformed body is 400 "Invalid payload"; a created row follows a committed insert, has a code absent from the table, the next id, the request time, zero clicks and is live |
| LinksRoute.StoreAfter | app/api/links/route.ts:80-84 | after a failure the table is unchanged; after a 201 it gains the created row under its code and every other row is unchanged |
| LinksRoute.CreateAndReply | app/api/links/route.ts:122-134 | the reply is the create-and-catch mapping for the new row; the table gains that row only when the reply is 201; the invariant is kept |
| LinksRoute.Post | app/api/links/route.ts:32-135 | the reply is `PostReply` of the old table; the table changes only by the created row; the table's own lookup counter grows by at most 10; the invariant is kept |
| LinksRoute.EmptyCodeIsOmittedCode | app/api/links/route.ts:51-54 | a request with an empty code gets the same reply as one without a code |
| LinksRoute.MalformedCodeIsBadRequest | app/api/links/route.ts:56-67 | a non-empty code not matching the regex is 400 and leaves the table unchanged |
| LinksRoute.TakenCodeIsConflict | app/api/links/route.ts:70-79 | a valid code already stored, deleted or not, is 409 |
| LinksRoute.FreeCodeIsCreated | app/api/links/route.ts:80-84 | a valid free code whose insert commits is 201; the table gains exactly that row and every other row is unchanged |
| LinksRoute.ExhaustedGenerationIsUnavailable | app/api/links/route.ts:115-120 | when all ten candidates are taken the reply is 503 |
| LinksRoute.GeneratedCodeIsFresh | app/api/links/route.ts:99-124 | a generated code was absent at lookup, matches the regex, and is the first free candidate among the ten |
| LinksRoute.AbortedCreateIsFailure | app/api/links/route.ts:125-134 | a failed insert never creates and leaves the table unchanged; a 500 carries the message, which does not mention "unique" |
| LinksRoute.RepliesAreWellFormed | app/api/links/route.ts:32-135 | every reply is 201, 400, 409, 500 or 503; a created row has a fresh, well-formed code and the next id; the table stays well formed |
| LinksRoute.SameCodeTwiceConflicts | app/api/links/route.ts:70-79 | after a request creates a link under an explicit code, a second request with that code is 409 |
| LinksRoute.GetLinks | app/api/links/route.ts:5-30 | `count()` and `findMany` ordered by `createdAt` descending over the table's rows, with no filter; `LinksRoute.GetListsEveryRowNewestFirst` and `LinksRoute.GetListsTheTable` state what it lists |
| LinksRoute.GetListsEveryRowNewestFirst | app/api/links/route.ts:5-30 | the count equals the number of listed links, and the list holds every row, deleted ones included, newest first |
| LinksRoute.GetListsTheTable | app/api/links/route.ts:6-19 | over the rows of a table, every stored row is listed and nothing else is |
| Dashboard.ActiveRows | app/page.tsx:14-15 | the filter returns no more rows than it is given, each of them live and one of the given rows |
| Dashboard.ActiveRowsCounts | app/page.tsx:14-15 | the filter keeps each live row as often as it is stored and no deleted row |
| Dashboard.DashboardLinks | app/page.tsx:14-25 | the listed links are a permutation of the live rows, newest first |
| Dashboard.DashboardListsActiveNewestFirst | app/page.tsx:14-25 | the dashboard lists exactly the live rows, no deleted one, newest first |
| Dashboard.DashboardListsLiveTableRows | app/page.tsx:14-25 | over the rows of a table, a stored row is shown exactly when it is not soft-deleted, and nothing else is shown |
| Dashboard.CreatedLinkIsListed | app/page.tsx:14-25 | a link `POST` creates is listed by `GET /api/links` and shown on the dashboard, whatever order the rows come back in |
| Dashboard.NormalizeLink | app/page.tsx:27-37 | a row keeps its link's code, URL and click count, its id and creation time are the link's converted, and the last-click fields are null exactly when the link was never clicked |
| Dashboard.NormalizedLinks | app/page.tsx:27-37 | the mapping gives one row per link |
| Dashboard.NormalizedLinksPreserve | app/page.tsx:27-37 | normalisation keeps length and order, each code, URL and click count; the last-click fields are null exactly when the link was never clicked |
| Dashboard.TotalClicks | app/page.tsx:39 | the total is at least the click count of every link |
| Dashboard.TotalClicksPermutation | app/page.tsx:39 | any two lists holding the same links, each as often, have the same total, so the order the database returns does not matter |
| Dashboard.TotalClicksActive | app/page.tsx:39 | the fold over the active links equals the clicks of the live rows counted row by row |
| Dashboard.AverageClicks | app/page.tsx:41 | 0 with no links; otherwise the result lies within a half of the quotient, halves rounding up |
| Dashboard.AverageIsNearest | app/page.tsx:41 | the rounded average is the only integer within a half of the quotient |
| Dashboard.AverageExamples | app/page.tsx:41 | 2.5 rounds to 3, 1.75 to 2, 1.25 to 1, and no links gives 0 |
| Dashboard.DashboardStats | app/page.tsx:39-41 | the link count is the number of links; with none, all three figures are 0; otherwise the average lies within a half of total over count |
| Dashboard.DashboardStatsOfTable | app/page.tsx:39-41 | total clicks is the sum over live rows, the link count is the number of live rows, and the average is their rounded quotient or 0 |
| LinkForm.CodeRefine | components/dashboard/dashboard-table-header.tsx:22-25 | an absent or empty code passes, any other must match the code regex; `LinkForm.RefineOnNonEmptyCode` and `LinkForm.RefineAgreesWithServer` state it against the server |
| LinkForm.SubmittedCode | components/dashboard/dashboard-table-header.tsx:50 | the code is sent as absent exactly when it is absent or empty, and a non-empty one as itself |
| LinkForm.SubmitBody | components/dashboard/dashboard-table-header.tsx:48-51 | the request body carries the URL, and the code property only when the code is present |
| LinkForm.RefineOnNonEmptyCode | components/dashboard/dashboard-table-header.tsx:25 | a non-empty code passes exactly when it has 6 to 8 characters, all in `[A-Za-z0-9]` |
| LinkForm.RefineExamples | components/dashboard/dashboard-table-header.tsx:22-25 | absent and empty codes pass; 5 or 9 characters and a `-` are rejected |
| LinkForm.SubmittedCodeIsNormalized | components/dashboard/dashboard-table-header.tsx:50 | the form's mapping is the server's normalisation, and normalising again changes nothing |
| LinkForm.RefineAgreesWithServer | components/dashboard/dashboard-table-header.tsx:20-26 | the refinement accepts a code exactly when the server's normalisation and format check accept it |
| LinkForm.SubmittedFormatErrorIffRefineFails | components/dashboard/dashboard-table-header.tsx:41-52 | for a submitted form, the server answers 400 "Invalid code format" exactly when the refinement rejects the code |
| Columns.TruncatedUrl | components/dashboard/columns.tsx:36-43 | the shown text never exceeds 50 characters |
| Columns.TruncatedUrlCases | components/dashboard/columns.tsx:37 | a URL of at most 50 characters is unchanged; a longer one becomes its first 47 characters and "...", exactly 50 |
| Columns.TruncatedUrlIdempotent | components/dashboard/columns.tsx:37 | truncating twice is truncating once, and the result is the URL or its 47-character prefix with "..." |
| Healthz.TotalSeconds | app/healthz/route.ts:7-10 | a normalised uptime of `d` days stands for a number of seconds within day `d` |
| Healthz.Decompose | app/healthz/route.ts:6-10 | hours below 24, minutes and seconds below 60, days the whole-day quotient, and the parts sum back to the total |
| Healthz.DecomposeSum | app/healthz/route.ts:7-10 | the four div/mod terms sum back to the number of seconds |
| Healthz.DecomposeTotalSeconds | app/healthz/route.ts:6-10 | a normalised uptime is recovered from its number of seconds |
| Healthz.Health | app/healthz/route.ts:16-36 | the reply is always 200 with `ok: true`; the database status is ok exactly when the check did not throw, and carries the error otherwise |

## Left out

- Database I/O is an in-memory map: `findUnique` is a map lookup, `create` a map update. The race between lookup and insert is only the `Abort` outcome of an insert; `LinkStore.LinkTable.Create` requires the code to be absent, which holds because nothing runs between the handler's lookup and its insert in this model.
- LinkStore.LinkTable.Create: ids are a counter advanced on each committed insert; how the database really assigns ids (and whether a failed insert consumes one) is not modelled.
- Randomness: the distribution of `Math.random` and of nanoid's symbol choices (uniformity, its rejection sampling) is not modelled; only which lengths and symbols can occur.
- `request.json()` throwing on a body that is not JSON (an unhandled error answered by the framework) is not modelled; the body is given already parsed.
- The schema library's `.url()` check is the parameter `isUrl`; unknown body properties, which the schema strips, are not represented.
- Response construction: JSON serialisation, `Cache-Control` and `Refresh` headers, and the `select` projections (the model returns whole rows, so listed rows also carry `deleted`).
- Dashboard.AverageClicks: computed on exact integers; the page divides in floating point, which can differ once totals pass 2^53.
- Date handling: `toISOString`, `formatUTC`, `String(id)` are parameters of `Dashboard.NormalizeLink`, and `formatDuration`'s text for the uptime is not produced (the model returns the four components).
- `process.uptime()` is fractional; the model starts from its whole seconds after `Math.floor`. The `$disconnect` call of `/healthz` is not modelled.
- Columns.TruncatedUrl: lengths are counted in characters; the source counts UTF-16 code units, and `substring` can split a surrogate pair.
- The redirect, `GET /api/links/{code}` and `DELETE /api/links/{code}` handlers, click counting and soft deletion (app/[code]/page.tsx, app/api/links/[code]/route.ts, app/code/[code]/page.tsx) are not part of this model; soft-deleted rows appear only as rows with `deleted = true` in the table.
- All React state and rendering (dialogs, toasts, copy buttons, the table's other cells, page reloads) is not part of this model.
