# Crabhop in Dafny

Crabhop is a link shortener: visitors follow short links or read shared texts,
an administrator creates, edits, lists and disables them, and clicks are counted
per link and UTC day. This project models the parts of it whose fast, concurrent
or textual form has to agree with something simple, and proves that it does.

`dafny verify dfyconfig.toml` checks everything.

## How it is organised

- **Clicks** (`Clicks`, `Activity`, `ClickQueue`). Handlers offer clicks to a
  bounded queue, one worker writes them, `flush` is a message in the same queue.
  The specification is a plain log: a table is the fold of the clicks written,
  and every number shown is a count over that log.
- **Links** (`LinkRules`, `LinkStore`, `LinkRuns`, `LinkRequests`, `LinkClocks`,
  `LinkStatus`, `History`). Each operation is read off its request; then each SQL
  statement and each clock reading is one atomic step, and the steps of any number of
  requests interleave.
  `History.LastMention` is the specification of last-writer-wins.
- **The list query** (`Like`, `Sql`, `Filters`, `Ordering`, `Pages`, `ListQuery`).
  The two statements are assembled token by token with separately built bindings,
  parsed with SQL's precedence, evaluated in three-valued logic, and compared with
  "choose, sort, take one page".
- **Text** (`Text`, `Calendar`, `Rfc3339`, `AdminExpiry`, `HtmlEscape`,
  `Base64Url`, `Base64Meaning`, `Csrf`, `Cookies`). Printers and parsers, and that they undo each
  other. Grammars are those of section 5.6 of RFC 3339, section 5 of RFC 4648 and
  section 4.2.1 of RFC 6265.
- **The expiration widget** (`LocalTime`, `Widget`). The browser's local field and
  hidden UTC field over an arbitrary timezone with gaps and repeated hours
  (section 21.4 of ECMA-262, 2024).
- **Together** (`Service`, `Overview`). Links, visitors and the pipeline in one
  system: what visitors get, what is counted, and what the list then shows.

Code that changes state is a class (`AnalyticsDb`, `ClickRecorder`, `LinkDb`,
`ExpirationWidget`) or a method with loops, each proved against a function; the
lemmas are about those functions and about runs of them. The methods of `LinkDb`
require and keep the primary key: every row is under its own slug.

Where a property is not true as one would first state it, the code is kept and
the exact condition is proved:

- printing and parsing an instant give it back exactly for the years 0000 to 9999
  (`Rfc3339.PrintParseExact`, `AdminExpiry.FieldRoundTrip`); outside them the code
  prints an empty text or the epoch;
- two patches commute, clocks apart, exactly when they do not set one field to
  different values (`LinkRules.PatchesCommute`);
- in runs whose clock never goes back, a write lowers its row's `updated_at` exactly
  when the row's last committed write read the clock after it and a later time
  (`LinkClocks.UpdatedAtGoesBackWhen`; of readings that all differ the order alone
  decides, `LinkClocks.GoesBackByOrder`), it leaves a clock older than some earlier one
  exactly when any committed write did (`LinkClocks.ShowsOlderClockWhen`), and any row
  can be brought there (`LinkClocks.UpdatedAtGoesBack`);
- pages tile the list exactly while their number fits the `u32` cast
  (`Pages.PagesTile`); requests, whose page is normalized first, display a number and
  reach a row exactly within 10000 pages (`Pages.DisplayedWhen`,
  `ListQuery.RequestReaches`), and following "next" visits all pages exactly when
  10000 are enough (`Pages.WalkVisitsAll`);
- `localDate` accepts a local time that occurs only if `setFullYear`, applied at
  the epoch's local time of day, is not itself pushed to another day by a gap
  (`LocalTime.DateOfExact`, with `LocalTime.OccurringTimeRejected` for a zone in
  which a whole day is refused);
- what the widget would submit says what it shows exactly when no form reset awaits
  its zero-delay timer, or the reset was harmless: the field showed the initial time
  already, or nothing where the initial display is empty, or the form was blocked
  (`Widget.SubmitsWhatIsShown`, with `Widget.StaleSubmission` for a run in which it
  does not);
- the server reads what the widget submits exactly for UTC years 0000 to 9999 and
  refuses the rest (`AdminExpiry.SubmittedInstantRead`, `Widget.ServerReadsWhatIsShown`).

## Model

| member | source | states |
|---|---|---|
| ClickQueue.Conservation | src/db/analytics.rs:32-73 | In every interleaving the clicks offered are, as a multiset, the dropped, queued, held, failed, written and lost-with-the-worker ones; nothing is lost while the worker runs; the queue holds at most 1024; the table is the fold of the written clicks |
| ClickQueue.FlushIsBarrier | src/db/analytics.rs:75-85 | Once a flush is answered, every click accepted before it was queued has been attempted, in order |
| ClickQueue.AttemptsFollowAcceptance | src/db/analytics.rs:47-60 | Writes are attempted in the order of acceptance, none skipped |
| ClickQueue.StepKeeps | src/db/analytics.rs:32-85 | Offering, queueing a flush, taking, completing and stopping each keep bounds, order, accounting, table and flush positions |
| ClickQueue.ClickRecorder.TryRecord | src/db/analytics.rs:67-71 | Never waits: queues the click exactly when the queue is open, holds fewer than 1024 messages and no waiting send has been given the room, drops it otherwise, and says which |
| ClickQueue.ClickRecorder.SendFlush | src/db/analytics.rs:77-81 | A flush takes its place in the queue behind every click accepted so far |
| ClickQueue.ClickRecorder.Finish | src/db/analytics.rs:47-58 | A held click that is written adds its one upsert to the table, a failed one leaves it as it was; a held flush is answered; either way nothing is held any more |
| ClickQueue.CompletionWrites | src/db/analytics.rs:47-58 | Completing a held click with success makes it the last written one, with failure the last failed one, and nothing else is written or failed |
| ClickQueue.ClickRecorder.Drain | src/db/analytics.rs:46-61 | The worker loop over a full queue is the run of its take and complete steps and empties the queue |
| Clicks.AnalyticsDb.RecordClick | src/db/analytics.rs:129-148 | Adds one to the row of the click's link and UTC day, or makes it, and keeps the later last-click time |
| Clicks.RowMeaning | src/db/analytics.rs:129-148 | After any clicks a link and day has a row exactly when it had clicks, with their number and their latest time |
| Clicks.UpsertsOrderFree | src/db/analytics.rs:129-148 | Any permutation of the clicks gives the same table |
| Clicks.FoldAligned | src/db/analytics.rs:88-90 | Every stored day is the start of a UTC day, also before 1970 |
| Activity.WalkSeries | src/db/analytics.rs:197-214 | The two-pointer walk equals looking up every day of the range |
| Activity.GetLinkActivity | src/db/analytics.rs:165-222 | Total, seven-day figure, last click and series are the plain sums, maximum and lookups, each over the table its own query saw |
| Activity.SummaryIsOfClicks | src/db/analytics.rs:151-222 | Each figure is a count over the clicks written when its query ran: all of the link, those since six days before the start of today, the latest, and those inside each of the last `days` UTC days, one bucket of 86,400,000 ms each, the last being today, for 1 to 366 days |
| Activity.WeekExceedsTotalWhen | src/db/analytics.rs:176-189 | With writes between the queries the seven-day figure exceeds the total exactly when more clicks of the week were written in between than the link had before the week |
| Activity.StoredSum | src/db/analytics.rs:151-189 | Stored counts on any set of stored days add up to the clicks on those days |
| Activity.SeriesSum | src/db/analytics.rs:197-214 | The buckets of a range hold each stored row of the range exactly once |
| Activity.TotalsAgree | src/db/analytics.rs:165-222 | On one snapshot the total is the series plus rows outside the window, and the seven-day figure is the last seven buckets plus rows dated after today |
| Activity.EmptyIsQuiet | src/db/analytics.rs:107-125 | The placeholder is the summary of a link without clicks |
| LinkRules.NormalizeMeaning | src/domain/link.rs:147-181 | Normalizing a custom slug gives a normal slug, and leaves exactly the normal ones unchanged |
| LinkRules.GeneratedIsNormal | src/domain/link.rs:183-192 | Every generated slug is accepted unchanged by the custom-slug rules |
| LinkRules.SlugOfOneDraw | src/domain/link.rs:183-192 | Two draws give the same slug exactly when they are equal |
| LinkRules.CustomSlugMeaning | src/domain/link.rs:147-181 | A custom slug is used in lower case exactly when it has 3 to 64 ASCII letters, digits, `_` and `-` and is not reserved in any case |
| LinkRules.LabelMeaning | src/domain/link.rs:194-217 | A label is accepted exactly when what it would store, nothing for a missing or blank one and otherwise the text between its outer whitespace, is lawful, and stores that |
| LinkRules.LabelRefused | src/domain/link.rs:194-217 | A label is refused exactly when more than 256 bytes, or a control character other than a tab, are left of it (its message speaks of characters) |
| LinkRules.TextMeaning | src/domain/link.rs:40-60 | Shared text is accepted exactly when it is not blank and has at most 65536 bytes and no NUL |
| LinkRules.ExpiryMeaning | src/domain/link.rs:16-38 | An expiry is accepted exactly when it is after the clock reading and its year is 0000 to 9999 |
| LinkRules.UpdateAccepted | src/db/links.rs:451-478 | An update is refused exactly when a target, text, label or expiry it mentions is not lawful for the row |
| LinkRules.PatchGrants | src/db/links.rs:451-503 | From the request to the row: each field mentioned holds the value asked for, each field omitted is unchanged |
| LinkRules.PatchKeepsRow | src/db/links.rs:451-492 | A validated patch keeps any row of its type lawful, passes the CHECK and leaves id, slug, kind and creation time alone, whatever the row has become since it was read |
| LinkRules.PatchesCommute | src/db/links.rs:480-492 | Two patches commute except on the clock exactly when they agree on every field both set |
| LinkRules.PatchAndToggleCommute | src/db/links.rs:480-517 | A patch and a toggle commute except on the clock |
| LinkRules.PatchesInAnyOrder | src/db/links.rs:480-492 | Any number of agreeing patches give the same row in any order, clock aside |
| LinkStore.LinkDb.InsertLink | src/db/links.rs:130-160 | Adds exactly the new row, or reports a conflict or a constraint failure and changes nothing |
| LinkStore.LinkDb.CreateWithGeneratedSlug | src/db/links.rs:102-128 | The retry loop returns the outcome of the first try that is not a conflict, or an internal error after ten |
| LinkStore.GeneratedRowOk | src/db/links.rs:102-128 | A create with a generated slug makes the row of its first try whose slug and id are free, under that slug, id and clock, and fails exactly when none of the ten is |
| LinkStore.CreateAccepted | src/db/links.rs:52-66 | The validation of a create passes exactly for a lawful text without a target, or a target the validator takes, with a lawful label and expiry |
| LinkStore.InsertedIsNew | src/db/links.rs:130-160 | An INSERT of validated content under a normal slug makes the row asked for exactly when slug and id are free, and otherwise is a conflict |
| LinkStore.LinkDb.CreateLink | src/db/links.rs:47-160 | Read off its request: refused exactly when something asked for is not lawful; a slug of its own is used in lower case with the id and clock of its one INSERT, or is a conflict; a generated one is that of the first try whose slug and id are free, and an error after ten that are not; the row holds what the validator made of the target asked for, the text, the label trimmed and the expiry, enabled, created and updated at the deciding clock; errors change nothing |
| LinkStore.LinkDb.CommitPatch | src/db/links.rs:480-503 | The UPDATE writes exactly the fields of the patch and the clock |
| LinkStore.LinkDb.UpdateLink | src/db/links.rs:446-503 | Read off its request, for a lawful row: refused exactly when something asked for is not lawful, and otherwise every field mentioned holds what was asked for (the target as validated, the label trimmed, null for none), every field omitted is as it was, and the clock is the second reading; errors change nothing |
| LinkStore.LinkDb.SetDisabled | src/db/links.rs:505-517 | Stores the clock as the disabled time exactly when disabling, none when enabling, moves `updated_at`, and changes nothing else in that row or any other |
| LinkRuns.LastWriterWins | src/db/links.rs:446-517 | In every interleaving each field of each row is what the last committed request mentioning it asked for, read off the requests as they came in: a null is a mention, an omission is not, disabling stores its own reading; id and creation time are those of the create |
| LinkRequests.WritesWereAsked | src/db/links.rs:47-517 | Every committed write of a run carries the input of one of its requests, under that request's slug in lower case, and a toggle the flag it was asked for |
| LinkRequests.StepLogs | src/db/links.rs:47-517 | In every lawful state an INSERT succeeds exactly when slug and id are free and an UPDATE exactly when its row exists, and each logs its own request with the reading it held; no other step logs anything |
| LinkRequests.CreateAlone | src/db/links.rs:47-160 | The steps of a create nobody interrupts change the table as `create_link` does, with its retries |
| LinkRequests.UpdateAlone | src/db/links.rs:446-503 | The steps of an update nobody interrupts change the table as `update_link` does |
| LinkRequests.ToggleAlone | src/db/links.rs:505-517 | The steps of a toggle nobody interrupts change the table as `set_disabled` does |
| LinkRuns.RowsStayLawful | migrations/0003_add_shared_text.sql:3-4 | In every reachable state slugs and ids are unique, slugs are normal, text rows have no target and 1 to 65536 bytes without NUL, other targets came from the validator, and the CHECK holds |
| LinkRuns.IdentityIsForever | src/db/links.rs:446-517 | No later run removes a row or changes its id, slug, kind or creation time |
| LinkRuns.CommitsSucceed | src/db/links.rs:494-502 | Although the type check used a possibly stale row, a pending UPDATE finds its row and passes the CHECK, and a pending INSERT never fails the CHECK |
| LinkRuns.OneRowPerCreate | src/db/links.rs:47-160 | In every interleaving rows and successful creates correspond one to one |
| LinkClocks.UpdatedAtGoesBackWhen | src/db/links.rs:479-517 | In every run whose clock never went back, a step lowers a row's `updated_at` exactly when it is the UPDATE of a request overtaken by the row's last committed write: one that read the clock after it, read a later time, and committed first; so creates and writes that do not overlap never lower it |
| LinkClocks.GoesBackByOrder | src/db/links.rs:479-517 | When no two readings show the same time, the condition is only that the row's last committed write read the clock after the UPDATE's request |
| LinkClocks.ShowsOlderClockWhen | src/db/links.rs:479-517 | ... and it leaves a clock older than one the row has shown at any earlier moment exactly when some committed write to the row overtook it |
| LinkClocks.OvertakenCommitRaises | src/db/links.rs:479-517 | An UPDATE overtaken, in order of readings and in time, by a committed write that is not the last one still raises the clock |
| LinkClocks.UpdatedAtGoesBack | src/db/links.rs:479-517 | From any lawful state two overlapping updates take any row's `updated_at` back from a later to an earlier time |
| LinkStatus.StatusPartition | src/web/public.rs:173-189 | At any time a stored link is exactly one of active, expired and disabled, and visitors are served, told it is gone, or told it is not there accordingly, the first only with a target free of control characters |
| LinkStatus.ToggleVisits | src/db/links.rs:505-517 | After a toggle visitors of the link are told it is not there exactly if disabling was asked for, at any time, and other links answer as before |
| LinkStatus.ExpiringSoonWhen | src/db/links.rs:404-411 | A link is expiring soon exactly when it is enabled and expires after now and within seven days |
| Like.SearchMeaning | src/db/links.rs:367-374 | The pattern with the text between two `%` matches exactly when the text, read as a pattern, matches a substring |
| Like.SearchFindsOccurrences | src/db/links.rs:367-395 | The search never misses an occurrence ignoring ASCII case, and finds nothing else when the text has no wildcard |
| Filters.SearchFindsRows | src/db/links.rs:393-395 | The search selects every row whose slug, target or label contains the text, ignoring ASCII case, and only those when the text has no wildcard |
| Filters.SearchSelects | src/db/links.rs:367-395 | Read off the query itself, with `t` what is left of it without outer whitespace: rows of the status and kind in which `t` occurs are selected, no others if `t` has no wildcard, and in general exactly those in which some part matches `t` as a pattern |
| Filters.StatusFilterMeaning | src/db/links.rs:334-345 | Each status fragment, with its own bindings and NULLs, is true of exactly the rows of that status |
| Filters.ClauseSelects | src/db/links.rs:384-415 | For every status, kind and search the joined clause parses to an expression with one placeholder per bound value that is true of exactly the selected rows |
| Filters.ClauseLinesUp | src/db/links.rs:384-433 | The pushed fragments and the separately built bindings line up, in the same order |
| ListQuery.ListLinks | src/db/links.rs:363-444 | Both assembled statements are well formed and the answer is choose, sort, take one page, on any two states of the table the statements may see, any clock and any parameters; what is chosen, counted and shown is said by `SearchLists`, `BlankSearchLists`, `TotalIsSelected`, `AnswerPage` and `AnswerItems` |
| ListQuery.SearchLists | src/db/links.rs:363-436 | A search lists every row of the status and kind that has the query, without its outer whitespace, in its slug, target or label ignoring ASCII case, and no row without it unless it has a wildcard |
| ListQuery.BlankSearchLists | src/db/links.rs:334-374 | With a missing or blank query a row is listed exactly when its disabled time, its expiry against the clock and seven days, and its text column say so |
| ListQuery.TotalIsSelected | src/db/links.rs:402-415 | The total is the number of rows selected among those the count statement saw |
| ListQuery.AnswerPage | src/db/links.rs:363-444 | The page shown is the one asked for unless it is past the last of the rows counted, and its size the one asked for within 1 to 100 |
| ListQuery.AnswerItems | src/db/links.rs:420-436 | An answer holds the rows of the listing from its offset on, in order, as many as fit or are left |
| ListQuery.CountRuns | src/db/links.rs:376-415 | The count statement counts the chosen rows |
| ListQuery.ListRuns | src/db/links.rs:377-436 | The list statement sorts and slices the same chosen rows |
| ListQuery.ListingMeaning | src/db/links.rs:351-361 | The whole listing holds exactly the selected rows, once each, in the stated order with the slug as tie-break |
| ListQuery.AnswerIsOfTable | src/db/links.rs:363-444 | The answer depends on the tables seen only, not on the order rows are scanned |
| ListQuery.AnswersTile | src/db/links.rs:417-436 | Asking for every page lists every selected row once, in order, exactly while the page count fits its cast; no answer is empty while rows match |
| ListQuery.RequestReaches | src/web/api.rs:201-201 | With the page normalized before the query, as both callers do, row number i is answered to some request exactly when it is within 10000 pages |
| ListQuery.RequestsReachAll | src/db/links.rs:326-330 | Requests reach every selected row exactly when 10000 pages are enough |
| ListQuery.EmptyAnswerWhen | src/db/links.rs:417-436 | With writes between the two statements an answer is empty exactly when its offset is past the rows still matching |
| ListQuery.ItemFigures | src/db/links.rs:377-382 | The total and last click beside a row are those of the clicks written for it |
| Ordering.BeforeIsTotal | src/db/links.rs:349-361 | Any order containing the slug term separates any two rows with different slugs |
| Ordering.BeforeIsTransitive | src/db/links.rs:349-361 | Lexicographic orders over the terms are transitive |
| Ordering.SortedIsUnique | src/db/links.rs:349-361 | Two ordered permutations of the same rows are equal |
| Pages.TotalPagesMeaning | src/db/links.rs:417-419 | The rounded-up, saturating quotient is the least number of pages that holds everything, zero only for nothing |
| Pages.FloatIsExact | src/db/links.rs:418-418 | The computation in rounded floating point gives that number for every total and page size |
| Pages.PagesTile | src/db/links.rs:417-436 | Concatenated pages are the list, exactly while their number fits the cast |
| Pages.ClampedPageHasItems | src/db/links.rs:417-420 | Whatever page is asked for, it has items if there are any, and past the end it is the last page |
| Pages.DisplayedRanges | src/web/admin.rs:457-465 | The ranges that requests display, their page being normalized first, do not overlap: number i is in the range exactly of the requests that visit the page holding it, and labels item i there |
| Pages.DisplayedWhen | src/web/admin.rs:431-465 | Some request displays number i exactly when it is within 10000 pages, so the ranges partition 1 to total exactly up to that cap |
| Pages.WalkByNext | src/web/admin.rs:487-490 | Following "next" k times shows page k+1, ends after the last page, or stays on page 10000 |
| Pages.WalkVisitsAll | src/db/links.rs:326-330 | Following "next" visits every page once and ends exactly when 10000 pages are enough |
| Pages.PreviousUndoesNext | src/web/admin.rs:487-490 | "previous" leads back from "next" exactly below page 10000 |
| Rfc3339.PrintParseExact | src/state.rs:82-107 | Printing and parsing an instant give it back exactly when its year is 0000 to 9999, negative instants included |
| Rfc3339.AnyOffsetSameInstant | src/state.rs:93-107 | The same instant spelled with any offset and any fraction digits beyond the millisecond parses equally |
| Rfc3339.SpellingReadBack | src/state.rs:104-106 | Any valid fields, fraction and zone are read as the instant they denote |
| Rfc3339.PrintedText | src/state.rs:82-90 | Character by character what is printed: each number in its place, the separators, the fraction and the zone of UTC |
| Rfc3339.FractionText | src/state.rs:82-90 | The fraction is absent for whole seconds and otherwise a point and one to three digits, the last not zero, worth the milliseconds |
| Rfc3339.ZoneMeaning | src/state.rs:104-106 | A zone with `+` is ahead of UTC by its hours and minutes, with `-` behind, and is none beyond 23:59 |
| Rfc3339.OnlyDatesRead | src/state.rs:104-106 | Nothing is read but a date that exists and a time of day, with the separators in their places |
| Rfc3339.LeapSecondMeaning | src/state.rs:104-106 | A second 60 is read exactly where the next millisecond starts a UTC month, as the one before it |
| Rfc3339.IntegerExpiry | src/state.rs:93-103 | A whole number is read as itself if it is positive, and as nothing otherwise |
| Calendar.MillisRoundTrip | src/state.rs:82-90 | The Gregorian arithmetic behind printing and parsing: valid fields to milliseconds and back are unchanged, also before 1970 |
| Calendar.DatesFollow | src/state.rs:82-90 | Day numbers count Gregorian dates one by one in both directions from 1970-01-01 |
| Calendar.FieldsMeaning | src/state.rs:82-90 | An instant is the day of its date, 86,400,000 ms long, and its time within it |
| AdminExpiry.FieldRoundTrip | src/web/admin.rs:114-129 | The field without JavaScript gives back the stored expiry exactly for none or years 0000 to 9999 |
| AdminExpiry.SubmittedInstantRead | src/web/admin.rs:341-372 | What the script submits is read as the same instant exactly for the years 0000 to 9999 and refused for all others, whose expanded form no parser takes; what the page gave the script is read alike, or was empty |
| AdminExpiry.MinuteFormReadBack | src/web/admin.rs:353-359 | A value shortened to the minute is read as the same instant |
| AdminExpiry.RedisplayKeepsInstant | src/web/admin.rs:131-133 | A form shown again after an error keeps its instant |
| HtmlEscape.EscapeIsOnePass | src/web/admin.rs:246-252 | Five sequential replacements equal one character map on every string |
| HtmlEscape.EntityMeaning | src/web/admin.rs:246-252 | The map itself: five characters and their entities, every other character as it is |
| HtmlEscape.EscapeUndone | src/web/admin.rs:246-252 | The reverse replacements give the string back |
| HtmlEscape.EscapeIsSafe | src/web/admin.rs:246-252 | No raw markup character remains and every `&` starts an entity |
| Base64Url.DecodeEncode | src/web/security.rs:98-101 | Decoding undoes encoding for every byte string |
| Base64Url.EncodeDecode | src/web/security.rs:113-116 | Only canonical texts decode: encoding the result gives the text back |
| Base64Meaning.EncodedGroups | src/web/security.rs:98-101 | Every three bytes are written as their 24 bits, first bits first, in four characters of the URL-safe alphabet, and one or two at the end in two or three |
| Base64Meaning.EncodedLength | src/web/security.rs:98-101 | The text has four characters for every three bytes and no padding |
| Csrf.GenerateToken | src/web/security.rs:94-103 | A caller gets a token that splits into exactly the version, the clock plus 24 hours, the encoded nonce and the signature over those three, that fits a cookie and a form, and that is accepted, alone or as a pair, exactly until 24 hours have passed |
| Csrf.MintedVerifies | src/web/security.rs:94-138 | A minted token verifies exactly while less than 24 hours have passed |
| Csrf.VerifyIsGenuine | src/web/security.rs:121-138 | Exactly the texts that signing an unexpired expiry and a nonce produces are accepted |
| Csrf.PairIsEqualAndValid | src/web/security.rs:142-160 | The pair check holds exactly when both sides are present, equal and genuine |
| Csrf.AssembledParts | src/web/security.rs:99-122 | Splitting a token at its dots gives the four parts printed |
| Cookies.ExtractCookieToken | src/web/security.rs:172-183 | The scan returns the first cookie of the name |
| Cookies.CookieMeaning | src/web/security.rs:174-180 | Name and value of a part are the two sides of its first `=`, each without the whitespace around it |
| Cookies.NoCookie | src/web/security.rs:174-176 | A part without `=` is no cookie |
| Cookies.HeaderReadBack | src/web/security.rs:172-183 | A rendered Cookie header gives back the first pair of the asked name, or nothing |
| Cookies.SetCookieValue | src/web/security.rs:162-170 | A browser that stores the header keeps the token under its name |
| Cookies.DoubleSubmitTrip | src/web/security.rs:94-183 | A minted token survives a Cookie header among any other cookies, and the pair check then holds exactly for 24 hours |
| LocalTime.DateOfExact | static/expiration.js:16-31 | The exact condition under which a local time is accepted, and that the earliest instant is then taken |
| LocalTime.OrdinaryDayReached | static/expiration.js:23-25 | With no gap at the epoch's time of day on that day the extra condition holds |
| LocalTime.OccurringTimeRejected | static/expiration.js:23-30 | A zone in which times that occur are refused, because the first step lands in a gap |
| LocalTime.PrintReadBack | static/expiration.js:14-22 | Printed local fields are read back as they are from year 0 on, and not at all before |
| LocalTime.ShortFormsReadBack | static/expiration.js:16-22 | The fraction, or the seconds with it, may be left out and then count as zero; other lengths are refused |
| Widget.SubmitsWhatIsShown | static/expiration.js:33-110 | In every run what would be submitted says what is shown (none, a blocked form with nothing in it, or an instant rendering to the displayed fields) exactly when no reset is pending or the state before the pending resets was one in which a reset is harmless; pending resets leave the submission alone, any other event ends them |
| Widget.NonexistentIsBlocked | static/expiration.js:62-68 | A local time that does not occur leaves the hidden field empty and blocks the form |
| Widget.EditOutcome | static/expiration.js:51-73 | An edit keeps the remembered instant, takes the local reading, or is blocked, and when |
| Widget.UntouchedKeepsInstant | static/expiration.js:37-73 | An untouched value submits the stored instant exactly, also in a repeated hour; an instant the browser cannot display submits nothing |
| Widget.PresetKeepsInstant | static/expiration.js:83-91 | From any reachable state a preset submits the exact elapsed-time instant, however often the field is touched afterwards, or nothing if the browser cannot display it |
| Widget.NeverClears | static/expiration.js:83-91 | "Never" submits no expiry from any state |
| Widget.ResetRestores | static/expiration.js:105-109 | From any state a reset and its timer give the freshly loaded page |
| Widget.ResetRestoresInstant | static/expiration.js:105-109 | From any state a reset and its timer restore the initial display and submit the initial instant exactly, or nothing if the browser cannot display it |
| Widget.ServerReadsWhatIsShown | static/expiration.js:69-71 | With no reset pending and the form not blocked, the server reads exactly the shown expiry when there is none or its UTC year is 0000 to 9999, and otherwise refuses the form |
| Widget.DependableExists | static/expiration.js:33-42 | Browsers as assumed exist, also in zones with gaps |
| Widget.ExpirationWidget.OnInput | static/expiration.js:95-96 | An edit stores the typed value and synchronizes |
| Widget.ExpirationWidget.OnReset | static/expiration.js:105-105 | A reset changes only the visible field and starts a timer |
| Widget.ExpirationWidget.Sync | static/expiration.js:51-73 | An empty field clears hidden field, memory and error; the remembered value keeps its exact instant; any other takes its local reading, or is blocked with the hidden field cleared |
| Widget.ExpirationWidget.OnPreset | static/expiration.js:83-91 | Shows the instant that many hours of 3,600,000 ms from now locally and holds exactly it, or nothing if the browser cannot display it; "Never" clears |
| Widget.ExpirationWidget.OnTimer | static/expiration.js:105-109 | Remembers the initial display and instant again and synchronizes |
| Service.RedirectSlug | src/web/public.rs:66-128 | Resolves, and offers exactly one click with the id of the row and the clock of the click for a GET that resolved, and none for a HEAD or any other answer |
| Service.ServedGetsAreAccountedFor | src/web/public.rs:74-84 | In the whole system the clicks of the GETs that resolved, judged by the links as they then were, are exactly the clicks dropped, queued, held, failed, written and lost |
| Service.GetsAreVisits | src/web/public.rs:74-84 | Those clicks of a link are, one for one, the visit events that were GETs and that the links of that moment resolved to it |
| Service.AnalyticsRowsHaveLinks | migrations/0002_create_link_daily_clicks.sql:1-7 | The foreign key of the click table holds in every reachable state |
| Service.TotalsAreServedGets | src/db/analytics.rs:151-162 | A link's total never exceeds the number of visits that were GETs resolving to it, and equals it when nothing was dropped, failed, lost or is pending |
| Service.HeaderCheckNeverFires | src/web/public.rs:181-187 | With a validator that lets no control character through, the defensive check is unreachable |
| Overview.ListsMatchVisits | src/db/links.rs:334-345 | In every reachable state the active, expired and disabled lists hold exactly the links visitors are served, told are gone, or are not shown |
| Overview.ListsOnlyExpire | src/db/links.rs:27-35 | With nothing written, links only move from the active list to the expired one as time passes |
| Overview.ItemsAreTrue | src/db/links.rs:363-444 | Every listed item, whatever was counted before, is a stored, matching link with the figures of the clicks written for it |
| Overview.ActivityDuringWrites | src/db/analytics.rs:165-222 | With the three queries at any three moments of any run, each figure counts the clicks written by its moment |

## Left out

- URL parsing (`validate_target_url`) is an arbitrary partial function; HMAC is an arbitrary function with 32-byte results; UUIDs, the random source and clock readings are parameters.
- SQLite locking, timeouts, WAL and connection pools: a statement is one atomic step. The failure of a click write is modelled; failures of the other statements for I/O reasons are not.
- The column CHECK on `click_count` and `i64` overflow of sums and counters.
- The length limit of SQLite's LIKE patterns, and its treatment of malformed UTF-8; `LIKE` folds ASCII letters only, as SQLite does by default.
- SQL text is modelled as tokens: the SELECT heads, the click subqueries and column names are single tokens, so spelling and white space are not modelled.
- MintedVerifies: requires the expiry to fit `i64`; the code's addition would overflow otherwise.
- DoubleSubmitTrip: requires the same, and a header of visible ASCII, as `to_str` does.
- TotalsAgree: on one snapshot, where the figures can be compared at all; what each figure is when writes fall between the queries is `Overview.ActivityDuringWrites`.
- AnswersTile: on one snapshot, as pages of different tables need not fit together.
- Presets near the end of the range of a Date, where `toISOString` throws.
- The browser's own validity of a half-typed field, and everything of the widget that only concerns help texts and buttons.
- `LocalTime.Lawful` takes from section 21.4.1.26 that a skipped local time is read with the offset before the jump and so lands after it; years beyond exact floating-point integers are treated as integers, which the range check refuses either way.
- The Rust `time` crate is not part of this model: its RFC 3339 parser is taken to be section 5.6, reading a second 60 as the last millisecond before the end of a UTC month and refusing it elsewhere.
- Bar heights of the chart (floating-point rounding), `list_url`, `safe_return_to`, the JSON API's parameter parsing, error messages, configuration and HTTP plumbing.
- Management authentication, Origin checks and response headers: one-branch checks.
