# Polls and votes: a verified model

The modelled system is a small polling application. A FastAPI backend
(`backend/app.py`) keeps polls, their variants, vote rows and users in
SQL tables. A React client (`src/…`) lists the polls, lets a user pick
choices and vote, shows detailed results, and lets an organiser create polls.
The model covers the rules that decide what is stored, accepted, shown or
sent, on both sides, and proves what those rules promise.

Layout, one module per concern:

- `base.dfy` (`Base`): Option/Result, `Filter`, first-occurrence `Unique`
  (Python's `dict.fromkeys`), trimming, ASCII case mapping, decimal digits.
- `api_types.dfy` (`ApiTypes`): the JSON records shared by server and client.
- `backend_tables.dfy` (`Tables`): the stored rows and the lookups on them.
- `backend_rules.dfy` (`Rules`): the server's decisions as functions of the
  request, the tables and the instant. Covers creation checks, vote checks
  and ballot replacement, the results payload, the registration gate and
  the delete check.
- `backend_usernames.dfy` (`Usernames`): the username backfill and the
  duplicate resolution of `ensure_user_columns`, including the suffix
  search and its termination.
- `backend_store.dfy` (`Backend`): class `Store`, whose four table fields
  the handlers update in place, with loops as in the source. Each method
  is proved against the functions of `Rules`/`Usernames` and keeps the
  schema's primary keys, the uniqueness of the vote triple and the table
  references (`Valid`).
- `backend_export.dfy` (`Export`): the CSV download file name.
- `client_app.dfy` (`ClientApp`): `isPollClosed`, the choice toggle, the
  vote handler's checks and the view transitions. Class `App` holds the
  React state; each handler is a method specified by a transition function
  on `Screen`.
- `client_results.dfy` (`ClientResults`): stable sort by count, winner,
  percentages, voter chips, initials.
- `client_poll_list.dfy` (`ClientPollList`): poll status, filter, removal
  on delete, and class `PollListState`.
- `client_creator.dfy` (`ClientCreator`): the creation form, its variant
  editing, its submit checks and payload, and class `CreatorForm`.
- `client_api.dfy` (`ClientApi`): `absoluteUrl`, `normalizeUser` and the
  avatar rewriting of `getResults`, with class `FetchedResults`.
- `agreement.dfy` (`Agreement`): lemmas that connect client and server.

Instants are integers in milliseconds, one UTC time line shared by
client and server; only `Agreement.BrowserDeadline` models a browser
reading a served deadline differently. Generated ids (`uuid4`), the
password hash, the clock, `ADMIN_SECRET`, the `X-Admin-Token` and
`X-User-Id` headers, the logged-in user and the server's answers to client
requests are parameters.

## Model

| member | source | states |
|---|---|---|
| Base.Unique | backend/app.py:646-647 | first-occurrence de-duplication: no duplicates, same elements as the input, never longer |
| Base.UniqueIsSubseq | backend/app.py:646-647 | the de-duplicated list is a subsequence of the input |
| Base.UniqueKeepsFirstOccurrenceOrder | backend/app.py:646-647 | `dict.fromkeys` order: the kept elements appear in the order of their first occurrences in the input |
| Base.FirstIndex | backend/app.py:646-647 | the position of an element's first occurrence: it holds the element and no earlier position does |
| Tables.FindPoll | backend/app.py:622-624 | the poll lookup finds a row exactly when some row has that id, and the row found has it |
| Tables.FindUser | backend/app.py:636-638 | the user lookup finds a row exactly when some row has that id, and the row found has it |
| Tables.VariantsOf | backend/app.py:640-641 | `poll.variants` holds exactly the variant rows of that poll |
| Tables.ApiPoll | backend/app.py:587-598 | the API form of a stored poll carries its id, kind, stored cap, deadline, anonymity and variants in order |
| Rules.CreateCheck | backend/app.py:538-561 | a poll is refused exactly when it is a multi poll without a cap of at least 1, has fewer than two variants, names an unknown owner, or has a malformed deadline or one not after now; every refusal is a 400 |
| Rules.StoredMaxSelections | backend/app.py:569 | `maxSelections or 1`: never 0, and any non-zero value is stored as given |
| Rules.AcceptedMultiKeepsCap | backend/app.py:538-569 | an accepted multi poll stores the requested cap, which is at least 1 |
| Rules.NewPollRow | backend/app.py:564-572 | the stored row has the new id, title, kind, `maxSelections or 1`, the parsed deadline, and is anonymous unless `isAnonymous` is false |
| Backend.CreateKeepsValid | backend/app.py:564-584 | adding the poll row and one fresh variant row per label keeps the primary keys, the vote triple's uniqueness and the references |
| Backend.Store.CreatePoll | backend/app.py:536-598 | a refused poll changes nothing and returns the refusal; otherwise one poll row and one variant row per label, in input order, are appended, and the response lists exactly those variants |
| Rules.VoteAcceptedIff | backend/app.py:620-652 | a vote is stored exactly when the poll exists, choices are non-empty, now is not after the deadline, the user exists, every choice is a variant of the poll, and the unique choices are one (single) or at most the cap (multi) |
| Rules.VoteCheckOrder | backend/app.py:622-652 | each check fires once the earlier ones pass, in the handler's order: unknown poll (404), empty choices (400), past the deadline (403), unknown user (400), choices outside the poll's variants (400, listing them in request order), a single poll without exactly one distinct choice (400), a multi poll over its cap (400, naming the cap) |
| Rules.RepeatedChoiceOnSinglePoll | backend/app.py:646-650 | `[a, a]` on an open single poll whose variant `a` exists is accepted |
| Rules.BallotRows | backend/app.py:659-666 | one vote row per unique choice, in order, for the poll and the user |
| Rules.ReplaceBallotEffect | backend/app.py:654-667 | after a vote the user's ballot in that poll is exactly the unique choices in order, and all other rows are unchanged and in order |
| Rules.ReplaceBallotNoDup | backend/app.py:654-667 | the vote table stays free of duplicate (poll, variant, user) rows |
| Backend.VoteKeepsValid | backend/app.py:654-669 | an accepted vote keeps the primary keys, the vote triple's uniqueness and the references |
| Backend.Store.Vote | backend/app.py:620-670 | returns the first failing check; a refused vote changes nothing; an accepted one replaces the user's rows for the poll by one row per unique choice and leaves all other tables alone |
| Tables.CountFor | backend/app.py:683-695 | the count of one variant is the number of vote rows of that poll and variant; it is 0 exactly when there are none (absent groups count 0) |
| Rules.Counts | backend/app.py:685-695 | one count per variant id, each the number of the poll's vote rows for it |
| Rules.TotalIsSumOfItemCounts | backend/app.py:695-696 | `total`, the number of the poll's vote rows, equals the sum of the item counts when every such row names a variant of the poll |
| Rules.PublicVoter | backend/app.py:713-719 | a public voter keeps id, name and avatar; its `username` field is `name or username`: the name when it is non-empty, else the username when that is non-empty, else absent |
| Rules.JoinRows | backend/app.py:700-711 | the joined rows are exactly the poll's votes whose user still exists, paired with that user |
| Rules.VotersOf | backend/app.py:712-720 | `voter_map[v]` lists exactly the public voters of the joined rows for variant v |
| Rules.Items | backend/app.py:722-731 | one result item per variant of the poll, in variant order |
| Rules.Results | backend/app.py:673-683 | results fail with 404 exactly when the poll does not exist |
| Rules.ResultsShape | backend/app.py:685-740 | one item per variant in order with its id, label and vote count; no voter lists on an anonymous poll; total is the sum of the counts; totalVoters is the number of distinct voters |
| Rules.VotersAreListed | backend/app.py:698-731 | on a public poll, every existing user who voted for a variant is listed under it |
| Rules.ListedHaveVoted | backend/app.py:698-731 | everyone listed under a variant voted for it |
| Rules.AnonymousListsNobody | backend/app.py:698-729 | an anonymous poll carries no voter list on any item |
| Backend.Store.VoterMap | backend/app.py:698-720 | the map built by the append loop has a key exactly for the variants with voters, and holds `VotersOf` under each |
| Backend.Store.GetResults | backend/app.py:673-740 | the loops that build `voter_map` and `items` return exactly the payload `Results` specifies |
| Rules.DeleteCheck | backend/app.py:770-784 | deletion passes exactly when the poll exists and `X-User-Id` names an existing admin |
| Backend.DeleteKeepsValid | backend/app.py:786-787 | deleting a poll with its variants and votes (the cascade) keeps the primary keys, the vote triple's uniqueness and the references |
| Backend.Store.DeletePoll | backend/app.py:770-788 | returns the first failing check and changes nothing then; otherwise removes the poll, its variants and its votes and keeps users |
| Rules.RegisterCheck | backend/app.py:349-359 | a taken e-mail or username gives 409; a plain user is accepted exactly when neither is taken |
| Rules.AdminGate | backend/app.py:351-359 | with a secret configured an admin registers exactly when the token equals it; without one, exactly while no admin exists |
| Backend.ApiUser | backend/app.py:332-340 | the API user carries the row's id, e-mail, role, username and avatar |
| Backend.Store.Register | backend/app.py:342-371 | the username maintenance runs first; a refused registration changes nothing else; an accepted one appends exactly the new row and returns it |
| Usernames.LocalPart | backend/app.py:145 | `email.split("@")[0]`: the longest prefix without '@' |
| Usernames.BaseName | backend/app.py:145-146 | the lowercased local part of the e-mail, or `user_` and the first eight characters of the id when that is empty; never empty |
| Usernames.CandidatesDistinct | backend/app.py:147-154 | the candidates `base`, `base1`, `base2`, … are pairwise distinct |
| Usernames.TakenSuffixBound | backend/app.py:149-154 | only suffixes below 10^(longest username length) can be taken, so the search terminates |
| Usernames.FirstFree | backend/app.py:149-154 | the suffix found is the first, from the start value, whose candidate no other user holds |
| Backend.Store.FreeSuffix | backend/app.py:149-154 | the `while` loop of the suffix search stops at `FirstFree` |
| Usernames.SetUsername | backend/app.py:155-158 | the update renames exactly the row with that id |
| Usernames.BackfillUsernamesSpec | backend/app.py:139-158 | after the backfill only usernames changed, no user is without one, and every backfilled user owns a name nobody else holds |
| Backend.Store.BackfillUsernames | backend/app.py:139-158 | the backfill loop leaves polls, variants and votes alone and the users as `BackfillAll` says |
| Usernames.SortIds | backend/app.py:177-181 | `ORDER BY id`: a sorted permutation of the ids |
| Usernames.Holders | backend/app.py:177-181 | the holders of a name are exactly the rows holding it, in id order, without duplicates |
| Usernames.DedupOneKeepsLowest | backend/app.py:183-184 | the holder with the lowest id keeps its row and its name |
| Usernames.DedupOneShared | backend/app.py:176-196 | resolving one name creates no new shared name and leaves that name unshared |
| Usernames.DedupAllNonEmpty | backend/app.py:176-196 | renaming never empties a username |
| Usernames.DedupAllEffect | backend/app.py:164-196 | after resolving every name that was shared, only usernames changed and no username is shared |
| Backend.Store.RenameHolders | backend/app.py:184-196 | the inner loop renames the holders after the first as `RenameRest` says, starting each search at the holder's position |
| Backend.Store.ResolveDuplicateUsernames | backend/app.py:164-196 | the outer loop over the duplicated names gives `DedupAll` of the table |
| Backend.MaintainedSpec | backend/app.py:139-196 | after backfill and resolution only usernames changed, everyone has a username and none is shared |
| Backend.Store.MaintainUsernames | backend/app.py:139-196 | the start-up maintenance keeps the tables valid and establishes the three facts of `MaintainedSpec` |
| Export.SafeTitleChars | backend/app.py:757 | the safe title holds only letters, digits, `_` and `-` |
| Export.DownloadNameShape | backend/app.py:757-759 | the download name always ends in `-results.csv`, holds only ASCII letters, digits, `_` and `-` before it, and never falls back to `results.csv` |
| Export.WordIsSafe | backend/app.py:757 | a non-empty title of letters and digits is its own safe title |
| Export.AsciiWordTitle | backend/app.py:757-759 | an ASCII alphanumeric title is downloaded as `title-results.csv` |
| Export.CyrillicTitle | backend/app.py:757-759 | a title of Cyrillic letters only is downloaded as just `-results.csv` |
| Export.TwoWordTitle | backend/app.py:757-759 | two ASCII words separated by a space are joined by `_` |
| ClientApp.ClosedMonotone | src/SurveyWireframeApp.tsx:342-345 | once `isPollClosed`, a poll stays closed as time goes on |
| ClientApp.Toggle | src/SurveyWireframeApp.tsx:347-366 | single mode gives `[id]`; multi mode removes a present id keeping the rest in order, leaves a full selection unchanged, and otherwise appends the id |
| ClientApp.ToggleKeepsWellFormed | src/SurveyWireframeApp.tsx:352-366 | a toggle keeps a selection duplicate-free and within the cap (1 in single mode) |
| ClientApp.ToggleAllKeepsWellFormed | src/SurveyWireframeApp.tsx:352-366 | every sequence of toggles keeps a well-formed selection well-formed |
| ClientApp.ToggleTwiceRestores | src/SurveyWireframeApp.tsx:355-363 | on a multi poll with room, toggling an absent id twice restores the selection |
| ClientApp.ToggleAllStaysInPoll | src/SurveyWireframeApp.tsx:347-366 | toggling the poll's own variants never selects anything else |
| ClientApp.VoteGateSendsIff | src/SurveyWireframeApp.tsx:56-77 | a vote is sent exactly when there is a poll, a non-empty selection, the poll is open, the count fits the mode and a user is logged in; the request names that poll, that user and the selection |
| ClientApp.VoteGateOrder | src/SurveyWireframeApp.tsx:57-76 | a closed poll is reported before a bad count; a single poll without one choice and a multi poll over its cap are reported next (with the cap); "log in" is reported exactly when nobody is logged in and every other check passes |
| ClientApp.AfterPollSelect | src/SurveyWireframeApp.tsx:43-48 | selecting a poll sets it, empties the selection, closes the dialog and opens the poll view |
| ClientApp.StaleResultsShown | src/SurveyWireframeApp.tsx:50-54 | as written, the results loader (`loadResults`, lines 89-103) reads the previous `currentPoll`: with none nothing is shown, otherwise the previous poll's results |
| ClientApp.StaleResultsExample | src/SurveyWireframeApp.tsx:50-54 | from the list with no poll selected, clicking results for a poll stays on the list |
| ClientApp.ResultsSelectShowsChosenPoll | src/SurveyWireframeApp.tsx:50-54 | with the poll passed through, the results shown are those of the poll clicked, and the selection is emptied |
| ClientApp.NavigationGuard | src/SurveyWireframeApp.tsx:105-111 | without a user, organizer and profile lead to login; any other target is taken as asked; only the view changes |
| ClientApp.UserChangeViews | src/SurveyWireframeApp.tsx:22-28 | a cleared user sends the view to login; a user who appears moves login to home and leaves other views |
| ClientApp.EnabledSubmitPassesFirstChecks | src/SurveyWireframeApp.tsx:205 | an enabled submit button means a non-empty selection on an open poll |
| ClientApp.VoteOutcome | src/SurveyWireframeApp.tsx:56-87 | only an accepted send moves to success, clears the selection and closes the dialog; a closed poll only closes the dialog; nothing else changes |
| ClientApp.App.UserChanged | src/SurveyWireframeApp.tsx:22-28 | the effect on `user` sets the state as `AfterUserChange` |
| ClientApp.App.PollSelect | src/SurveyWireframeApp.tsx:43-48 | the handler's setters give `AfterPollSelect` |
| ClientApp.App.ResultsSelect | src/SurveyWireframeApp.tsx:50-54 | the corrected handler's setters give `AfterResultsSelect` |
| ClientApp.App.Navigate | src/SurveyWireframeApp.tsx:105-111 | the handler's setters give `AfterNavigation` |
| ClientApp.App.ChoiceToggle | src/SurveyWireframeApp.tsx:347-366 | the selection becomes `Toggle` of the old one; nothing else changes |
| ClientApp.App.SubmitPress | src/SurveyWireframeApp.tsx:204-206 | the enabled button opens the confirm dialog |
| ClientApp.App.CancelConfirm | src/SurveyWireframeApp.tsx:283 | cancel closes only the dialog |
| ClientApp.App.Vote | src/SurveyWireframeApp.tsx:56-87 | the handler's decision is `VoteGate` and its setters give `AfterVote` |
| ClientResults.SortByCountSpec | src/components/DetailedResults.tsx:17 | the sorted rows are a permutation of the input with non-increasing counts, and rows of equal count keep their order (stable) |
| ClientResults.SortByCountIdempotent | src/components/DetailedResults.tsx:17 | sorting sorted rows returns them unchanged; sorting twice is sorting once |
| ClientResults.WinnerIsMaximal | src/components/DetailedResults.tsx:17-18 | a winner exists exactly for a non-empty list, is one of the rows, and no row has more votes |
| ClientResults.PercentageIsNearest | src/components/DetailedResults.tsx:110 | the percentage is the integer nearest to 100·count/total, a half rounded up |
| ClientResults.PercentageBounds | src/components/DetailedResults.tsx:110 | with 0 ≤ count ≤ total the percentage lies in 0..100 |
| ClientResults.DisplayRows | src/components/DetailedResults.tsx:109-138 | one displayed row per result, in sorted order |
| ClientResults.DisplayRowsSpec | src/components/DetailedResults.tsx:87-138 | at most one row is marked winner, it is the first and the banner's winner, and it is marked whenever the banner shows; an anonymous result shows no chips |
| ClientResults.DisplayPercentagesBounded | src/components/DetailedResults.tsx:110 | when every count is within the total, every displayed percentage lies in 0..100 |
| ClientResults.DemoPercentages | src/SurveyWireframeApp.jsx:20-24 | the demo counts 57, 65, 2 of 124 give 46, 52 and 2 per cent |
| ClientResults.DemoWinner | src/SurveyWireframeApp.jsx:20-24 | the demo rows sort as 65, 57, 2, and the 65 row is the winner with a banner |
| ClientResults.Initials | src/components/DetailedResults.tsx:226-236 | initials have one or two characters |
| ClientResults.InitialsSource | src/components/DetailedResults.tsx:226-236 | the initials are two upper-cased characters of the trimmed name, else of the trimmed username, else `?` |
| ClientPollList.PollStatusCases | src/components/PollList.tsx:64-75 | completed after the deadline, active before it, upcoming without a deadline or at its instant |
| ClientPollList.StatusOverTime | src/components/PollList.tsx:64-75 | a completed poll stays completed; a poll without a deadline is always upcoming |
| ClientPollList.FilteredPollsSpec | src/components/PollList.tsx:77-82 | `all` keeps every poll; any filter keeps list order; `active` and `completed` keep exactly those polls; upcoming polls appear only under `all` |
| ClientPollList.WithoutPollSpec | src/components/PollList.tsx:46 | removal keeps, in order, exactly the polls with another id; a missing id changes nothing |
| ClientPollList.PollListState.LoadPolls | src/components/PollList.tsx:25-37 | a successful load replaces the polls and clears the error; a failed one keeps the polls and sets the error; loading ends |
| ClientPollList.PollListState.SetFilter | src/components/PollList.tsx:126 | only the filter changes |
| ClientPollList.PollListState.DeletePoll | src/components/PollList.tsx:39-51 | the poll is removed only when the user confirmed and the server call succeeded; otherwise nothing changes |
| ClientCreator.AddVariant | src/components/PollCreator.tsx:168 | appends `Вариант n+1`, n the current length, keeping the others |
| ClientCreator.EditVariant | src/components/PollCreator.tsx:183 | changes only the entry at the index and keeps the length |
| ClientCreator.RemoveVariant | src/components/PollCreator.tsx:189 | deletes exactly the entry at the index and keeps the others in order |
| ClientCreator.RemoveAfterAdd | src/components/PollCreator.tsx:168-189 | removing the variant just added gives the list back |
| ClientCreator.EditBack | src/components/PollCreator.tsx:183 | writing the old text back undoes an edit |
| ClientCreator.EditKeepsOthers | src/components/PollCreator.tsx:183 | an edit leaves every other entry as it was |
| ClientCreator.InitialForm | src/components/PollCreator.tsx:24-30 | the form opens with two numbered variants, single choice, anonymous, cap 2 |
| ClientCreator.PayloadOf | src/components/PollCreator.tsx:45-53 | the payload has trimmed title and description, `multi` iff the box is set, cap 1 for single polls, and the non-blank variants, untrimmed and in order, each as many times as in the form |
| ClientCreator.BlankVariantPasses | src/components/PollCreator.tsx:34-50 | as written, a title with one real and one blank variant is submitted with a single variant |
| ClientCreator.BlankVariantExample | src/components/PollCreator.tsx:34-50 | the form titled `Q` with variants `Да` and a space is submitted with one variant |
| ClientCreator.SubmitSpec | src/components/PollCreator.tsx:33-54 | corrected: submitted exactly when the title and at least two variants are not blank and the deadline is not in the past; missing fields are reported before the deadline; the payload has two or more non-blank variants |
| ClientCreator.SubmitsAgreeWithoutBlanks | src/components/PollCreator.tsx:33-54 | without blank variants the corrected check and the one as written agree |
| ClientCreator.CreatorForm.constructor | src/components/PollCreator.tsx:24-30 | the state hooks start as `InitialForm` |
| ClientCreator.CreatorForm.Add | src/components/PollCreator.tsx:168 | only the variants change, by `AddVariant` |
| ClientCreator.CreatorForm.Edit | src/components/PollCreator.tsx:183 | only the variants change, by `EditVariant` |
| ClientCreator.CreatorForm.Remove | src/components/PollCreator.tsx:189 | only the variants change, by `RemoveVariant` |
| ClientCreator.CreatorForm.SubmitPressed | src/components/PollCreator.tsx:33-54 | the handler, with its variant-count check corrected to count non-blank variants, decides as `Submit` and only submits two or more variants |
| ClientApi.AbsoluteUrlSpec | src/api/pollApi.ts:1-6 | nothing for a missing or empty path; http(s) URLs kept; anything else prefixed with the backend address; every result absolute; idempotent |
| ClientApi.RewriteResultsSpec | src/api/pollApi.ts:104-116 | anonymous results are untouched; public ones keep every field, row and voter in order, with only avatar URLs rewritten |
| ClientApi.RewriteResultsIdempotent | src/api/pollApi.ts:104-116 | rewriting rewritten results changes nothing |
| ClientApi.NormalizeUserSpec | src/api/pollApi.ts:141-146 | only the avatar changes, it ends up missing or absolute, and normalising twice is normalising once |
| ClientApi.FetchedResults.RewriteAvatars | src/api/pollApi.ts:106-114 | the in-place reassignment of `data.results` leaves the object equal to `RewriteResults` of its old value |
| Agreement.ClosedBoundaries | src/SurveyWireframeApp.tsx:342-345 | on one reading of the deadline, the list's "completed" implies the voting screen's "closed"; they disagree only at the deadline instant, where the list says upcoming |
| Agreement.ServerClosedIsCompleted | src/components/PollList.tsx:66-69 | when the browser reads the served deadline as the stored instant, then for a stored poll and a non-empty ballot the server refuses a vote as closed (`current_utc > deadline_dt`) exactly when the list shows the poll as completed (`now > deadline`) |
| Agreement.BrowserDeadline | src/components/PollList.tsx:66 | the instant `new Date` reads from the served deadline: the stored one when the string has an offset or the browser is at UTC, otherwise the stored one moved back by the browser's UTC offset |
| Agreement.BrowserPoll | src/SurveyWireframeApp.tsx:342-345 | the served poll as the browser reads it: the same poll, with a deadline exactly when it has one, at `BrowserDeadline` |
| Agreement.OffsetlessDeadlineDisagrees | backend/app.py:584-592 | with the offset-less `isoformat()` read as local time, east of UTC the list and the vote screen close the poll at its deadline while the server still takes votes; more than 1 ms west of UTC the vote screen sends a vote the server refuses as closed |
| Agreement.OffsetDeadlineAgrees | backend/app.py:584-592 | with the deadline served with its offset (or a browser at UTC) the browser sees the stored instant, and the server's closed refusal and the list's "completed" agree at every instant |
| Agreement.SentVoteIsAccepted | src/SurveyWireframeApp.tsx:56-83 | on one clock and one reading of the deadline, a vote the client sends for a stored poll, a known user and in-poll choices passes every server check |
| Agreement.SentVoteTargets | src/SurveyWireframeApp.tsx:74-76 | the request sent names the poll on screen, the logged-in user and the selection |
| Agreement.DeleteOfferMatchesServer | src/components/PollList.tsx:149 | the delete action is offered exactly to the users the server lets delete |
| Agreement.ServerResultsDisplay | src/components/DetailedResults.tsx:110-138 | the server's results, after the API rewriting, display percentages in 0..100 and no chips on an anonymous poll |
| Agreement.CreateRequest | src/SurveyWireframeApp.tsx:33 | the request sent carries every field of the form's payload (title, description, kind, variants, cap, anonymity; a deadline exactly when one is set) with the logged-in user as owner |
| Agreement.SubmittedFormHasEnoughVariants | src/components/PollCreator.tsx:33-54 | a form passing the corrected check is never refused by the server for too few variants |
| Agreement.BlankVariantRefusedByServer | src/components/PollCreator.tsx:34-50 | the blank-variant form the check as written lets through is refused by the server for too few variants |
| Agreement.CapRefusedByServer | src/components/PollCreator.tsx:112 | a multi-choice form with a cap below 1 is refused by the server |
| Agreement.DeadlineNowRefusedByServer | src/components/PollCreator.tsx:40 | a deadline equal to now passes the form but is refused by the server |

## Left out

- Databases, HTTP, `fetch` and `localStorage` are not modelled. Tables are sequences in table order: where SQL gives no `ORDER BY`, the order of the rows is taken to be the order of the sequence. The logged-in user and `X-User-Id` are inputs.
- The DDL of `ensure_user_columns` and `ensure_vote_constraints` is left out, and so are its password and role backfills. Only the username part is modelled.
- Login, profile, avatar upload, `/users` and the poll listing endpoint are left out: they are outside the modelled rules.
- Generated ids (`uuid4`), password hashing and the clock are parameters. `Backend.Store.CreatePoll` and `Backend.Store.Register` require the ids they are given to be new.
- ISO date parsing and formatting are left out: instants are integers. `Rules.CreateCheck` takes the deadline field already parsed (absent, malformed or an instant). The form's minute truncation (`toInputValue`) and an invalid date's `NaN` are not modelled.
- Floating point is left out. `participationRate` is the constant 100.0. `Math.round(count / total * 100)` is the exact integer formula `ClientResults.Percentage`, so float rounding near a half is not modelled.
- `Base.ToUpper` and `Base.ToLower` map ASCII letters only. `Export.IsAlnum` covers ASCII and Cyrillic letters and digits, not all of Python's `isalnum`.
- JavaScript strings are UTF-16, and `slice(0, 2)` in `getInitials` counts code units. The model counts characters.
- The CSV body (its rows and quoting) is left out. Only the file name is modelled.
- Alerts, `confirm` dialogs, loading flags and asynchrony are left out. Each handler is a method that runs once the answer it awaits is known; the answer is an input.
- `handleCreatePoll`'s `setView("home")` and its error alert are left out. The request it sends is `Agreement.CreateRequest`.
- The status labels and tones of `getPollStatus` and the date formatting of the list are display text; only the state is modelled.
- ClientApp.App.ResultsSelect: models the corrected handler; the handler as written is the function `ClientApp.AfterResultsSelectAsWritten` (see Findings).
- ClientCreator.CreatorForm.SubmitPressed: models the corrected handler, which counts only non-blank variants; the handler as written, which counts every variant, is the function `ClientCreator.SubmitAsWritten` (see Findings).
- Agreement.ServerClosedIsCompleted and Agreement.SentVoteIsAccepted: both assume that client and server read the deadline as the same instant, on one clock. The program serves the naive stored deadline's `isoformat()` without an offset, and the browser reads it as local time, so the two disagree by the browser's UTC offset (see Findings, `Agreement.OffsetlessDeadlineDisagrees`). Clock skew between browser and server is not modelled.
- Rules.PublicVoter: a missing name or username and an empty one are both the empty string in the model, so when both are empty the voter's `username` is absent, where the handler gives an empty string if the stored value is `""`.
- Base.Trim: strips only the six ASCII whitespace characters (`Base.IsSpace`). JavaScript's `trim` and Python's `strip` also remove Unicode spaces, so a title of only U+00A0 is blank to `PollCreator` but not to `ClientCreator.NotBlank`.
- Backend.Store.Register: the owner-to-admin role rewrite of `ensure_user_columns` (backend/app.py:215-221) is not modelled, so a legacy `owner` row does not count as an existing admin at the admin gate, as it would once the startup rewrite has run.

## Findings

| source | as written | input that shows it | evidently intended | confidence | as-written member | corrected member |
|---|---|---|---|---|---|---|
| src/SurveyWireframeApp.tsx:50-54 | `handleResultsSelect` calls `setCurrentPoll(poll)` and then `loadResults()`, which reads `currentPoll` from the current render: the poll before the click | on the list with no poll selected, click "results" on a poll: `loadResults` returns at once and the view stays on the list; with poll A selected earlier, clicking results of B shows A's results | load and show the results of the poll clicked | not executed | ClientApp.StaleResultsShown | ClientApp.ResultsSelectShowsChosenPoll |
| src/components/PollCreator.tsx:34-50 | the two-variant check counts the variants before blank ones are filtered out | title `Q`, variants `Да` and a single space: the form is submitted with one variant, and the server refuses it with "Provide at least two variants" | count only the variants that are sent | not executed | ClientCreator.BlankVariantPasses | ClientCreator.SubmitSpec |
| backend/app.py:584-592 | after `db.refresh(poll)` the deadline is a naive date-time, and `isoformat()` serves it without an offset; `new Date` in the browser reads an offset-less string as local time | a browser in Moscow (UTC+3) and a poll whose deadline is 12:00 UTC: the list shows it as completed, and the vote screen refuses, from 09:00 UTC, while the server accepts votes until 12:00 UTC; west of UTC the browser sends votes after 12:00 that the server refuses with 403 | serve the deadline with its UTC offset, so that every browser reads the instant the server checks | not executed | Agreement.OffsetlessDeadlineDisagrees | Agreement.OffsetDeadlineAgrees |
