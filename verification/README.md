# BuffaloBets in Dafny

BuffaloBets is a yearly music-prediction game between friends. Before the
season each player predicts five artists and five songs. An admin later
enters every player's actual results. A scoring library ranks the players
and hands out "buffalos": the right to call a buffalo on another player.
The player called on must drink within a deadline and upload a photo or
video as proof. Players can also ask another player to grant them a
buffalo, and the other player accepts or declines.

The game's rules are not kept in a library. They live in the pages'
event handlers and render helpers, and every write goes to a hosted
database. This project models that logic. Each database table is a
sequence of rows. Each handler is a pure function from the tables it
reads to the tables it writes, plus an outcome that says where it
stopped. Whether each database round trip succeeds is an explicit
boolean parameter, except where the page ignores the error (see
"## Left out").

| file | module | page or component |
|---|---|---|
| `tables.dfy` | `Tables` | row shapes of the tables; `maybeSingle` |
| `seqs.dfy` | `Seqs` | `filter`, `find`, `slice`, stable sort, `limit`, `Set` deduplication, upserts |
| `text.dfy` | `Text` | `trim`, string truthiness, `startsWith`, printing integers, `parseInt` |
| `encoding.dfy` | `Encoding` | UTF-8 and Mac OS Roman |
| `ledger.dfy` | `Ledger` | the `buffalo_balances` table: lookups, updates, upserts, sums |
| `calls.dfy` | `Calls` | the feed page: calling a buffalo, proof upload, time remaining, the activity list |
| `requests.dfy` | `Requests` | the request dialog and the notifications page |
| `board.dfy` | `Board` | the buffalo board |
| `home.dfy` | `Home` | the home page |
| `entries.dfy` | `Entries` | the submit page and the shared five-and-five form check |
| `scoring.dfy` | `Scoring` | the admin page: entering results, scoring, ranking, allocation |
| `profile.dfy` | `Profiles` | the profile page |
| `history.dfy` | `History` | the history page |
| `nav.dfy` | `Nav` | the bottom navigation bar |

Key design points:

- The ledger key is the triple (caller, recipient, year). The database keeps it unique. Here that is an invariant, `Ledger.UniqueKeys`, and each writer is proved to preserve it.
- The balance of a pair with no row is 0 (`Ledger.BalanceOf`).
- At most one pending request per (requester, recipient, year) is `Requests.AtMostOnePending`.
- At most one submission per (player, year) is `Entries.OnePerPlayerYear`.
- The scorer, the ranker and the buffalo allocator live in `lib/scoring.ts`, which is not part of this model. They are function-typed parameters of `Scoring.CalculateAllScores`, and nothing is assumed about them.

## Model

| member | source | states |
|---|---|---|
| Tables.MaybeSingle | app/feed/page.tsx:86-92 | `maybeSingle` gives no row for no match, the row for exactly one match, and an error (data null) for several. |
| Seqs.Filter | app/buffalo-board/page.tsx:89-95 | `filter` keeps exactly the elements satisfying the predicate, without adding any. |
| Seqs.FilterFilter | app/page.tsx:47-58 | Filtering twice equals filtering once by the conjunction. This is how the home page's queries agree with the board's filters. |
| Seqs.Find | app/admin/page.tsx:106 | `find` returns nothing exactly when no element matches; otherwise it returns the first matching element: no element before it matches. |
| Seqs.FilterCount | app/profile/page.tsx:40 | The length of `filter(p)` is the number of positions whose element satisfies `p`. |
| Seqs.SortDesc | app/feed/page.tsx:231-234 | A sort with a largest-first comparator returns a permutation of its input, ordered by the key. |
| Seqs.Newest | app/feed/page.tsx:53-57 | `.order(desc).limit(n)` returns min(n, size) rows, largest key first. Every row left out has a key no larger than any row kept. |
| Seqs.Dedup | app/history/page.tsx:46 | `Array.from(new Set(s))` has no duplicates, holds exactly the values of `s`, and starts with `s`'s first value. |
| Seqs.DedupStrictlyDecreasing | app/history/page.tsx:40-46 | Deduplicating a list that is ordered largest first leaves a strictly decreasing list. |
| Seqs.FilterKeyAtMostOne | components/buffalo-request-dialog.tsx:37-44 | Filtering on a key that is unique in the table finds at most one row, and finds one exactly when a row with that key exists. |
| Seqs.UpsertBy | app/admin/page.tsx:72-77 | An upsert keeps the new row and every old row with a different key, and keeps keys unique. |
| Seqs.UpsertAll | app/admin/page.tsx:125-130 | Upserting a sequence of rows adds nothing else, keeps every old row whose key no new row uses, and keeps keys unique. |
| Seqs.UpsertAllStoresRows | app/admin/page.tsx:125-130 | When the rows' keys are distinct, every one of them is stored. |
| Text.Trim | app/submit/page.tsx:54 | `trim` leaves no white space at either end, and is empty exactly when the input is all white space. |
| Text.TrimIsSlice | app/submit/page.tsx:64-65 | What `trim` keeps is the contiguous middle of the input. |
| Text.TrimDropsWhitespace | app/submit/page.tsx:64-65 | What `trim` removes is white space at the two ends. |
| Text.NullIfEmpty | app/feed/page.tsx:110 | `s \|\| null` is null exactly for the empty string and otherwise `s` itself. |
| Text.OrElse | app/feed/page.tsx:136 | `s \|\| fallback` is `s` unless `s` is empty. |
| Text.NatToString | components/bottom-nav.tsx:91 | A printed count is a non-empty run of decimal digits with no leading zero. |
| Text.ParseIntNatToString | app/feed/page.tsx:100 | `Text.ParseInt` (`parseInt`) reads a printed non-negative integer back as itself. |
| Text.ParseIntNegative | app/feed/page.tsx:100 | `Text.ParseInt` reads a minus sign followed by digits as the negated number. |
| Text.ParseIntLeading | app/feed/page.tsx:100 | `Text.ParseInt` reads a printed number followed by a character that is neither a digit nor a radix marker as that number, ignoring the rest. |
| Ledger.Matching | app/feed/page.tsx:86-91 | A query filtered on caller, recipient and year selects exactly the rows with that key. |
| Ledger.LookupMiss | app/feed/page.tsx:86-92 | A pair with no row finds nothing and has balance 0. |
| Ledger.LookupUnique | app/feed/page.tsx:86-92 | With unique keys the lookup never errors. It finds a row exactly when the pair has one, and that row holds the pair's balance. |
| Ledger.BalanceOfMember | lib/supabase.ts:50-56 | With unique keys, every row holds its pair's balance. |
| Ledger.SetBalanceEffect | app/feed/page.tsx:118-123 | After the update, the pair it names has the new balance when it had a row, and any other pair keeps its balance. |
| Ledger.SetBalanceEffectAll | app/feed/page.tsx:118-123 | After the update, the pair's balance is the new value and every other pair's balance is unchanged. |
| Ledger.SetBalanceKeeps | app/feed/page.tsx:118-123 | The update keeps keys unique, and keeps balances non-negative when the new value is non-negative. |
| Ledger.Upsert | app/admin/page.tsx:136-141 | A balance upsert sets the pair's balance to the value and changes no other pair. It keeps keys unique, and keeps balances non-negative when the value is non-negative. |
| Ledger.SumSetBalance | app/feed/page.tsx:118-123 | Overwriting the balance of a pair that has a row changes the table total by the new balance minus the old. |
| Ledger.TotalOverIsSum | app/buffalo-board/page.tsx:89-97 | Summed over a list of distinct players, the per-player totals on one side add up to the sum of all balances. |
| Calls.TimeClip | app/feed/page.tsx:99-100 | A date is valid exactly within ±8.64e15 ms of the epoch. |
| Calls.DeadlineFor | app/feed/page.tsx:99-100 | A deadline exists only when the timer text parses. It lies after `now` exactly when the parsed minutes are positive. |
| Calls.DeadlineForMinutes | app/feed/page.tsx:99-100 | A timer of `n` minutes, typed as digits, gives a deadline of `now + n * 60000`. |
| Calls.DeadlineForBlank | app/feed/page.tsx:99-100 | A blank timer gives no deadline (an Invalid Date), so nothing is inserted. |
| Calls.CallBuffalo | app/feed/page.tsx:83-145 | A failed step before the insert changes nothing. Each failure outcome names its cause: a failed or empty balance lookup, an invalid deadline, a failed insert, a failed decrement. After the insert, the call table gains exactly one row. A failed decrement keeps the balances. A feed event is posted only on full success: a `buffalo_call` event from the caller to the recipient for the year, titled `<caller> called buffalo on <recipient>` (`undefined` for a missing caller profile), described by the message or `Time to take a shot!` when it is empty. |
| Calls.CallRecorded | app/feed/page.tsx:99-111 | Characterises `Calls.CallBuffalo`'s insert: the new call is pending, from the caller to the recipient for the year, called now, due at the timer's deadline, without proof, its message null exactly for an empty one, with an id no earlier call has. |
| Calls.CalledBalances | app/feed/page.tsx:118-123 | Characterises `Calls.CallBuffalo`'s decrement: after a successful call, the pair's row is set to its balance minus one and the call table grew by one. |
| Calls.CallGate | app/feed/page.tsx:86-97 | A call passes the balance check exactly when a recipient is selected, the balance query answers, and the caller's balance on the recipient is positive. |
| Calls.CallSucceeds | app/feed/page.tsx:83-139 | Success direction of `Calls.CallBuffalo`: with a recipient, a positive balance, a valid deadline and every round trip answering, the call succeeds. |
| Calls.SpendableIff | app/feed/page.tsx:86-97 | With unique keys, a spendable row is found exactly when the pair's balance is positive, and it holds that balance. |
| Calls.CallSpendsOne | app/feed/page.tsx:118-123 | A successful call lowers the pair's balance by exactly one, to at least 0. No other pair changes, and keys stay unique. |
| Calls.SpendOneEffect | app/feed/page.tsx:118-123 | Setting a spendable row to its balance minus one lowers that pair by one, to at least 0, changes no other pair, and keeps keys unique and balances non-negative. |
| Calls.SpendOneSum | app/feed/page.tsx:118-123 | Characterises the decrement of `Calls.CallBuffalo` on totals: spending one unit from a spendable row lowers the table total by exactly one. |
| Calls.CallConserves | app/feed/page.tsx:102-128 | After a successful call, the total of all balances plus the number of calls is unchanged. |
| Calls.UnpaidCallOnUpdateFailure | app/feed/page.tsx:113-128 | When the insert succeeds but the decrement fails, the call stays stored unpaid, and that total grows by one. |
| Calls.UploadProof | app/feed/page.tsx:147-193 | Calls with another id, or any call when the upload or update fails, are unchanged. |
| Calls.MarkProved | app/feed/page.tsx:168-182 | The update touches exactly the calls with the given id. |
| Calls.UploadCompletes | app/feed/page.tsx:152-182 | A successful upload completes the call whatever its prior status or deadline. The URL goes to the video slot exactly when the MIME type starts with `video/`, else to the photo slot. Parties, year, deadline and message are kept. |
| Calls.TimeRemaining | app/feed/page.tsx:195-212 | Null deadline gives null. A deadline not after now gives `Expired`. Otherwise minutes and seconds are the floored parts of the difference, with seconds below 60. The hours form is used exactly when minutes exceed 60. |
| Calls.SplitMillis | app/feed/page.tsx:203-204 | Minutes and seconds bound the remaining time from below, to within one second. |
| Calls.RenderRemaining | app/feed/page.tsx:196-211 | The text is absent exactly when there is no deadline, and is `Expired` exactly when time is up. Otherwise it is `${h}h ${m}m` or `${m}m ${s}s`: `parseInt` reads the first number back from the whole text and the second from what follows the first unit and space, and the text ends in its second unit letter. |
| Calls.TwoNumbersRead | app/feed/page.tsx:207-211 | A text made of a printed number, a unit letter, a space, a second printed number and a unit letter reads back, via `Text.ParseInt`, as both numbers. |
| Calls.PendingIff | app/feed/page.tsx:259-261 | Characterises `Calls.IsPending`: a call shows as pending exactly when its status is pending and its deadline has not passed. |
| Calls.OpenedCallPendingUntilDeadline | app/feed/page.tsx:99-111 | A newly called buffalo shows as pending until its deadline and not after. |
| Calls.CallActivities | app/feed/page.tsx:232 | Each call becomes one `buffalo_call` entry stamped with its call time. |
| Calls.EventActivities | app/feed/page.tsx:233 | Each feed event becomes one entry of its own type, stamped with its creation time. |
| Calls.AllActivity | app/feed/page.tsx:231-234 | The merged list is a permutation of calls and events together, newest first. |
| Calls.ActivityKinds | app/feed/page.tsx:236-238 | A tab's type occurs in the merged list exactly when a call (for `buffalo_call`) or an event of that type exists. |
| Calls.EmptyNoticeIff | app/feed/page.tsx:236-238 | The "no activity" notice shows on `all` exactly when there are no calls and no events, on `buffalos` exactly when there are no calls, and otherwise exactly when no activity has the tab's type. |
| Calls.RecentCalls | app/feed/page.tsx:53-57 | The feed shows at most 50 calls, newest first, and none left out is newer than one shown. |
| Requests.PendingWith | components/buffalo-request-dialog.tsx:37-44 | The duplicate check selects exactly the pending requests with the same requester, recipient and year. |
| Requests.PendingWithAtMostOne | components/buffalo-request-dialog.tsx:37-46 | With at most one pending request per triple, the check finds at most one row, and finds one exactly when such a request exists. |
| Requests.RequestMessage | components/buffalo-request-dialog.tsx:70 | The notification starts with the greeting. It is the bare greeting exactly when the trimmed note is empty, and otherwise the trimmed note can be read back from between the quotes. |
| Requests.SendRequest | components/buffalo-request-dialog.tsx:30-93 | `NotSignedIn` exactly when the user or profile is missing, and then nothing happens. A duplicate refusal needs the check to have answered; an insert failure needs the insert to have failed. Unless sent, nothing is written. When sent, exactly one pending request for the triple is added, with note trimmed-or-null. The recipient gets a `buffalo_request` notification titled `New Buffalo Request`, whose message is `Requests.RequestMessage` of the sender's name and the note, linking to the sender. A feed event is posted, titled `<name> requested a buffalo on <recipient>`, for the year, with the trimmed note or `Buffalo request sent` as its description. |
| Requests.SendSucceeds | components/buffalo-request-dialog.tsx:30-88 | Success direction of `Requests.SendRequest`: signed in, with no pending request for the triple (when the check answers) and a successful insert, the request is sent. |
| Requests.SendRefusesDuplicate | components/buffalo-request-dialog.tsx:37-50 | With the check answering, a request is refused exactly when a pending one for the same triple exists. |
| Requests.SendKeepsAtMostOnePending | components/buffalo-request-dialog.tsx:37-58 | Sending preserves at most one pending request per triple. |
| Requests.SendAfterFailedCheckDuplicates | components/buffalo-request-dialog.tsx:37-52 | When the check's query fails, a second pending request for the same triple is inserted. |
| Requests.LoadPending | app/notifications/page.tsx:36-42 | The pending list holds exactly the pending requests addressed to the user, newest first. |
| Requests.LoadPast | app/notifications/page.tsx:43-49 | The past list holds min(10, number answered) of the requests addressed to the user and accepted or declined, and all of them when there are at most 10. None left out ranks above one shown; never-answered rows count as latest, as NULLs do in a descending order. |
| Requests.Resolve | app/notifications/page.tsx:77-83 | Answering sets status and response time on the rows with that id only. |
| Requests.Respond | app/notifications/page.tsx:69-157 | A missing session or an unlisted id changes nothing (`NotListed` for a signed-in user), and so does a failed status update, which is the outcome exactly when a listed request's update fails. A written decline is `DeclineRecorded`; a failed balance check, a failed balance write and a recorded acceptance each need acceptance and the earlier steps to have answered. Only acceptance touches balances or posts an event. A recorded acceptance posts a `buffalo_accepted` event from the requester to the user for the current year, titled `<user> accepted a buffalo from <requester>`, described by the request's note or `Buffalo accepted!` when the note is null or empty. Once the status is written, the request is answered whatever happens next. |
| Requests.AcceptSucceeds | app/notifications/page.tsx:69-150 | Success direction of `Requests.Respond`: signed in, accepting a listed request with every round trip answering records the acceptance. |
| Requests.AcceptedBalances | app/notifications/page.tsx:94-135 | An accepted response credits the requester's row on the user for the current year. |
| Requests.CreditAddsOne | app/notifications/page.tsx:109-135 | Crediting adds exactly one to the pair's balance whether or not it had a row, and changes no other pair. |
| Requests.CreditExisting | app/notifications/page.tsx:109-113 | When the pair has a row, updating it to its balance + 1 raises that pair by one and no other pair, keeps keys unique, and adds one to the table total. |
| Requests.CreditNew | app/notifications/page.tsx:121-127 | When the pair has no row, inserting one with balance 1 raises that pair from 0 to 1 and no other pair, keeps keys unique, and adds one to the table total. |
| Requests.AcceptCredits | app/notifications/page.tsx:91-135 | Accepting adds exactly one to the requester's balance on the user, changes no other pair, and keeps keys unique and balances non-negative. |
| Requests.ResolveKeepsAtMostOnePending | app/notifications/page.tsx:77-83 | Answering keeps at most one pending request per triple. |
| Requests.FreshListIsPending | app/notifications/page.tsx:36-75 | From a freshly loaded list, the request answered is a pending one addressed to the user. |
| Requests.StaleListCreditsTwice | app/notifications/page.tsx:74-113 | A request already accepted but still on the page's list is accepted again and credits a second unit. |
| Board.LoadBoard | app/buffalo-board/page.tsx:55-61 | The board loads exactly the rows of the year with a positive balance. |
| Board.BuffalosBetween | app/buffalo-board/page.tsx:82-87 | Over rows with positive balances, the cell count is non-negative. |
| Board.BuffalosBetweenIsBalance | app/buffalo-board/page.tsx:82-87 | Characterises `Board.BuffalosBetween`: the cell count is the pair's balance when positive, else 0. |
| Board.PlayerTotals | app/buffalo-board/page.tsx:89-97 | A player's "can call" and "owes" totals are non-negative over non-negative rows. |
| Board.TotalsBalance | app/buffalo-board/page.tsx:89-97 | Over the ids of all profiles, total "can call" equals total "owes". |
| Board.SortedPlayers | app/buffalo-board/page.tsx:99-103 | The sorted list is a permutation of the profiles, ordered by "can call", most first. |
| Board.CellAt | app/buffalo-board/page.tsx:275-300 | Diagonal cells show `−`. A positive count is mine when the user calls, owed when the user is called on, other otherwise. A zero count is neutral. |
| Board.CellsMirror | app/buffalo-board/page.tsx:286-300 | In the user's row a cell is green exactly when they hold a positive balance on that player. In the user's column it is red exactly when that player holds one on them. |
| Home.HomeMatchesBoard | app/page.tsx:47-58 | "You have" and "you owe" equal the board's "can call" and "owes" for the user. |
| Home.HomeFiguresNonNegative | app/page.tsx:100-101 | Both home figures are non-negative. |
| Home.CompetitionPhase | app/page.tsx:106-111 | `Results In` exactly when the user has a score. `Live` exactly when there is no score and nobody, or not everyone, has submitted. |
| Home.PhaseFollowsPendingCount | app/page.tsx:102-111 | Without a score, `Results Pending` shows exactly when someone submitted and the pending count is not positive. |
| Home.IconAndColourAgree | app/page.tsx:115-127 | Characterises `Home.RankIcon` and `Home.RankColor`: they split the ranks the same way, 1, 2 and 3 each apart and all other ranks together. |
| Home.Visible | app/page.tsx:313 | Collapsed, the list shows its first two entries; expanded, all of them. |
| Home.ToggleCountsHidden | app/page.tsx:304-311 | The toggle shows exactly when entries are hidden, labelled `+n more` with n the number hidden. |
| Entries.FilledTrimmed | app/submit/page.tsx:54-65 | An accepted form stores no empty field and no field with surrounding white space. |
| Entries.TrimAllStable | app/submit/page.tsx:42-65 | Stored fields pass the check again and store unchanged. |
| Entries.LoadSubmission | app/submit/page.tsx:34-46 | A loaded submission is the player's, for the year. |
| Entries.LoadSubmissionFinds | app/submit/page.tsx:34-46 | With one submission per player and year, loading finds one exactly when it exists. |
| Entries.Prefill | app/submit/page.tsx:42-46 | A loaded submission pre-fills its stored artists and songs; otherwise the form is blank and cannot be submitted. |
| Entries.SubmitEntry | app/submit/page.tsx:51-84 | A blank field means nothing is written; so does a failed write. `SaveFailed` exactly when every field is filled and the write fails. `Saved` exactly when every field is filled, the write succeeds and no submission was loaded; `Updated` in the same case with one loaded. With a loaded submission, its row is rewritten by id with the trimmed fields. Otherwise one row is appended with a fresh id. |
| Entries.Rewrite | app/submit/page.tsx:68-72 | An update by id keeps the table's length. It rewrites the fields of the rows with that id and leaves every other row as it was. |
| Entries.SubmitKeepsOnePerPlayerYear | app/submit/page.tsx:68-73 | Saving keeps one submission per player and year, and unique ids. |
| Scoring.SaveResults | app/admin/page.tsx:57-83 | No selected user, a blank field, or a failed write: nothing is written. Otherwise the player's results for the year are replaced by the trimmed fields, other rows are kept, and keys stay unique. |
| Scoring.SavedResultsTrimmed | app/admin/page.tsx:72-77 | Saved results are non-blank and already trimmed. |
| Scoring.SubmissionOf | app/admin/page.tsx:106 | The submission found belongs to the player; none is found exactly when the player has none. |
| Scoring.ScoreEntries | app/admin/page.tsx:103-121 | Each entry is the scorer applied to the player's first submission and one of their results. |
| Scoring.ScoreEntriesUsers | app/admin/page.tsx:105-107 | A player is scored exactly when they have a result and a submission. |
| Scoring.ScoredIff | app/admin/page.tsx:96-107 | For the year, a player is scored exactly when the results and the submissions tables both hold a row of theirs for it. |
| Scoring.RankRows | app/admin/page.tsx:125-130 | The i-th ranked entry becomes a score row for the year with its player and figures. |
| Scoring.RanksContiguous | app/admin/page.tsx:125-130 | The places written are exactly 1..N, increasing in ranker order. |
| Scoring.ApplyAllocations | app/admin/page.tsx:132-142 | Each pair's balance becomes its last allocated value (overwritten, not added to); pairs without an allocation keep theirs. Keys stay unique, and balances non-negative when allocations are. |
| Scoring.AllocationsStored | app/admin/page.tsx:135-142 | With one allocation per pair, each pair ends with exactly its allocation. |
| Scoring.CalculateAllScores | app/admin/page.tsx:95-145 | No results for the year, or a failed query: nothing changes. Results and submissions are never written. Other years' score rows and balances are untouched, and keys stay unique. |
| Scoring.RankedPlayersStored | app/admin/page.tsx:123-130 | Each ranked player, listed once, holds a score row for the year with their figures and place i + 1. |
| Scoring.AllocationsAwarded | app/admin/page.tsx:132-142 | After scoring, each allocated pair holds exactly its allocated balance for the year. |
| Scoring.SubmitResults | app/admin/page.tsx:57-93 | Each outcome holds exactly when `Scoring.SaveResults` gives it: no user selected, a blank field, a failed write, or saved. Unless saved nothing changes. Once saved, the trimmed results are stored and the year is rescored from the saved results. Submissions are never written. |
| Scoring.SavedHasYearResult | app/admin/page.tsx:72-87 | A saved form leaves a result row for the year, so the rescoring that follows does not stop early. |
| Scoring.SubmitRanksPlayers | app/admin/page.tsx:85-130 | A successful submission with the results query answering gives each ranked player, listed once, a score row for the year with their figures and place i + 1. |
| Scoring.SubmitAwardsBuffalos | app/admin/page.tsx:85-142 | A successful submission with the results query answering leaves each allocated pair, allocated once, with exactly its allocated balance for the year. |
| Profiles.CountWins | app/profile/page.tsx:40 | Wins are the number of rows whose place is 1. They never exceed the rows, are zero exactly when no place is first, and equal the rows exactly when every place is first. |
| Profiles.BestRank | app/profile/page.tsx:41 | Best rank is 0 with no rows; otherwise it is the smallest place, attained by some row. |
| Profiles.MyScores | app/profile/page.tsx:33-37 | The query keeps exactly the player's score rows. |
| Profiles.MinRank | app/profile/page.tsx:41 | The minimum place bounds every row's place from below and is attained by one of them. |
| Profiles.LoadStats | app/profile/page.tsx:32-50 | Competitions are the number of the player's score rows and wins the number of those with place 1. Best rank is their smallest place, or 0 without rows. A failed query keeps the figures shown. |
| Profiles.StatsCounted | app/profile/page.tsx:33-40 | The query's row count is the number of the player's score rows, and its win count the number of those with place 1. |
| Profiles.StatsAgree | app/profile/page.tsx:39-122 | With places from 1, a player has won exactly when their best rank is 1. Best finish, drawn with the corrected medal, shows `-` exactly when the win-rate panel is hidden. |
| Profiles.BestFinishAsWrittenAgrees | app/profile/page.tsx:117 | The Best Finish panel as written shows `-` exactly when the corrected one does, so the previous row holds for the page as written too. |
| Profiles.RankEmojiMisdecoded | app/profile/page.tsx:72-77 | Characterises `Profiles.RankEmojiAsWritten`: `getRankEmoji` as written returns, for every rank, the UTF-8 bytes of the intended icon read as Mac OS Roman, never the icon itself. |
| Profiles.RankEmojiAgrees | app/profile/page.tsx:72-77 | Characterises `Profiles.RankEmoji`: corrected medals match the history page, and distinguish ranks 1, 2, 3 and all others. |
| Encoding.Utf8Char | app/profile/page.tsx:73-76 | A character encodes to one to four bytes. It takes one byte, equal to its code, exactly when it is ASCII. Otherwise a lead byte of at least 0xC0 is followed by continuation bytes in 0x80-0xBF. |
| Encoding.MacRoman | app/profile/page.tsx:73-76 | Reading bytes as Mac OS Roman gives one character per byte, each by the 256-entry table. |
| Encoding.AsciiSurvives | app/profile/page.tsx:76 | ASCII text reads the same in UTF-8 and Mac OS Roman; the `4` of the keycap survives. |
| Encoding.NonAsciiGarbled | app/profile/page.tsx:73-76 | Any character beyond ASCII comes out of the misreading as something else. |
| History.YearsOf | app/history/page.tsx:46 | The years list has one year per score row, in row order. |
| History.LoadAvailableYears | app/history/page.tsx:39-53 | The years have no duplicates and are exactly the years with scores. The first is selected; with none, the current year stays selected. |
| History.YearsDescending | app/history/page.tsx:40-49 | The years are strictly decreasing, so the selected year is the latest with scores. |
| History.YearStandings | app/history/page.tsx:55-65 | A year's standings hold exactly its score rows, each as often as it is stored (equal multisets), ordered by place. |
| History.RankIconsDistinct | app/history/page.tsx:86-91 | Characterises `History.RankIcon`: ranks 1, 2 and 3 each get their own icon, and every other rank the fourth. |
| Nav.NavItems | components/bottom-nav.tsx:54-61 | There are six tabs, and only Alerts carries a badge: the notification count. |
| Nav.ActiveIff | components/bottom-nav.tsx:68 | Characterises `Nav.IsActive`: `/` is lit only on `/` itself; any other tab on every path starting with its href. |
| Nav.PrefixNotSegment | components/bottom-nav.tsx:68 | Matching is by characters, not segments: `/feedback` lights Feed, `/fee` does not. |
| Nav.AtMostOneActive | components/bottom-nav.tsx:54-68 | On any path at most one tab is lit. |
| Nav.BadgeLabel | components/bottom-nav.tsx:91 | The label is `9+` exactly above nine, and otherwise the single digit. |
| Nav.BadgeLabelReads | components/bottom-nav.tsx:91 | A label up to nine reads back as the count. |
| Nav.BadgeViewAsWritten | components/bottom-nav.tsx:89-93 | As written, a badge of 0 renders a stray text `0`. |
| Nav.BadgeView | components/bottom-nav.tsx:89-93 | Corrected: a bubble exactly for a positive count, with the capped label, and nothing otherwise. |
| Nav.BadgeViewsAgree | components/bottom-nav.tsx:89-93 | The two renderings differ exactly at a count of 0. |
| Nav.CountQuery | components/bottom-nav.tsx:45-49 | A head request returns no rows, only the exact count of pending requests addressed to the user. |
| Nav.NotificationCountAsWritten | components/bottom-nav.tsx:51 | `data?.length \|\| 0` is 0 whenever no rows come back. |
| Nav.NotificationCount | components/bottom-nav.tsx:45-51 | Corrected: the count is the response's count. |
| Nav.AlertsAsWritten | components/bottom-nav.tsx:42-93 | As written, the count is always 0, and the Alerts tab always shows a stray `0`. |
| Nav.CountMissesPendingRequest | components/bottom-nav.tsx:45-51 | With one pending request, the count as written is 0 where the exact count is 1. |
| Nav.AlertsCorrected | components/bottom-nav.tsx:42-93 | Corrected, the count is the number of pending requests to the user, and a bubble shows exactly when one exists. |

## Behaviour worth knowing

The model follows the code in each case below; the lemma named proves the code's behaviour.

- **The call is inserted before the balance is decremented** (`Calls.UnpaidCallOnUpdateFailure`). The handler refuses a call without a buffalo to spend ("You have no buffalos on this person", app/feed/page.tsx:95). Yet when the decrement fails (app/feed/page.tsx:125-128) the inserted call stays stored and unpaid.
- **Proof upload checks neither status nor deadline** (`Calls.UploadCompletes`). A call past its deadline, or already completed, is marked completed again.
- **`expired` is never stored.** Expiry is derived from the deadline at display time (`Calls.PendingIff`).
- **A failed duplicate check lets a duplicate request through** (`Requests.SendAfterFailedCheckDuplicates`).
- **The page answers from its loaded list, not the table** (`Requests.StaleListCreditsTwice`). The page lists only pending requests (app/notifications/page.tsx:36-41), but the handler looks the id up in that list (line 74) and does not re-read the row's status. So a request accepted elsewhere but still listed is credited a second time.
- **Accepting credits the current calendar year, not the request's year** (`Requests.Respond`).
- **Scoring overwrites balances, if the upserts are keyed** (`Scoring.ApplyAllocations`). The model assumes the balance upsert resolves on (caller, recipient, year). Under that assumption, re-scoring after buffalos were spent restores them to the allocated values. The code itself does not establish the key: see `Scoring.ApplyAllocations` under "## Left out".

## Left out

- The database, storage, realtime channels and the network. Most round trips are a boolean success parameter. Where the page ignores an error, the model follows it: the feed's balance lookup ignores its error, so `Calls.CallBuffalo` takes `lookupOk` and a failed lookup reads as no buffalo; the scoring upserts and the feed-event inserts are assumed to succeed. Ids are naturals chosen fresh, standing for database-generated uuids.
- Concurrency between browser sessions. Every handler is modelled as one sequential step.
- `lib/scoring.ts` is not part of this model. `calculateScore`, `rankPlayers` and `calculateBuffaloBalances` are parameters, and the model assumes nothing about their formulas, tie-breaks or output shape.
- Scoring.CalculateAllScores: upsert errors inside the scoring loops are ignored by the page and not modelled. The row year is taken as the current year, whatever the ranker returns.
- Scoring.SaveResults: results, scores and balance upserts are keyed on (player, year) and (caller, recipient, year). The upserts pass no conflict target and the table constraints are not visible.
- Scoring.ApplyAllocations: the overwrite it states holds only under the keyed-upsert assumption. Every row type carries an `id` (lib/supabase.ts:38, lib/supabase.ts:51), and an upsert without `onConflict` resolves on the primary key. The payloads at app/admin/page.tsx:72-77, 126-129 and 136-141 carry no `id`, so unless a unique constraint on the natural key exists in the database, each upsert may insert a new row instead. The same applies to `Scoring.CalculateAllScores`, `Scoring.AllocationsStored` and `Scoring.AllocationsAwarded`.
- Calls.DeadlineFor: `setMinutes` works in local time. Daylight-saving shifts and floating-point rounding far beyond the valid date range are not modelled. Times are integer milliseconds.
- Calls.CallBuffalo: `called_at` is the database's insert time, modelled as the handler's `now`. The feed-event insert is assumed to succeed, since its error is ignored.
- Requests.SendRequest: the notification and feed-event inserts are assumed to succeed; their errors are only logged.
- Requests.Respond: accepting updates the found row by its id. This is modelled as an update by pair key, which is the same row under unique keys.
- Marking notifications read, page titles, toasts, routing and CSS classes, except the rank colours the home page maps alongside its icons.
- The profile page's win rate, which is floating point with `toFixed`.
- The timer input's HTML `min`/`max` hints, which the handler does not enforce.
- `toLocaleString` date formatting, icons per feed-event type, and the admin page's list of users with submissions.
- The diagnostic scripts, `components/page-header.tsx`, `app/layout.tsx` and `app/player/[id]/page.tsx`.

## Findings

| source | as written | input that shows it | evidently intended | confidence | as-written member | corrected member |
|---|---|---|---|---|---|---|
| components/bottom-nav.tsx:45-51 | The count query asks for `head: true`, which returns no rows, then stores `data?.length \|\| 0`, which is always 0. | One pending request addressed to the user: the stored count is 0. | Use the query's `count`: the number of pending requests addressed to the user. | not executed; relies on head requests returning no data | Nav.NotificationCountAsWritten | Nav.NotificationCount |
| components/bottom-nav.tsx:89-93 | `{item.badge && item.badge > 0 && …}` evaluates to `0` for a zero count, and React prints it, so a bare `0` appears beside the Alerts icon. | A badge of 0, which given the row above is every case. | No badge when the count is not positive. | not executed | Nav.BadgeViewAsWritten | Nav.BadgeView |
| app/profile/page.tsx:72-77 | The four rank strings are the UTF-8 bytes of 🥇 🥈 🥉 4️⃣ read as Mac OS Roman, e.g. `U+F8FF ü • á` for first place. | Best rank 1: the Best Finish panel shows the garbled text instead of a medal. | The medals the history page uses for the same ranks. | not executed | Profiles.RankEmojiMisdecoded | Profiles.RankEmojiAgrees |
