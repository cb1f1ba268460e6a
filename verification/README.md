# Scoreboard freeze-and-reveal, modelled in Dafny

A contest scoreboard built with Next.js has three parts:

- **The viewer page** (`src/app/page.tsx`). It shows teams ranked by total score. A 3-second interval rescores every team and re-sorts the board, remembering each team's previous rank. When the board is frozen the interval stops. Unfreezing starts a reveal: teams are checked one at a time from the bottom of the board. A team with a first solve raises an alert that must be confirmed. Checking a team rescores it and re-sorts the board.
- **The admin page** (`src/app/admin/page.tsx`). It has a team store with an add-team form and a per-question editor. It also has freeze / unfreeze / next controls with a `count` cursor. Every change is sent to the server as a socket event.
- **The socket server** (`src/pages/api/socket.ts`). It keeps the set of connected socket ids. It relays each admin event to all of them and collects per-socket acknowledgements. It retries the sockets that did not acknowledge, up to a bounded number of attempts.

The model is functional. Every state is an immutable datatype and every handler is a pure function. Time and chance become inputs:

- **Random score changes.** Each `Math.floor(Math.random() * 6 - 3)` becomes an explicit delta in -3..2. A tick or a processing step takes one delta vector per board position (`Ranking.ValidDeltas`).
- **Socket replies.** Each socket's reply in each broadcast attempt comes from an oracle `reply(attempt, id)`.
- **Timers.** The 3 s interval and the 1 s settle timeout become `Action`s that the environment may apply (`Scoreboard.Apply`). The 500 ms / 1000 ms timeouts inside processing a team are folded into one step taken on the click. The retry delay is not modelled.

Modules:

| module | file | models |
|---|---|---|
| `Scores` | `scores.dfy` | questions, teams, totals |
| `Ranking` | `ranking.dfy` | `updateScores` of the viewer: rescoring, the stable sort by sum, the previous-rank map |
| `Scoreboard` | `scoreboard.dfy` | the viewer's freeze / unfreeze / reveal stepper and its invariant |
| `RevealQueue` | `reveal_queue.dfy` | the finding below: the reveal order as written, and a corrected queue |
| `Protocol` | `protocol.dfy` | the client events and their wire names |
| `Admin` | `admin.dfy` | the admin page |
| `Socket` | `socket.dfy` | the server's registry, broadcast with retries, and event relay |

The model follows the code. Two things about the page are worth knowing up front:

- The page keeps no copy of the board at freeze time and no buffer of pending updates. While frozen, the interval simply does not run.
- The reveal order is recomputed from the live board on every render, and the Next button disappears after the last team, so the reveal never ends (see Findings).

Three more notes on how the code is modelled:

- **Sorting.** JavaScript's `Array.prototype.sort` is stable. `Ranking.SortBySum` is a stable insertion sort by descending sum. `Ranking.StableSortIsUnique` shows that any stable descending sort yields this same list.
- **Question keys.** The viewer stores eight question keys `questions1` … `questions8`. They are modelled as a sequence of `NumQuestions` (8) questions.
- **The `update-score` relay.** The server relays `update-score` under the name `"admin-next"`. This is modelled as written (`Socket.RelayNames`).

## Model

| member | source | states |
|---|---|---|
| Scores.TotalUpdate | src/app/admin/page.tsx:149-156 | replacing one question changes the recomputed team total by exactly the new score minus the old one |
| Scores.TotalNonNegative | src/app/page.tsx:228-240 | a team whose scores are all clamped at zero has a non-negative total |
| Ranking.StatusOf | src/app/page.tsx:232-233 | status is correct exactly above 7, pending exactly in 4..7, incorrect exactly at 3 or below |
| Ranking.RescoreQuestion | src/app/page.tsx:228-239 | a rescored question is never negative; it is the old score plus the delta, or 0 when that would be negative; its status follows the new score; the first-solve flag is kept |
| Ranking.RescoreQuestions | src/app/page.tsx:226-243 | each question is rescored with its own delta, and the running sum equals the total of the new scores |
| Ranking.Rescore | src/app/page.tsx:222-245 | a rescored team keeps its name, ranks and flags; its sum agrees with its questions and is non-negative |
| Ranking.Insert | src/app/page.tsx:247 | insertion adds exactly one copy of the team, as a multiset |
| Ranking.InsertSorted | src/app/page.tsx:247 | inserting into a list sorted by descending sum keeps it sorted |
| Ranking.SortBySum | src/app/page.tsx:247 | the sort is a permutation of its input and is sorted by descending sum |
| Ranking.InsertWithSum | src/app/page.tsx:247 | an inserted team lands in front of every team already present with the same sum |
| Ranking.SortBySumIsStable | src/app/page.tsx:247 | teams with equal sums keep their input order (the sort is stable) |
| Ranking.SameGroupsSameSort | src/app/page.tsx:247 | two sorted lists with the same equal-sum groups in the same order are equal |
| Ranking.StableSortIsUnique | src/app/page.tsx:247 | every stable descending sort of a list gives the same result as the model's sort |
| Ranking.OldRanksIsLastRank | src/app/page.tsx:217-220 | the reduce holds a name exactly when it is on the board, mapped to the 1-based position of its last occurrence |
| Ranking.LastRankOf | src/app/page.tsx:217-220 | a listed team's recorded rank is at or after its own position and names a team of the same name |
| Ranking.OldRanksLookup | src/app/page.tsx:217-220 | every team on the board has an old rank in 1..n pointing at a team with its name |
| Ranking.OldRanksOfUniqueNames | src/app/page.tsx:217-220 | with distinct names, each team's old rank is its own position plus one |
| Ranking.Ranked | src/app/page.tsx:248-253 | a ranked team keeps its scores; previousRank is its old rank, or its new rank if the old one is missing or zero (JavaScript `||`); isMoving holds exactly when the two ranks differ |
| Ranking.AssignRanksKeepsTeams | src/app/page.tsx:248-253 | ranking changes only previousRank and isMoving, and keeps a sorted board sorted |
| Ranking.UpdatedTeamScores | src/app/page.tsx:222-245 | after a tick every team's sum agrees with its questions and every score is non-negative |
| Ranking.UpdatedTeamRank | src/app/page.tsx:217-253 | after a tick previousRank is a rank of the old board held by a team of the same name, and isMoving holds exactly when it differs from the new rank |
| Ranking.UpdatedTeamOfUniqueNames | src/app/page.tsx:217-253 | with distinct names, the team at a new position is the team from its previous rank, rescored with that position's deltas |
| Ranking.UpdateScoresSorted | src/app/page.tsx:215-260 | a tick keeps the number of teams and leaves the board sorted by descending sum |
| Ranking.UpdateScoresIsStableSort | src/app/page.tsx:215-260 | apart from the rank fields, a tick yields the stable descending sort of the rescored board |
| Ranking.UpdateScoresKeepsQuestionCount | src/app/page.tsx:226-241 | a tick keeps every team's number of questions |
| Scoreboard.ReverseIndex | src/app/page.tsx:109 | the i-th team to check is the team i places from the bottom of the board |
| Scoreboard.ReverseReverse | src/app/page.tsx:109 | reversing the check list gives back the board |
| Scoreboard.FirstSolvesMember | src/app/page.tsx:141-146 | question number k is listed exactly when question k has a first solve |
| Scoreboard.FirstSolvesIncreasing | src/app/page.tsx:141-146 | listed question numbers are valid 1-based question numbers, in strictly increasing order |
| Scoreboard.FirstSolvesEmpty | src/app/page.tsx:141-148 | the list is non-empty exactly when some question has a first solve |
| Scoreboard.Settle | src/app/page.tsx:256-258 | the settle timer leaves no team moving; every other field of every team, and every other part of the board, is kept |
| Scoreboard.SettleIdempotent | src/app/page.tsx:256-258 | a second settle changes nothing, and settling keeps a sorted board sorted |
| Scoreboard.HighlightKeepsBoard | src/app/page.tsx:163-167 | highlighting keeps every name, question list and sum, so a sorted board stays sorted and teams of other names are untouched; on then off restores a board where that team was not highlighted |
| Scoreboard.RescoreNamedOnlyNamed | src/app/page.tsx:171-197 | rescoring by name leaves teams of other names untouched, keeps every name, and gives the named team a consistent, non-negative total |
| Scoreboard.FrozenTickIsIdle | src/app/page.tsx:118-126 | while frozen, the interval leaves the board unchanged |
| Scoreboard.UnfreezeStartsReveal | src/app/page.tsx:268-273 | unfreeze does nothing unless frozen; otherwise it starts the reveal at the first team with the scores kept; it is idempotent |
| Scoreboard.NextCheckEnds | src/app/page.tsx:129-136 | with no valid cursor, Next ends the reveal, clears the cursor, keeps the scores, and a second press changes nothing (the page's button never reaches this branch; see Findings) |
| Scoreboard.NextCheckHalts | src/app/page.tsx:138-156 | a team with first solves raises an alert naming that team and exactly its first-solve questions, with board and cursor unchanged |
| Scoreboard.NextCheckProcesses | src/app/page.tsx:138-158 | otherwise Next processes the team the cursor counts from the bottom |
| Scoreboard.OthersPermutation | src/app/page.tsx:199 | re-sorting preserves the multiset of teams not bearing a given name |
| Scoreboard.ProcessTeamOthers | src/app/page.tsx:161-213 | processing a team leaves all teams of other names unchanged, as a multiset |
| Scoreboard.ProcessTeamShape | src/app/page.tsx:161-213 | processing keeps the team count, sorts by descending sum, advances the cursor by one and keeps the flags and alert |
| Scoreboard.ProcessTeamOrigin | src/app/page.tsx:161-213 | each team after processing comes from the board: unchanged if of another name, else rescored and unhighlighted |
| Scoreboard.ProcessedTeam | src/app/page.tsx:171-208 | the processed team ends with a consistent, non-negative total and its highlight off |
| Scoreboard.ProcessTeamKeepsWellFormed | src/app/page.tsx:178-193 | processing keeps eight questions per team |
| Scoreboard.TickKeepsWellFormed | src/app/page.tsx:226-241 | a tick keeps eight questions per team |
| Scoreboard.ApplyKeepsInv | src/app/page.tsx:118-306 | every enabled click or timer, on the page as written or with the Next button kept up, keeps eight questions per team, a cursor exactly while revealing, and an open alert naming the team at a valid cursor |
| Scoreboard.ConfirmAlertProcesses | src/app/page.tsx:394-399 | the alert's OK button processes exactly the team the alert names, closes the alert and advances the cursor once |
| Scoreboard.RevealNeverEnds | src/app/page.tsx:297-306 | as written, every action on an unfreezing board leaves it unfreezing, the interval stays idle, and Next cannot be pressed once the cursor is past the last team |
| Scoreboard.RevealEndsAfterLastTeam | src/app/page.tsx:118-136 | with the Next button kept up, the press after the last team ends the reveal with the scores kept, and the next interval rescores the board unless it is frozen |
| RevealQueue.SortThree | src/app/page.tsx:199 | a bottom team that overtakes the middle one sorts between the top two |
| RevealQueue.ProcessBottomOfThree | src/app/page.tsx:161-213 | processing such a bottom team moves it to the middle of a three-team board |
| RevealQueue.LiveQueueRevisits | src/app/page.tsx:109-159 | as written, after the bottom team rises past the middle one, the next check falls on the same team again |
| RevealQueue.FitsValid | src/app/page.tsx:172-197 | deltas sized for the board are valid for every team on it |
| RevealQueue.StepProcesses | src/app/page.tsx:138-158 | with a fixed queue, a step processes the team the queue names at the cursor |
| RevealQueue.StepAdvances | src/app/page.tsx:203-211 | a step keeps the queue, advances the cursor by one and leaves no alert open |
| RevealQueue.CheckedIsQueue | src/app/page.tsx:128-159 | with a fixed queue, the teams checked from cursor c on are exactly the queue from c on |
| RevealQueue.RevealChecksEachTeamOnce | src/app/page.tsx:268-273 | a corrected reveal checks every team exactly once, bottom of the frozen board first |
| Protocol.EventNamesDistinct | src/app/admin/page.tsx:69-94 | two events share a wire name exactly when they are of the same kind |
| Admin.BlankTotal | src/app/admin/page.tsx:103-114 | a new team's sum of 0 agrees with its questions |
| Admin.AddTeamRejects | src/app/admin/page.tsx:98-101 | adding is refused exactly when the name is empty or the count is not positive; a refusal changes nothing, sends nothing and alerts |
| Admin.AddTeamAppends | src/app/admin/page.tsx:103-128 | otherwise the team is appended after the existing ones with blank questions and sum 0, and the whole list is sent |
| Admin.UpdateQuestionNeedsSelection | src/app/admin/page.tsx:145 | without both selections, saving does nothing and sends nothing |
| Admin.UpdateQuestionEdits | src/app/admin/page.tsx:144-163 | saving replaces only the selected question; the team's total moves by the score difference; the modal closes and the list is sent |
| Admin.OpenThenSaveKeepsQuestions | src/app/admin/page.tsx:131-163 | opening the editor and saving without an edit keeps every question; a board whose totals agree comes back unchanged |
| Admin.NatToDigits | src/app/admin/page.tsx:287 | the decimal spelling of a number passes the digits-only filter |
| Admin.ParseNatToDigits | src/app/admin/page.tsx:287-289 | `Number` of a number's decimal spelling gives the number back |
| Admin.TypedStatus | src/app/admin/page.tsx:290-296 | a typed score sets correct exactly at 100, incorrect exactly at 0, pending otherwise |
| Admin.TypeScoreFilter | src/app/admin/page.tsx:285-298 | non-digit input is ignored; digit input sets only the score and its status; empty input sets score 0, incorrect |
| Admin.TypeScoreRoundTrip | src/app/admin/page.tsx:285-289 | typing a number's digits sets exactly that score |
| Admin.StepDown | src/app/admin/page.tsx:275 | the minus button subtracts one from a positive score and gives 0 otherwise |
| Admin.SteppersInverse | src/app/admin/page.tsx:273-305 | plus then minus restores any score; minus then plus restores any positive score |
| Admin.FreezeUnfreezeGuards | src/app/admin/page.tsx:40-58 | freeze always leaves the page frozen and not unfreezing; unfreeze acts only on a frozen page; both are idempotent and keep the teams and the counter |
| Admin.ControlInvKept | src/app/admin/page.tsx:40-58 | clicks, adds and edits keep count in 0..team count and never leave the page frozen and unfreezing at once |
| Admin.ShownControlCycle | src/app/admin/page.tsx:202-225 | exactly one control button is shown; clicking it shows the next in the cycle freeze, unfreeze, next…, freeze |
| Admin.NextCycles | src/app/admin/page.tsx:46-53 | k presses of Next within the teams advance count by k; one press past the end wraps to 0 and ends the reveal |
| Socket.ConnectAdds | src/pages/api/socket.ts:18 | a connect registers the id, keeps the registry duplicate-free and its order, and changes no other id |
| Socket.DisconnectRemoves | src/pages/api/socket.ts:22 | a disconnect unregisters the id and changes no other id |
| Socket.UnackedMember | src/pages/api/socket.ts:58-74 | an id is un-acked in an attempt exactly when it was targeted and did not reply with received true |
| Socket.UnackedNoDuplicates | src/pages/api/socket.ts:72-74 | the retry list has no duplicates when the targets had none |
| Socket.AttemptRounds | src/pages/api/socket.ts:33-86 | the first attempt targets the given ids; each later attempt targets exactly the previous attempt's un-acked ids; at most max(1, maxRetries) attempts |
| Socket.AttemptRoundsShrink | src/pages/api/socket.ts:72-86 | every retry has at least one target, and targets only ids the previous attempt targeted, so the target lists shrink |
| Socket.CleanAttemptIsLast | src/pages/api/socket.ts:75-77 | an attempt that leaves nothing un-acked is the last one and gives ok; with AttemptOutcome, ok holds exactly when some attempt left nothing un-acked |
| Socket.AttemptOutcome | src/pages/api/socket.ts:69-92 | ok exactly when the last attempt left nothing un-acked; an error comes only once attempts reach maxRetries; both report the last attempt's results |
| Socket.AttemptLastTargets | src/pages/api/socket.ts:72-86 | an id is targeted by the last attempt exactly when it was an initial target and acknowledged in no earlier attempt |
| Socket.BroadcastVerdict | src/pages/api/socket.ts:26-106 | ok means every registered socket acknowledged in some attempt; an error comes after exactly max(1, maxRetries) attempts and names exactly the sockets that never acknowledged |
| Socket.StationaryUnacked | src/pages/api/socket.ts:83-86 | with replies that never change, the last attempt leaves the same ids un-acked as the first |
| Socket.StationaryVerdict | src/pages/api/socket.ts:26-106 | with replies that never change, the broadcast is ok exactly when the first attempt is |
| Socket.StationaryErrorList | src/pages/api/socket.ts:87-92 | with replies that never change, an error names exactly the first attempt's un-acked ids |
| Socket.RelayNames | src/pages/api/socket.ts:109-124 | admin events are relayed under their own name; update-score goes out as admin-next, a name only it and admin-next use |
| Socket.RelayAttempts | src/pages/api/socket.ts:30 | with the default budget a relay makes one to three attempts |

## Left out

- Timers and their races. The 3 s interval and the 1 s settle timeout are actions the environment applies. Processing's 1 s rescore and 0.5 s unhighlight timeouts are not separate steps: `Scoreboard.ProcessTeam` highlights, rescores, sorts, unhighlights and advances the cursor at once, on the click. A Next pressed while a processing step is still pending is not modelled.
- Randomness. `Math.random()` is replaced by explicit per-question deltas in -3..2.
- Transport. The socket transport, its asynchrony, the `.catch` path that reports an error with the exception, the retry delay, logging and `initializeSocket` are not modelled.
- Socket.Attempt: every targeted socket is assumed to answer in every attempt. A socket that never calls back leaves `Promise.all` pending forever, and that hang is not modelled.
- Replies: only "no reply or falsy" and `{received: bool}` are distinguished. A truthy non-boolean `received` is not modelled.
- Socket.Acked: the callback's first argument is taken to be the client's reply, as the code assumes. How a server library reports acks for a room broadcast is not part of this model.
- Scoreboard.Enabled: clicks on the page are not enabled while the first-solve alert is open, because the alert is a full-screen overlay (src/app/page.tsx:387-389). Only its OK button can be clicked.
- Ranking.Rescore: scores are unbounded integers. JavaScript number precision is not modelled.
- Admin.AddTeam: `numProblems` is an integer. A non-integer or NaN value from the number field is not modelled; NaN passes the check on line 98 and `Array(NaN)` then throws. `Array(numProblems)` also throws a RangeError from 2^32 on; the model accepts any positive count.
- Admin.TypeScore: `Number(val)` is taken as exact. Above 2^53 JavaScript rounds, so "9007199254740993" becomes 9007199254740992; `Admin.ParseDigits` and `Admin.TypeScoreRoundTrip` do not model this rounding.
- Admin.UpdateQuestion: the code mutates the previous team object in place. The model builds a new list; it does not model another holder of the old object seeing the change.
- Team names are compared as strings. Names that clash with object-prototype keys in the `oldRanks` record are not modelled.
- Rendering is not modelled: background colours, the animation, the alert message's wording and the first-solve icon. The alert carries the team name and the list of question numbers.
- The viewer page does not listen to socket events in the code. The admin page and the viewer are therefore modelled as separate state machines, joined only through the event names.
- Plain field setters of the admin form are not modelled. These are the name and problem-count inputs, the status select and the first-solve checkbox.

## Findings

| source | as written | input that shows it | evidently intended | confidence | as-written member | corrected member |
|---|---|---|---|---|---|---|
| src/app/page.tsx:109 | the reveal order `teamsToCheck` is the reverse of the live board, recomputed after every re-sort (lines 199, 210), while the cursor counts positions in it | three teams A (sum 10), B (sum 5), C (sum 4); C has no first solve and its deltas bring it to 6; after C is processed the board is [A, C, B], so the next check (cursor 1) falls on C again and B may be passed over | a queue fixed when the reveal starts, so every team is checked exactly once, bottom of the frozen board first | not executed | RevealQueue.LiveQueueRevisits | RevealQueue.RevealChecksEachTeamOnce |
| src/app/page.tsx:297-306 | the Next button is rendered only while `currentCheckingIndex < teamsToCheck.length`, and it is the only caller of `handleNextCheck`, so the end-of-reveal branch (lines 129-136) never runs: `isUnfreezing` stays true and the interval (line 119) never restarts | one team, frozen; Unfreeze sets the cursor to 0; Next processes the team and sets the cursor to 1; the button is gone, and no later action clears `isUnfreezing` | the button stays up for the whole reveal, so the press after the last team ends it and live updates resume | not executed | Scoreboard.RevealNeverEnds | Scoreboard.RevealEndsAfterLastTeam |
