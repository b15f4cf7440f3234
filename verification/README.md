# Live polling system: a verified model of its session logic

This project models, in Dafny, the logic of a classroom live-polling system:

- the Node.js server that coordinates a teacher and students over sockets
  (`backend/server.js`);
- the client's Redux `poll` store (`frontend/src/store/pollSlice.js`);
- the form and pager logic embedded in the teacher's and the student's dashboards
  (`frontend/src/components/TeacherDashboard.js`, `StudentDashboard.js`).

The server keeps its state in module-level variables. Each socket handler runs to
completion on the event loop, so it is one atomic step. Two layers model it:

- **Module `Session`: the handlers as values.** `State` holds the six variables:
  - `currentPoll`;
  - `students`, a JavaScript `Map` kept in insertion order, modelled as a sequence of records with distinct keys (module `Roster`);
  - `pollResults`;
  - `pollHistory`;
  - whether the deadline timer is armed;
  - `teacher`.

  Every handler is a function from the state before it runs to an `Outcome`: the state after it, plus either the error string sent back to the caller or the list of events emitted (each with its audience: caller, teacher room, students room, everyone, or one socket).
- **Module `Server`: the handlers as the source writes them.** Class `Coordinator` holds the same variables as fields and updates them in place. The `forEach` that clears `answered`, the tally initialisation and the `for..of` searches are loops. Each method is proved to produce exactly the `Outcome` of the matching `Session` function.

The two `setTimeout` callbacks are explicit steps: `TimerFires` is the poll deadline and `GraceExpires` is the deletion three seconds after a paper is handed in. Module `SessionProperties` does two things:

- it collects all commands into `Step` and `Run`;
- it proves properties across handlers and across runs.

Module `PollSlice` gives each reducer as a function from the old store record to the new one. `TeacherDashboard` and `StudentDashboard` model the handlers as functions from component state to the next state and what is sent. `JsText` models `String.prototype.trim`, the decimal rendering of numbers and `padStart`.

### Behaviours worth knowing

These follow from the handlers as written; the lemmas named prove them:

- **The rejoin ban lasts only as long as the record.** Before a hand-in, the student dashboard warns that the same name and id cannot rejoin (`StudentDashboard.js:102`). `join-as-student` enforces this only by looking at the stored record's `submittedPaper` flag (`server.js:86-90`). The 3-second deletion (`server.js:289-293`) and `disconnect` (`server.js:425-427`) both delete that record. `submittedStudents` (`server.js:26`) is declared but never used. So once the record is gone, the same id joins again (`PaperBanEndsWithRecord`).
- **What a rejoin keeps depends on which event is handled first.** `join-as-student` carries `answered` over from the stored record while a poll is set (`server.js:98`). Two orders are possible:
  - The new connection's join is handled before the old socket's `disconnect`. The join rebinds the record to the new socket, and the disconnect then finds no record on the old one. The answer is kept and a second vote is refused (`RejoinBeforeDisconnectKeepsAnswer`).
  - The old socket's `disconnect` is handled first. It deletes the record, and the join creates a fresh one. The student is asked again and counted twice for the same poll (`DoubleVoteAfterRejoin`).
- **A copied `answerIndex` of 0 is lost.** When a record is rewritten on rejoin, `answerIndex` is copied with `||`, so 0 becomes null (`CarriedIndex`).
- **`endPoll` never clears `currentPoll`.** After a poll ends:
  - answers are still accepted;
  - a second `end-poll` appends a second history entry;
  - after a deadline close with unanswered students, `canCreateNewPoll()` stays false even though the teacher is sent `canCreatePoll: true` (`DeadlineCloseKeepsLock`).
- **`optionIndex` is not range-checked.** An out-of-range index is tallied under a key that `calculateResults` never reads (`VoteTotal`).
- **The all-answered test counts every record,** including handed-in ones that are still waiting for deletion.
- **`remove-student` does not disconnect the student, and nothing bars a rejoin.** The tally is left as it is after `remove-student` and after `disconnect`.
- **`resetPoll` clears `answered` but not `answerIndex`.**
- **`correctAnswerIndex` is never assigned,** so `isCorrect` is always false and `correctCount` is always 0.

## Model

| member | source | states |
|---|---|---|
| PollTypes.TotalVotes | frontend/src/components/StudentDashboard.js:118-120 | the summed `count`s bound every single count, and the sum is 0 exactly when every count is 0 |
| Roster.Get | backend/server.js:87 | `students.get(id)` finds a record exactly when the key is present, and the record found carries that key and is in the roster |
| Roster.Put | backend/server.js:94-101 | `students.set` keeps keys distinct, stores the record under its key, leaves every other key's record as it was, and replaces in place (same length) or appends at the end |
| Roster.Delete | backend/server.js:290 | `students.delete(id)` keeps keys distinct, removes the key and leaves every other key's record as it was; with the key present exactly the record at its position is removed, the others keeping their order; without it nothing changes |
| Roster.RemoveAt | backend/server.js:425-427 | removing the record at a position keeps the records before it and shifts the ones after it down by one |
| Roster.FirstBySocket | backend/server.js:425-426 | the `for..of` search gives the first record bound to the socket in insertion order, or -1 when no record is |
| Roster.AnsweredCount | backend/server.js:46 | the number of answered records never exceeds the roster size |
| Roster.AnsweredCountFull | backend/server.js:45-48 | the number of answered records equals the roster size exactly when every record has answered |
| Session.ResultsOf | backend/server.js:54-59 | one `{option, count}` per option, in option order, with a missing count reported as 0 |
| Session.CalculateResults | backend/server.js:51-62 | empty without a poll; otherwise one `{option, count}` per option of the current poll, in order, with the tally's count or 0 |
| Session.Summaries | backend/server.js:76 | the roster line list (here and at line 323) has one line per record, in roster order, with the record's name and answered flag and no id |
| Session.CanCreateNewPoll | backend/server.js:41-49 | true exactly when there is no poll or every record has answered (vacuously with no students) |
| Session.Remaining | backend/server.js:272-278 | the roster shown to the teacher after a hand-in is no longer than the roster, and every line carries a student id that is not the one that just handed in |
| Session.RemainingInOrder | backend/server.js:272-278 | that roster is exactly one line per record that has not handed in and is not the submitting student, in roster order, each with that record's name, id and answered flag |
| Selection.Positions | backend/server.js:273 | the positions a `filter` keeps: each kept index exactly once, in increasing order, and no other index |
| Session.OptionAt | backend/server.js:207 | `options[index]` is defined exactly for an index inside the option list, and is then the option at that index |
| Session.Details | backend/server.js:202-209 | one progress line per record, in roster order, copying its name, id, answered flag and answer index; `option` is the chosen option for an answered record (undefined for an out-of-range index) and `""` otherwise; `isCorrect` is always false |
| Session.ClearAnswered | backend/server.js:32-34 | every record gets `answered` cleared and nothing else about it changes |
| Session.ResetPoll | backend/server.js:29-39 | `resetPoll()`: no poll, empty tally and no timer; the history and teacher are kept; every record stays in place with only `answered` cleared; a valid state stays valid |
| Session.EffectiveTimeLimit | backend/server.js:142 | `timeLimit \|\| 60`: a given non-zero limit is kept, otherwise 60; never 0 |
| Session.ZeroTally | backend/server.js:147-149 | the fresh tally has exactly the keys `0..n-1`, each with count 0 |
| Session.Concluded | backend/server.js:303-309 | the entry holds the poll's question and options, one count per option in order, the poll's `createdAt`, and `now` as `endedAt` |
| Session.CarriedIndex | backend/server.js:100 | `answerIndex \|\| null` keeps every index except 0, and turns a recorded 0 into null |
| Session.JoinAsTeacher | backend/server.js:68-80 | the caller takes the teacher slot and nothing else changes; it alone receives one snapshot holding the current poll, `Summaries` of the roster, `calculateResults()`, and a `canCreatePoll` that is `canCreateNewPoll()` |
| Session.JoinAsStudent | backend/server.js:83-123 | refused with no change exactly while the stored record has handed in. Otherwise the roster becomes `Put` of the new record: replaced in place under a known key, appended under a new one, with size unchanged or one more. The new record is on the caller's socket under the given name and keeps `answered` only while a poll is set. The snapshot withholds the poll from a student who answered and holds `calculateResults()` exactly when answered. The teacher, if set, gets `student-joined` with the name and the new size |
| Session.CreatePoll | backend/server.js:126-166 | refused with no change for a non-teacher, then while `canCreateNewPoll()` is false. On success every `answered` is cleared and nothing else about the records changes. The tally is 0 on exactly the option indices, the limit is `timeLimit \|\| 60`, the timer is armed and the history is kept. `new-poll` goes to the students room, then `poll-created` with `canCreatePoll: false` to the caller |
| Session.EndPoll | backend/server.js:297-333 | without a poll nothing happens and nothing is emitted. Otherwise exactly the `Concluded` entry is appended to the history, the timer is disarmed and the poll stays set. The events are exactly one `poll-ended` with the final counts and the question to everyone, then, only when a teacher is set, one `poll-state` to the teacher with no poll, the summaries, the counts and `canCreatePoll: true` |
| Session.SubmitAnswer | backend/server.js:169-231 | the checks run in order (unknown or mismatched record, no poll, already answered), and each refuses with no change. An accepted answer is `AcceptAnswer`: it marks only that record in place and adds one to the count under the index, leaving every other count. The poll ends exactly when every record has now answered, and then the history gains exactly one entry: the poll concluded at `now` with the counts that include this vote |
| Session.AcceptAnswer | backend/server.js:189-230 | the record is replaced in place with the vote, the count under the index goes up by one and every other count stays, and the poll stays set. The caller gets `answer-submitted` with `calculateResults()` of the voted state. The teacher, if set, gets `poll-progress` with `Details` of the roster, its size, the results and whether all have answered. Exactly when every record has now answered, the `endPoll()` events follow, and the history gains the one entry `Concluded` for the voted state at `now`, with the timer disarmed |
| Session.AcceptAnswerSteps | backend/server.js:189-230 | an accepted answer is the vote written into the record and the count, followed by `ReportVote` |
| Session.SubmitPaper | backend/server.js:234-287 | refused with no change for an unknown or mismatched record and for a second hand-in. Otherwise the record is set to handed-in in place, and no other record or field changes. The caller is told it will be disconnected. The teacher, if set, gets the paper result (the chosen option text only when answered) and then a snapshot listing `Remaining` of the roster, `calculateResults()` and `canCreateNewPoll()` |
| Session.GraceExpires | backend/server.js:289-293 | the roster becomes `Delete` of the key: that record goes, whatever it holds, and the others keep their order. No other field changes |
| Session.EndPollRequest | backend/server.js:336-342 | a non-teacher is refused with no change; the teacher gets exactly `endPoll()` |
| Session.TimerFires | backend/server.js:162-165 | an armed deadline runs exactly `endPoll()`; an unarmed one does nothing; afterwards no timer is armed |
| Session.GetPollHistory | backend/server.js:345-351 | never changes state; a non-teacher is refused; the teacher receives the whole history |
| Session.RemoveStudent | backend/server.js:354-368 | a non-teacher is refused with no change. Otherwise the roster becomes `Delete` of the key, with the others kept in order, and nothing is emitted if the key was absent. When present, the removed student's socket is told first, then the teacher room gets `student-left` with the name and the new size |
| Session.ResolveSender | backend/server.js:373-389 | the teacher's socket is "Teacher"; otherwise the name on the first record bound to the socket; otherwise "Unknown" |
| Session.Route | backend/server.js:399-411 | a message goes to everyone exactly when it is not private or has no target; it goes to the target and back to the sender exactly when the teacher sent it privately to a present student; it is dropped otherwise |
| Session.SendMessage | backend/server.js:371-412 | no state change; the message carries the sender name and type resolved for the socket; a broadcast is one event to everyone, a private teacher message is one event to the target and one back to the sender, and a dropped one emits nothing |
| Session.Disconnect | backend/server.js:415-440 | the teacher slot is freed if the caller held it. The first record bound to the caller, if any, is removed with the others kept in order, and nothing else changes. `student-left` with the name and new size is emitted only when a record was removed and a teacher remains |
| Server.Coordinator.constructor | backend/server.js:19-24 | the variables start with no poll, no students, an empty tally and history, no timer and no teacher |
| Server.Coordinator.ResetPoll | backend/server.js:29-39 | the in-place `forEach` leaves the state `resetPoll()` describes: no poll, empty tally, `answered` cleared and no timer |
| Server.Coordinator.EndPoll | backend/server.js:297-333 | the new fields and the events are exactly those of `Session.EndPoll` |
| Server.Coordinator.JoinAsTeacher | backend/server.js:68-80 | the new fields and the reply are exactly those of `Session.JoinAsTeacher` |
| Server.Coordinator.JoinAsStudent | backend/server.js:83-123 | the new fields and the reply are exactly those of `Session.JoinAsStudent` |
| Server.Coordinator.CreatePoll | backend/server.js:126-166 | the tally loop and the reset leave exactly the fields and the reply of `Session.CreatePoll` |
| Server.Coordinator.RecordVote | backend/server.js:189-192 | the voter's record is replaced by the voted one and the count under the index goes up by one; nothing else changes |
| Server.Coordinator.SubmitAnswer | backend/server.js:169-231 | the new fields and the reply are exactly those of `Session.SubmitAnswer` |
| Server.Coordinator.AcceptAnswer | backend/server.js:189-230 | the new fields and the reply are exactly those of `Session.AcceptAnswer` |
| Server.Coordinator.ReportVote | backend/server.js:194-230 | the events built after the vote and the `endPoll()` call leave exactly the fields and the reply of `Session.ReportVote` |
| Server.Coordinator.SubmitPaper | backend/server.js:234-287 | the new fields and the reply are exactly those of `Session.SubmitPaper` |
| Server.Coordinator.GraceExpires | backend/server.js:289-293 | the new fields are exactly those of `Session.GraceExpires` |
| Server.Coordinator.EndPollRequest | backend/server.js:336-342 | the new fields and the reply are exactly those of `Session.EndPollRequest` |
| Server.Coordinator.TimerFires | backend/server.js:162-165 | the new fields and the events are exactly those of `Session.TimerFires` |
| Server.Coordinator.GetPollHistory | backend/server.js:345-351 | changes nothing and replies as `Session.GetPollHistory` |
| Server.Coordinator.RemoveStudent | backend/server.js:354-368 | the new fields and the reply are exactly those of `Session.RemoveStudent` |
| Server.Coordinator.SendMessage | backend/server.js:371-412 | changes nothing; the `for..of` sender search gives the reply of `Session.SendMessage` |
| Server.Coordinator.Disconnect | backend/server.js:415-440 | the search loop and the deletion leave exactly the fields and the reply of `Session.Disconnect` |
| SessionProperties.Step | backend/server.js:64-441 | every handler keeps the roster keys distinct and the timer armed only with a poll, and either keeps the history or appends exactly one entry to it |
| SessionProperties.HistoryAppendOnly | backend/server.js:303-309 | over any run of commands, every earlier history entry stays in place and at most one entry is added per command |
| SessionProperties.ModeratorOnly | backend/server.js:126-130 | `create-poll` (here), `end-poll` (lines 336-340), `get-poll-history` (lines 345-349) and `remove-student` (lines 355-358) from any socket but the teacher's are refused and change nothing |
| SessionProperties.PaperKeptJoin | backend/server.js:87-101 | a join does not clear the hand-in flag of an existing record |
| SessionProperties.PaperKeptCreate | backend/server.js:29-34 | creating a poll does not clear a record's hand-in flag |
| SessionProperties.PaperKeptAnswer | backend/server.js:189-190 | an answer does not clear a record's hand-in flag |
| SessionProperties.PaperKeptPaper | backend/server.js:249 | a hand-in does not clear another record's hand-in flag |
| SessionProperties.PaperKeptRemove | backend/server.js:359-362 | `remove-student` may delete the record but never clears its flag |
| SessionProperties.PaperKeptDisconnect | backend/server.js:425-427 | `disconnect` may delete the record but never clears its flag |
| SessionProperties.PaperKeptGrace | backend/server.js:290 | the delayed deletion may delete the record but never clears its flag |
| SessionProperties.PaperBanEndsWithRecord | backend/server.js:86-91 | after a hand-in, a rejoin under the same id is refused, and it succeeds once the delayed deletion has run |
| SessionProperties.SecondAnswerRejected | backend/server.js:183-186 | after an accepted answer, a second answer from the same record in the same poll is refused and changes nothing |
| SessionProperties.TotalOfResults | backend/server.js:51-62 | the total of the reported results is the sum of the counts under the option indices |
| SessionProperties.OneMoreVote | backend/server.js:191-192 | one more vote under an index raises the reported total by one exactly when the index names an option |
| SessionProperties.VoteTotal | backend/server.js:189-199 | an accepted answer raises the reported total by one for an in-range index and leaves it unchanged for an out-of-range one |
| SessionProperties.LastAnswerEndsPoll | backend/server.js:226-230 | the answer that leaves no record unanswered disarms the timer and appends exactly one history entry. The entry is the current poll's question and options, closed at `now`, and every count is the old one plus one under the voted index |
| SessionProperties.AnswersAcceptedAfterEnd | backend/server.js:297-333 | `endPoll` does not change which answers are accepted |
| SessionProperties.SecondEndAppendsAgain | backend/server.js:336-342 | two `end-poll` requests from the teacher append two history entries |
| SessionProperties.DeadlineCloseKeepsLock | backend/server.js:320-326 | a deadline close with an unanswered record tells the teacher `canCreatePoll: true`, while `canCreateNewPoll()` stays false and the next `create-poll` is refused |
| SessionProperties.DoubleVoteAfterRejoin | backend/server.js:425-427 | answer, disconnect and rejoin under the same id: the answer is accepted again and the same index is counted twice for the same poll |
| SessionProperties.RejoinBeforeDisconnectKeepsAnswer | backend/server.js:94-101 | a join on a new socket handled before the old socket's disconnect: the record stays, bound to the new socket and still answered, and a second answer is refused as already answered |
| SessionProperties.JoinMovesRecord | backend/server.js:94-101 | a join on a new socket that is not refused leaves no record bound to the old socket, when that student's record was the only one bound to it |
| PollSlice.SetUserType | frontend/src/store/pollSlice.js:22-24 | writes `userType` only |
| PollSlice.SetStudentInfo | frontend/src/store/pollSlice.js:25-28 | writes `studentName` and `studentId` only |
| PollSlice.SetConnectionStatus | frontend/src/store/pollSlice.js:29-31 | writes `isConnected` only |
| PollSlice.SetPollState | frontend/src/store/pollSlice.js:32-39 | copies the poll as given; a missing result list or roster becomes empty and a missing flag false; `canCreatePoll` is true exactly unless the payload says false; nothing else is written |
| PollSlice.StartingTime | frontend/src/store/pollSlice.js:44 | `payload?.timeLimit \|\| 60`: a poll's non-zero limit, otherwise 60; never 0 |
| PollSlice.SetCurrentPoll | frontend/src/store/pollSlice.js:40-45 | the poll is stored, the answered flag is cleared, results are emptied and the countdown starts at the limit or 60; nothing else is written |
| PollSlice.ServerPollCountdown | frontend/src/store/pollSlice.js:40-45 | a poll as the server builds it starts the client countdown at exactly the limit the server enforces |
| PollSlice.SetResults | frontend/src/store/pollSlice.js:46-48 | writes `results` only |
| PollSlice.SetHasAnswered | frontend/src/store/pollSlice.js:49-51 | writes `hasAnswered` only |
| PollSlice.UpdateStudents | frontend/src/store/pollSlice.js:52-54 | writes `students` only |
| PollSlice.SetCanCreatePoll | frontend/src/store/pollSlice.js:55-57 | writes `canCreatePoll` only |
| PollSlice.SetPollHistory | frontend/src/store/pollSlice.js:58-60 | writes `pollHistory` only |
| PollSlice.SetTimeRemaining | frontend/src/store/pollSlice.js:61-63 | writes `timeRemaining` only |
| PollSlice.DecrementTime | frontend/src/store/pollSlice.js:64-68 | lowers a positive countdown by one; at zero or below it changes nothing; it never goes below zero from zero or above |
| PollSlice.TicksStopAtZero | frontend/src/store/pollSlice.js:64-68 | `n` ticks lower a running countdown by `n`, stop at zero, and touch no other field |
| PollSlice.SetError | frontend/src/store/pollSlice.js:69-71 | stores exactly its payload in `error` and nothing else |
| PollSlice.ClearError | frontend/src/store/pollSlice.js:72-74 | sets `error` to null and nothing else |
| PollSlice.ResetPoll | frontend/src/store/pollSlice.js:75-81 | the poll, results, answered flag, countdown and lock return to their initial values; the other seven fields are unchanged |
| PollSlice.Reduce | frontend/src/store/pollSlice.js:21-82 | every action leaves the fields its reducer does not assign unchanged, and keeps a non-negative countdown non-negative unless the action itself writes a negative time |
| PollSlice.UnwrittenFieldsKept | frontend/src/store/pollSlice.js:21-82 | over any run of actions, a field that none of them assigns ends as it started |
| PollSlice.CountdownNonNegative | frontend/src/store/pollSlice.js:61-68 | from any non-negative countdown (the initial 0 included), every sequence of actions that writes no negative time keeps it non-negative |
| TeacherDashboard.AddOption | frontend/src/components/TeacherDashboard.js:60-64 | appends one empty option only while there are fewer than 6, else no change; 2..6 is kept |
| TeacherDashboard.Without | frontend/src/components/TeacherDashboard.js:68 | `filter` by index drops exactly the entry at an index in range and nothing otherwise |
| TeacherDashboard.RemoveOption | frontend/src/components/TeacherDashboard.js:66-70 | with more than 2 options, drops exactly the entry at the index, keeping the others in order; otherwise no change; 2..6 is kept |
| TeacherDashboard.ChangeOption | frontend/src/components/TeacherDashboard.js:72-76 | replaces only the given entry; the length and all other entries are unchanged |
| TeacherDashboard.EditsKeepBounds | frontend/src/components/TeacherDashboard.js:60-76 | from 2..6 options (the initial form has 2), any sequence of edits stays within 2..6 |
| TeacherDashboard.NonBlankCount | frontend/src/components/TeacherDashboard.js:42 | the number of options that are not blank after trimming is at most the number of options |
| TeacherDashboard.TrimNonBlank | frontend/src/components/TeacherDashboard.js:50 | what `trim()` leaves is empty, or non-empty with no white space at either end |
| TeacherDashboard.TrimOfTrimmed | frontend/src/components/TeacherDashboard.js:50 | `trim()` leaves a non-empty string with no white space at either end unchanged |
| TeacherDashboard.Normalise | frontend/src/components/TeacherDashboard.js:50 | one entry per non-blank option, each non-empty with no white space at either end |
| TeacherDashboard.NormaliseInOrder | frontend/src/components/TeacherDashboard.js:50 | the list sent is exactly the trimmed non-blank options, in their original order |
| TeacherDashboard.CreatePoll | frontend/src/components/TeacherDashboard.js:41-58 | refused with the form message exactly when the question is empty or fewer than 2 options are non-blank; otherwise the question and limit are sent as given, the options sent are exactly `Normalise` of the form's options (at least 2, trimmed and non-empty), and the form is reset to two empty options and 60 |
| TeacherDashboard.GetTotalVotes | frontend/src/components/TeacherDashboard.js:97-99 | 0 without results; otherwise exactly the sum of the counts, so at least every single count, and 0 exactly when every count is 0 |
| TeacherDashboard.GetAnsweredCount | frontend/src/components/TeacherDashboard.js:101-103 | the answered count is never more than the roster size |
| TeacherDashboard.AnsweredCountIsFilterLength | frontend/src/components/TeacherDashboard.js:101-103 | the answered count is the length of `students.filter(s => s.answered)`: the number of positions that filter keeps |
| TeacherDashboard.AnsweredCountRange | frontend/src/components/TeacherDashboard.js:101-103 | the answered count equals the roster size exactly when everyone answered, and is 0 exactly when nobody has |
| StudentDashboard.JsRem | frontend/src/components/StudentDashboard.js:110 | JavaScript's `%`: the remainder has the sign of the dividend, is smaller than the divisor in size, and differs from the dividend by a multiple of the divisor (which fixes it) |
| StudentDashboard.FormatTime | frontend/src/components/StudentDashboard.js:108-112 | for a non-negative count: the whole minutes, a colon and exactly two digits for the seconds |
| StudentDashboard.FormatTimeInjective | frontend/src/components/StudentDashboard.js:108-112 | two different non-negative counts never show the same text |
| StudentDashboard.FormatTimeNegative | frontend/src/components/StudentDashboard.js:108-112 | a count between -59 and -1 shows as `-1:-` followed by its digits (floored minutes, truncated seconds) |
| StudentDashboard.AnswerSubmit | frontend/src/components/StudentDashboard.js:77-82 | without a selection nothing happens; otherwise exactly one answer is sent for the selection, which is cleared, and results show |
| StudentDashboard.AnswerSubmitOnce | frontend/src/components/StudentDashboard.js:77-82 | pressing submit twice sends at most one answer, and the second press leaves the view as the first left it |
| StudentDashboard.SampleAnswerSubmit | frontend/src/components/StudentDashboard.js:84-87 | the answer is revealed exactly when something is selected (or it already was), and nothing else changes |
| StudentDashboard.NextSampleQuestion | frontend/src/components/StudentDashboard.js:89-95 | below the last question: the next index, a cleared selection and the answer hidden; at the last one nothing changes; the index stays in range |
| StudentDashboard.PressesStopAtLast | frontend/src/components/StudentDashboard.js:89-95 | `n` presses move the index `n` forward, stopping at the last question |
| JsText.Trim | frontend/src/components/TeacherDashboard.js:50 | `trim()` is the contiguous piece of the string left after cutting only white space on either side, and it neither starts nor ends with white space |
| JsText.TrimEmpty | frontend/src/components/TeacherDashboard.js:42 | a string trims to nothing exactly when it is all white space |
| JsText.TrimIdempotent | frontend/src/components/TeacherDashboard.js:50 | trimming twice is trimming once |
| JsText.NatToString | frontend/src/components/StudentDashboard.js:111 | decimal digits with no leading zero, a single digit exactly below 10 |
| JsText.IntToString | frontend/src/components/StudentDashboard.js:111 | a negative number is a minus sign followed by the digits of its magnitude |
| JsText.ParseNatToString | frontend/src/components/StudentDashboard.js:111 | reading back the decimal digits of `n` gives `n` |
| JsText.PadStart2 | frontend/src/components/StudentDashboard.js:111 | `padStart(2, '0')` keeps the string as its suffix and puts only zeros before it, for a length of at least 2 |

## Left out

- Transport: socket.io rooms, `emit` delivery, CORS, the Express status route, `server.listen` and `console.log`. Events are returned as values, each with its audience, and are not delivered.
- Timers: the `setTimeout` delays are not timed. The deadline and the 3-second deletion are the explicit steps `TimerFires` and `GraceExpires`. A pending deletion is not tracked, so `GraceExpires(id)` may be issued at any point. The `socket.disconnect()` in the deletion callback is the separate `Disconnect` step it triggers.
- Option text: JavaScript's `null` (the paper result of a student who has not answered) and `undefined` (an answer index outside the option list, in the paper result and the progress report) are both `None`; the model does not tell them apart.
- Clocks: `new Date()` values and `toISOString()` are opaque integer timestamps passed in as `now`.
- `correctAnswerIndex` is never assigned, so its reads in `submit-answer` (backend/server.js:208 and backend/server.js:212) always give `isCorrect` false and `correctCount` 0; the model writes those constants. `submittedStudents` is never used.
- Payload shapes: handlers take their payload fields already destructured and of the expected types. A time limit that is missing or not a number is `None`, and `parseInt` itself is not modelled. Payloads with missing names or ids, or values of other types, are not modelled.
- Numbers: JavaScript numbers are unbounded integers here. `formatTime` is modelled for integer seconds only, and number-to-string for integers without exponent notation.
- Percentages (`calculatePercentage`): floating point.
- Rendering and effects: JSX, `useEffect` intervals and subscriptions, `window.confirm`, tab switching (`setActiveTab`), and the one-line handlers that only call the socket wrapper (`handleRemoveStudent`, `handleEndPoll`, `handleExit`, `handleSubmitPaper`). `services/socket.js`, `MainApp.js`, `ChatPopup.js`, `PollHistory.js`, `App.js` and `store.js` are not part of this model.
- PollSlice.SetPollState: a `canCreatePoll` sent as an explicit `null` is not modelled (the payload field is either absent or a boolean).
- TeacherDashboard.ChangeOption: requires an index of a rendered entry. In JavaScript, assigning beyond the end would lengthen the array with holes, but the component only passes rendered indices.
- StudentDashboard's `getTotalVotes` is `PollTypes.TotalVotes` on a list; the exception it would raise on a `null` list is not modelled.
- No single lemma states that no step of `Step` ever clears the hand-in flag. That property is given one handler at a time by the `SessionProperties.PaperKept…` lemmas. The remaining handlers leave `students` unchanged by their own contracts.
- Concurrency: none exists, since the event loop runs one handler at a time.
