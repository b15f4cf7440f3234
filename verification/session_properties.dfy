/** Properties of the coordinator across handlers and across whole runs, and the
    behaviours that follow from how the handlers interleave: what a rejoin keeps and what it loses. */
module SessionProperties {
  import opened PollTypes
  import opened Roster
  import opened Session

  /** Everything that can happen to the coordinator: a socket event from a caller, or
      one of the two timers firing. */
  datatype Command =
    | JoinAsTeacherCmd(caller: SocketId)
    | JoinAsStudentCmd(caller: SocketId, name: string, id: StudentId)
    | CreatePollCmd(caller: SocketId, question: string, options: seq<string>, timeLimit: Option<int>, now: Timestamp)
    | SubmitAnswerCmd(caller: SocketId, id: StudentId, optionIndex: int, now: Timestamp)
    | SubmitPaperCmd(caller: SocketId, id: StudentId, now: Timestamp)
    | EndPollCmd(caller: SocketId, now: Timestamp)
    | GetPollHistoryCmd(caller: SocketId)
    | RemoveStudentCmd(caller: SocketId, id: StudentId)
    | SendMessageCmd(caller: SocketId, message: string, isPrivate: bool, target: StudentId, now: Timestamp)
    | DisconnectCmd(caller: SocketId)
    | TimerFiresCmd(now: Timestamp)
    | GraceExpiresCmd(id: StudentId)

  /** One command, run to completion. Every handler keeps the state well formed and
      touches the history only by appending at most one entry. */
  function Step(s: State, c: Command): (o: Outcome)
    requires s.Valid()
    ensures o.state.Valid()
    ensures |s.pollHistory| <= |o.state.pollHistory| <= |s.pollHistory| + 1
    ensures o.state.pollHistory[..|s.pollHistory|] == s.pollHistory
  {
    match c
    case JoinAsTeacherCmd(caller) => JoinAsTeacher(s, caller)
    case JoinAsStudentCmd(caller, name, id) => JoinAsStudent(s, caller, name, id)
    case CreatePollCmd(caller, q, opts, t, now) => CreatePoll(s, caller, q, opts, t, now)
    case SubmitAnswerCmd(caller, id, i, now) => SubmitAnswer(s, caller, id, i, now)
    case SubmitPaperCmd(caller, id, now) => SubmitPaper(s, caller, id, now)
    case EndPollCmd(caller, now) => EndPollRequest(s, caller, now)
    case GetPollHistoryCmd(caller) => GetPollHistory(s, caller)
    case RemoveStudentCmd(caller, id) => RemoveStudent(s, caller, id)
    case SendMessageCmd(caller, m, p, t, now) => SendMessage(s, caller, m, p, t, now)
    case DisconnectCmd(caller) => Disconnect(s, caller)
    case TimerFiresCmd(now) => TimerFires(s, now)
    case GraceExpiresCmd(id) => GraceExpires(s, id)
  }

  /** The state after a sequence of commands, one after the other. */
  function Run(s: State, cmds: seq<Command>): (t: State)
    requires s.Valid()
    ensures t.Valid()
    decreases |cmds|
  {
    if cmds == [] then s else Run(Step(s, cmds[0]).state, cmds[1..])
  }

  /** The history is append-only: a run keeps every earlier entry in place and adds
      at most one entry per command. */
  lemma {:induction false} HistoryAppendOnly(s: State, cmds: seq<Command>)
    requires s.Valid()
    ensures |s.pollHistory| <= |Run(s, cmds).pollHistory| <= |s.pollHistory| + |cmds|
    ensures Run(s, cmds).pollHistory[..|s.pollHistory|] == s.pollHistory
    decreases |cmds|
  {
    if cmds != [] {
      var s1 := Step(s, cmds[0]).state;
      HistoryAppendOnly(s1, cmds[1..]);
      var h := Run(s1, cmds[1..]).pollHistory;
      assert h == Run(s, cmds).pollHistory;
      assert h[..|s1.pollHistory|][..|s.pollHistory|] == h[..|s.pollHistory|];
    }
  }

  /** The moderator-only commands, issued from any socket but the teacher's, are
      refused and change nothing. */
  lemma ModeratorOnly(s: State, c: Command)
    requires s.Valid()
    requires c.CreatePollCmd? || c.EndPollCmd? || c.GetPollHistoryCmd? || c.RemoveStudentCmd?
    requires s.teacher != Some(c.caller)
    ensures Step(s, c).state == s && Step(s, c).reply.Rejected?
  {
  }

  /** There is a record under `id` and it is marked as handed in. */
  predicate HandedIn(t: State, id: StudentId)
  {
    Get(t.students, id).Some? && Get(t.students, id).value.submittedPaper
  }

  /** The record under `id`, if there is one, is marked as handed in. */
  predicate PaperKept(t: State, id: StudentId)
  {
    var g := Get(t.students, id); g.None? || g.value.submittedPaper
  }

  // No handler clears `submittedPaper`: while the record under `id` exists, the flag
  // stays set. The handlers that touch the roster are taken one at a time; the others
  // leave `students` as it is by their own contracts.

  lemma PaperKeptJoin(s: State, caller: SocketId, name: string, id': StudentId, id: StudentId)
    requires s.Valid() && HandedIn(s, id)
    ensures PaperKept(JoinAsStudent(s, caller, name, id').state, id)
  {
  }

  lemma PaperKeptCreate(s: State, caller: SocketId, q: string, opts: seq<string>, t: Option<int>,
                        now: Timestamp, id: StudentId)
    requires s.Valid() && HandedIn(s, id)
    ensures PaperKept(CreatePoll(s, caller, q, opts, t, now).state, id)
  {
    var o := CreatePoll(s, caller, q, opts, t, now);
    if o.reply.Emitted? {
      IndexOfSameKeys(s.students, o.state.students, id);
    }
  }

  lemma PaperKeptAnswer(s: State, caller: SocketId, id': StudentId, i: int, now: Timestamp, id: StudentId)
    requires s.Valid() && HandedIn(s, id)
    ensures PaperKept(SubmitAnswer(s, caller, id', i, now).state, id)
  {
  }

  lemma PaperKeptPaper(s: State, caller: SocketId, id': StudentId, now: Timestamp, id: StudentId)
    requires s.Valid() && HandedIn(s, id)
    ensures PaperKept(SubmitPaper(s, caller, id', now).state, id)
  {
  }

  lemma PaperKeptRemove(s: State, caller: SocketId, id': StudentId, id: StudentId)
    requires s.Valid() && HandedIn(s, id)
    ensures PaperKept(RemoveStudent(s, caller, id').state, id)
  {
  }

  lemma PaperKeptDisconnect(s: State, caller: SocketId, id: StudentId)
    requires s.Valid() && HandedIn(s, id)
    ensures PaperKept(Disconnect(s, caller).state, id)
  {
    var k := FirstBySocket(s.students, caller);
    if k >= 0 {
      RemoveAtKeys(s.students, k);
    }
  }

  lemma PaperKeptGrace(s: State, id': StudentId, id: StudentId)
    requires s.Valid() && HandedIn(s, id)
    ensures PaperKept(GraceExpires(s, id').state, id)
  {
  }

  /** The ban on rejoining lasts only while the record exists: once the 3-second
      deletion has run, the same id joins again. */
  lemma PaperBanEndsWithRecord(s: State, caller: SocketId, id: StudentId, now: Timestamp,
                               caller2: SocketId, name: string)
    requires s.Valid()
    requires SubmitPaper(s, caller, id, now).reply.Emitted?
    ensures var s1 := SubmitPaper(s, caller, id, now).state;
      && JoinAsStudent(s1, caller2, name, id).reply == Rejected(CannotRejoin)
      && JoinAsStudent(GraceExpires(s1, id).state, caller2, name, id).reply.Emitted?
  {
  }

  /** A second answer from the same record in the same poll is refused with no change,
      so each record's vote is counted at most once per poll (even if the first answer
      ended the poll). */
  lemma SecondAnswerRejected(s: State, caller: SocketId, id: StudentId, i: int, j: int,
                             t1: Timestamp, t2: Timestamp)
    requires s.Valid() && AnswerAccepted(s, caller, id)
    ensures var s1 := SubmitAnswer(s, caller, id, i, t1).state;
      SubmitAnswer(s1, caller, id, j, t2) == Outcome(s1, Rejected(AlreadyAnswered))
  {
  }

  /** The counts of the first `n` option indices, added up. */
  function CountsUpTo(tally: map<int, nat>, n: nat): nat
  {
    if n == 0 then 0 else CountsUpTo(tally, n - 1) + Count(tally, n - 1)
  }

  /** The reported total is the sum of the counts under the option indices. */
  lemma {:induction false} TotalOfResults(options: seq<string>, tally: map<int, nat>)
    ensures TotalVotes(ResultsOf(options, tally)) == CountsUpTo(tally, |options|)
  {
    if options != [] {
      var n := |options| - 1;
      var r := ResultsOf(options, tally);
      assert r[..n] == ResultsOf(options[..n], tally);
      TotalOfResults(options[..n], tally);
    }
  }

  /** One more vote under `k` adds one to the sum exactly when `k` is among the indices. */
  lemma {:induction false} CountsOneMore(tally: map<int, nat>, tally': map<int, nat>, k: int, n: nat)
    requires Count(tally', k) == Count(tally, k) + 1
    requires forall j :: j != k ==> Count(tally', j) == Count(tally, j)
    ensures CountsUpTo(tally', n) == CountsUpTo(tally, n) + (if 0 <= k < n then 1 else 0)
  {
    if n > 0 {
      CountsOneMore(tally, tally', k, n - 1);
    }
  }

  /** A tally that differs from another only by one more vote under `k` reports one
      more vote in total exactly when `k` names an option. */
  lemma OneMoreVote(options: seq<string>, tally: map<int, nat>, tally': map<int, nat>, k: int)
    requires Count(tally', k) == Count(tally, k) + 1
    requires forall j :: j != k ==> Count(tally', j) == Count(tally, j)
    ensures TotalVotes(ResultsOf(options, tally'))
         == TotalVotes(ResultsOf(options, tally)) + (if 0 <= k < |options| then 1 else 0)
  {
    TotalOfResults(options, tally);
    TotalOfResults(options, tally');
    CountsOneMore(tally, tally', k, |options|);
  }

  /** An accepted answer raises the reported total by one when its index names an
      option, and by nothing otherwise: an out-of-range index is tallied under a key
      that `calculateResults` never reads. */
  lemma VoteTotal(s: State, caller: SocketId, id: StudentId, i: int, now: Timestamp)
    requires s.Valid() && AnswerAccepted(s, caller, id)
    ensures TotalVotes(CalculateResults(SubmitAnswer(s, caller, id, i, now).state))
         == TotalVotes(CalculateResults(s)) + (if 0 <= i < |s.currentPoll.value.options| then 1 else 0)
  {
    var o := SubmitAnswer(s, caller, id, i, now);
    assert o.state.currentPoll == s.currentPoll;
    OneMoreVote(s.currentPoll.value.options, s.pollResults, o.state.pollResults, i);
  }

  /** The answer that leaves no record unanswered ends the poll at once: the timer is
      disarmed and the one history entry appended is the current poll, closed at `now`,
      with the counts that include this last vote. */
  lemma LastAnswerEndsPoll(s: State, caller: SocketId, id: StudentId, i: int, now: Timestamp)
    requires s.Valid() && AnswerAccepted(s, caller, id)
    requires forall j :: 0 <= j < |s.students| && s.students[j].studentId != id ==> s.students[j].answered
    ensures var o := SubmitAnswer(s, caller, id, i, now);
      |o.state.pollHistory| == |s.pollHistory| + 1 && !o.state.timerArmed
    ensures var o := SubmitAnswer(s, caller, id, i, now);
      var voted := s.(students := o.state.students, pollResults := o.state.pollResults);
      o.state.pollHistory == s.pollHistory + [Concluded(voted, now)]
    ensures var o := SubmitAnswer(s, caller, id, i, now);
      var entry := o.state.pollHistory[|s.pollHistory|];
      && entry.question == s.currentPoll.value.question
      && entry.options == s.currentPoll.value.options
      && entry.endedAt == now
      && |entry.results| == |s.currentPoll.value.options|
      && forall j :: 0 <= j < |entry.results| ==>
           entry.results[j].count == Count(s.pollResults, j) + (if j == i then 1 else 0)
  {
    var o := SubmitAnswer(s, caller, id, i, now);
    var k := IndexOf(s.students, id);
    forall j | 0 <= j < |o.state.students| ensures o.state.students[j].answered {
      if j != k {
        assert s.students[j].studentId != s.students[k].studentId;
      }
    }
  }

  /** `endPoll` leaves the poll set: answers are still accepted after it, exactly as
      before it. */
  lemma AnswersAcceptedAfterEnd(s: State, now: Timestamp, caller: SocketId, id: StudentId)
    requires s.Valid()
    ensures AnswerAccepted(EndPoll(s, now).state, caller, id) == AnswerAccepted(s, caller, id)
  {
  }

  /** Ending a poll twice appends two history entries. */
  lemma SecondEndAppendsAgain(s: State, caller: SocketId, t1: Timestamp, t2: Timestamp)
    requires s.Valid() && s.teacher == Some(caller) && s.currentPoll.Some?
    ensures var s1 := EndPollRequest(s, caller, t1).state;
      |EndPollRequest(s1, caller, t2).state.pollHistory| == |s.pollHistory| + 2
  {
  }

  /** A deadline close with an unanswered record tells the teacher that a poll may be
      created, while `canCreateNewPoll` stays false, so the next `create-poll` is refused. */
  lemma DeadlineCloseKeepsLock(s: State, now: Timestamp)
    requires s.Valid() && s.timerArmed && !AllAnswered(s.students) && s.teacher.Some?
    ensures var o := TimerFires(s, now);
      && !CanCreateNewPoll(o.state)
      && o.reply.events[1].payload.TeacherSnapshot?
      && o.reply.events[1].payload.canCreatePoll
      && CreatePoll(o.state, s.teacher.value, "", [], None, now).reply == Rejected(StillAnswering)
  {
  }

  /** Disconnecting deletes the record, so a student who answered, dropped the
      connection and joined again under the same id is asked the question again and is
      counted twice for the same poll. */
  lemma DoubleVoteAfterRejoin(s: State, caller: SocketId, caller2: SocketId, name: string,
                              id: StudentId, i: int, t1: Timestamp, t2: Timestamp)
    requires s.Valid() && AnswerAccepted(s, caller, id)
    requires forall j :: 0 <= j < |s.students| && s.students[j].socketId == caller ==> s.students[j].studentId == id
    ensures var s1 := SubmitAnswer(s, caller, id, i, t1).state;
      var s2 := Disconnect(s1, caller).state;
      var s3 := JoinAsStudent(s2, caller2, name, id).state;
      && AnswerAccepted(s3, caller2, id)
      && Count(SubmitAnswer(s3, caller2, id, i, t2).state.pollResults, i) == Count(s.pollResults, i) + 2
  {
    var s1 := SubmitAnswer(s, caller, id, i, t1).state;
    var k := IndexOf(s.students, id);
    assert s1.students[k].socketId == caller;
    assert FirstBySocket(s1.students, caller) == k by {
      var f := FirstBySocket(s1.students, caller);
      assert s1.students[f].studentId == id;
      assert s1.students[f] == s.students[f] || f == k;
    }
    RemoveAtKeys(s1.students, k);
  }

  /** The other order of the same events: when the new connection's `join-as-student`
      is handled before the old socket's `disconnect`, the join rebinds the record to
      the new socket, the disconnect then finds no record on the old one, and the
      answer survives: a second vote is refused. */
  lemma RejoinBeforeDisconnectKeepsAnswer(s: State, caller: SocketId, caller2: SocketId, name: string,
                                          id: StudentId, i: int, i2: int, t1: Timestamp, t2: Timestamp)
    requires s.Valid() && AnswerAccepted(s, caller, id) && caller2 != caller
    requires !Get(s.students, id).value.submittedPaper
    requires forall j :: 0 <= j < |s.students| && s.students[j].socketId == caller ==> s.students[j].studentId == id
    ensures var s1 := SubmitAnswer(s, caller, id, i, t1).state;
      var s2 := JoinAsStudent(s1, caller2, name, id).state;
      var s3 := Disconnect(s2, caller).state;
      && s3.students == s2.students
      && Get(s3.students, id).Some? && Get(s3.students, id).value.answered
      && Get(s3.students, id).value.socketId == caller2
      && SubmitAnswer(s3, caller2, id, i2, t2).reply == Rejected(AlreadyAnswered)
  {
    var s1 := SubmitAnswer(s, caller, id, i, t1).state;
    var rec := Get(s.students, id).value.(answered := true, answerIndex := Some(i));
    assert s1.students == s.students[IndexOf(s.students, id) := rec];
    JoinMovesRecord(s1, caller, caller2, name, id);
  }

  /** A join on a new socket that is not refused takes the only record bound to the old
      socket away from it. */
  lemma JoinMovesRecord(s: State, caller: SocketId, caller2: SocketId, name: string, id: StudentId)
    requires s.Valid() && caller2 != caller
    requires Get(s.students, id).Some? ==> !Get(s.students, id).value.submittedPaper
    requires forall x :: x in s.students && x.socketId == caller ==> x.studentId == id
    ensures var s' := JoinAsStudent(s, caller2, name, id).state;
      forall j :: 0 <= j < |s'.students| ==> s'.students[j].socketId != caller
  {
    var s' := JoinAsStudent(s, caller2, name, id).state;
    forall j | 0 <= j < |s'.students| ensures s'.students[j].socketId != caller {
      IndexOfDistinct(s'.students, j);
      var x := s'.students[j].studentId;
      if x != id {
        assert Get(s.students, x) == Get(s'.students, x);
      }
    }
  }
}
