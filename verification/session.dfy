/** The session coordinator of the polling server as a state machine over values:
    `State` holds the server's module-level variables, and each socket handler is
    a function from the state before it runs to the state after it and what it
    emitted. The handlers run to completion one at a time on the event loop, so
    each is one atomic step. The class `Server.Coordinator` holds the same
    variables as fields and is proved to follow these functions. */
module Session {
  import opened PollTypes
  import opened Roster
  import opened Selection

  // ----- what the server emits -----

  /** Who an event goes to: the calling socket, the 'teacher' room, the
      'students' room, every socket, or one named socket. */
  datatype Audience = Caller | TeacherRoom | StudentsRoom | Everyone | ToSocket(socket: SocketId)

  /** One line of the progress report sent to the teacher after an answer. */
  datatype AnswerDetail = AnswerDetail(
    name: string,
    studentId: StudentId,
    hasAnswered: bool,
    answerIndex: Option<int>,
    option: Option<string>,
    isCorrect: bool)

  /** The record sent to the teacher when a student hands in the paper. */
  datatype PaperResult = PaperResult(
    name: string,
    studentId: StudentId,
    hasAnswered: bool,
    answerIndex: Option<int>,
    option: Option<string>,
    submittedAt: Timestamp)

  datatype SenderType = TeacherSender | StudentSender | UnknownSender

  datatype ChatMessage = ChatMessage(
    message: string,
    senderName: string,
    senderType: SenderType,
    timestamp: Timestamp,
    isPrivate: bool)

  datatype Payload =
    | TeacherSnapshot(currentPoll: Option<Poll>, students: seq<StudentSummary>, results: seq<OptionCount>, canCreatePoll: bool)
    | StudentSnapshot(currentPoll: Option<Poll>, visibleResults: Option<seq<OptionCount>>, hasAnswered: bool, submittedPaper: bool)
    | StudentJoined(name: string, totalStudents: nat)
    | NewPoll(poll: Poll)
    | PollCreated(createdPoll: Poll, canCreatePoll: bool)
    | AnswerSubmitted(results: seq<OptionCount>)
    | PollProgress(answeredStudents: seq<AnswerDetail>, totalStudents: nat, results: seq<OptionCount>, correctCount: nat, canCreatePoll: bool)
    | PaperSubmitted(message: string)
    | StudentSubmittedPaper(paper: PaperResult)
    | PollEnded(results: seq<OptionCount>, question: string)
    | PollHistory(history: seq<HistoryEntry>)
    | Removed(message: string)
    | StudentLeft(name: string, totalStudents: nat)
    | NewMessage(chat: ChatMessage)

  datatype Event = Event(to: Audience, payload: Payload)

  /** A handler either answers the caller with an 'error' event and stops, or emits events. */
  datatype Reply = Rejected(reason: string) | Emitted(events: seq<Event>)

  const CannotRejoin := "A student with this name and ID has already submitted their paper. You cannot rejoin."
  const NotTeacherCreate := "Only teacher can create polls"
  const StillAnswering := "Cannot create poll while students are still answering"
  const InvalidStudent := "Invalid student"
  const NoActivePoll := "No active poll"
  const AlreadyAnswered := "Already answered"
  const PaperAlreadySubmitted := "Paper already submitted"
  const PaperSubmittedNotice := "Your paper has been submitted successfully. You will be disconnected in 3 seconds..."
  const NotTeacherEnd := "Only teacher can end polls"
  const NotTeacherHistory := "Only teacher can view history"
  const NotTeacherRemove := "Only teacher can remove students"
  const RemovedNotice := "You have been removed by the teacher"
  const DefaultTimeLimit := 60

  // ----- the server's state -----

  /** `currentPoll`, `students`, `pollResults`, `pollHistory`, `pollTimer` (armed or not) and `teacher`. */
  datatype State = State(
    currentPoll: Option<Poll>,
    students: seq<Student>,
    pollResults: map<int, nat>,
    pollHistory: seq<HistoryEntry>,
    timerArmed: bool,
    teacher: Option<SocketId>)
  {
    /** The roster is a map, and a timer is only ever armed for a poll. */
    predicate Valid()
    {
      KeysDistinct(students) && (timerArmed ==> currentPoll.Some?)
    }
  }

  /** The state at process start. */
  const Initial := State(None, [], map[], [], false, None)

  datatype Outcome = Outcome(state: State, reply: Reply)

  // ----- pure reads -----

  /** `pollResults.get(i) || 0` */
  function Count(tally: map<int, nat>, i: int): nat
  {
    if i in tally then tally[i] else 0
  }

  /** The `forEach`/`push` of `calculateResults`: one `{option, count}` per option, in order,
      a missing count reported as 0; tally keys outside the option range are not reported. */
  function ResultsOf(options: seq<string>, tally: map<int, nat>): (r: seq<OptionCount>)
    ensures |r| == |options|
    ensures forall i :: 0 <= i < |r| ==> r[i] == OptionCount(options[i], Count(tally, i))
  {
    if options == [] then []
    else ResultsOf(options[..|options| - 1], tally) + [OptionCount(options[|options| - 1], Count(tally, |options| - 1))]
  }

  /** `calculateResults()`: empty without a poll; otherwise one count per option of the
      current poll, in order. */
  function CalculateResults(s: State): (r: seq<OptionCount>)
    ensures s.currentPoll.None? ==> r == []
    ensures s.currentPoll.Some? ==> |r| == |s.currentPoll.value.options|
    ensures s.currentPoll.Some? ==>
      forall i :: 0 <= i < |r| ==> r[i] == OptionCount(s.currentPoll.value.options[i], Count(s.pollResults, i))
  {
    match s.currentPoll
    case None => []
    case Some(p) => ResultsOf(p.options, s.pollResults)
  }

  /** `canCreateNewPoll()`: the number of answered records equals the roster size. */
  function CanCreateNewPoll(s: State): (b: bool)
    ensures b <==> s.currentPoll.None? || AllAnswered(s.students)
  {
    AnsweredCountFull(s.students);
    s.currentPoll.None? || AnsweredCount(s.students) == |s.students|
  }

  /** The teacher's roster view: name and answered flag per record. */
  function Summaries(r: seq<Student>): (v: seq<StudentSummary>)
    ensures |v| == |r|
    ensures forall i :: 0 <= i < |r| ==> v[i].name == r[i].name && v[i].studentId.None? && v[i].answered == r[i].answered
  {
    seq(|r|, i requires 0 <= i < |r| => StudentSummary(r[i].name, None, r[i].answered))
  }

  /** A record the teacher's roster still shows after `id` handed in. */
  predicate Listed(st: Student, id: StudentId)
  {
    !st.submittedPaper && st.studentId != id
  }

  /** `{ name, studentId, answered }` */
  function Line(st: Student): StudentSummary
  {
    StudentSummary(st.name, Some(st.studentId), st.answered)
  }

  /** The records that have not handed in and are not `id`, with their ids. */
  function Remaining(r: seq<Student>, id: StudentId): (v: seq<StudentSummary>)
    ensures |v| <= |r|
    ensures forall i :: 0 <= i < |v| ==> v[i].studentId.Some? && v[i].studentId.value != id
  {
    if r == [] then []
    else
      var last := r[|r| - 1];
      Remaining(r[..|r| - 1], id) + (if Listed(last, id) then [Line(last)] else [])
  }

  /** Which records the roster after `id`'s hand-in keeps. */
  function ListedFlags(r: seq<Student>, id: StudentId): (keep: seq<bool>)
    ensures |keep| == |r|
    ensures forall j :: 0 <= j < |r| ==> (keep[j] <==> Listed(r[j], id))
  {
    seq(|r|, j requires 0 <= j < |r| => Listed(r[j], id))
  }

  /** The roster sent after a hand-in lists exactly the records that have not handed in
      and are not the one that just did, in roster order, each with its name, id and
      answered flag. */
  lemma {:induction false} RemainingInOrder(r: seq<Student>, id: StudentId)
    ensures |Remaining(r, id)| == |Positions(ListedFlags(r, id))|
    ensures forall i :: 0 <= i < |Remaining(r, id)| ==> Remaining(r, id)[i] == Line(r[Positions(ListedFlags(r, id))[i]])
  {
    if r != [] {
      var n := |r| - 1;
      RemainingInOrder(r[..n], id);
      assert ListedFlags(r, id)[..n] == ListedFlags(r[..n], id);
      var v, p := Remaining(r, id), Positions(ListedFlags(r, id));
      var v0, p0 := Remaining(r[..n], id), Positions(ListedFlags(r[..n], id));
      forall i | 0 <= i < |v| ensures v[i] == Line(r[p[i]]) {
        if i < |v0| {
          assert v[i] == v0[i] && p[i] == p0[i];
          assert r[..n][p0[i]] == r[p0[i]];
        }
      }
    }
  }

  /** `options[index]`, which is `undefined` for a null or out-of-range index. */
  function OptionAt(options: seq<string>, index: Option<int>): (o: Option<string>)
    ensures o.Some? <==> index.Some? && 0 <= index.value < |options|
    ensures o.Some? ==> o.value == options[index.value]
  {
    if index.Some? && 0 <= index.value < |options| then Some(options[index.value]) else None
  }

  /** The per-student progress report; `correctAnswerIndex` is never set, so `isCorrect` is false. */
  function Details(r: seq<Student>, options: seq<string>): (d: seq<AnswerDetail>)
    ensures |d| == |r|
    ensures forall i :: 0 <= i < |r| ==>
      && d[i].name == r[i].name && d[i].studentId == r[i].studentId
      && d[i].hasAnswered == r[i].answered && d[i].answerIndex == r[i].answerIndex
      && d[i].option == (if r[i].answered then OptionAt(options, r[i].answerIndex) else Some(""))
      && !d[i].isCorrect
  {
    seq(|r|, i requires 0 <= i < |r| =>
      AnswerDetail(r[i].name, r[i].studentId, r[i].answered, r[i].answerIndex,
                   if r[i].answered then OptionAt(options, r[i].answerIndex) else Some(""), false))
  }

  /** Every record with `answered` cleared and nothing else touched. */
  function ClearAnswered(r: seq<Student>): (r': seq<Student>)
    ensures |r'| == |r|
    ensures forall i :: 0 <= i < |r| ==> r'[i] == r[i].(answered := false)
  {
    seq(|r|, i requires 0 <= i < |r| => r[i].(answered := false))
  }

  /** `pollData.timeLimit || 60`, with `None` for a missing or NaN limit. */
  function EffectiveTimeLimit(timeLimit: Option<int>): (t: int)
    ensures t != 0
    ensures timeLimit.Some? && timeLimit.value != 0 ==> t == timeLimit.value
    ensures timeLimit.None? || timeLimit.value == 0 ==> t == DefaultTimeLimit
  {
    if timeLimit.None? || timeLimit.value == 0 then DefaultTimeLimit else timeLimit.value
  }

  /** A tally with a zero for each option index and no other key. */
  function ZeroTally(n: nat): (t: map<int, nat>)
    ensures forall i :: i in t <==> 0 <= i < n
    ensures forall i :: i in t ==> t[i] == 0
  {
    if n == 0 then map[] else ZeroTally(n - 1)[n - 1 := 0]
  }

  /** `resetPoll()`: no poll, an empty tally, every `answered` cleared, no timer; the
      history and the teacher are kept. */
  function ResetPoll(s: State): (r: State)
    ensures r.currentPoll.None? && r.pollResults == map[] && !r.timerArmed
    ensures r.pollHistory == s.pollHistory && r.teacher == s.teacher
    ensures |r.students| == |s.students|
    ensures forall i :: 0 <= i < |s.students| ==> r.students[i] == s.students[i].(answered := false)
    ensures s.Valid() ==> r.Valid()
  {
    s.(currentPoll := None, pollResults := map[], students := ClearAnswered(s.students), timerArmed := false)
  }

  /** The history entry `endPoll` appends for the current poll. */
  function Concluded(s: State, now: Timestamp): (e: HistoryEntry)
    requires s.currentPoll.Some?
    ensures e.question == s.currentPoll.value.question && e.options == s.currentPoll.value.options
    ensures |e.results| == |e.options|
    ensures forall i :: 0 <= i < |e.results| ==> e.results[i] == OptionCount(e.options[i], Count(s.pollResults, i))
    ensures e.createdAt == s.currentPoll.value.createdAt && e.endedAt == now
  {
    var p := s.currentPoll.value;
    HistoryEntry(p.question, p.options, CalculateResults(s), p.createdAt, now)
  }

  function TeacherNotice(s: State, payload: Payload): seq<Event>
  {
    if s.teacher.Some? then [Event(TeacherRoom, payload)] else []
  }

  // ----- the handlers -----

  /** `join-as-teacher`: the caller takes the teacher slot and gets the teacher's snapshot. */
  function JoinAsTeacher(s: State, caller: SocketId): (o: Outcome)
    requires s.Valid()
    ensures o.state.Valid()
    ensures o.state.teacher == Some(caller)
    ensures o.state.(teacher := s.teacher) == s
    ensures o.reply.Emitted? && |o.reply.events| == 1 && o.reply.events[0].to == Caller
    ensures o.reply.events[0].payload.TeacherSnapshot?
    ensures o.reply.events[0].payload.canCreatePoll <==> s.currentPoll.None? || AllAnswered(s.students)
    ensures o.reply.events[0].payload ==
      TeacherSnapshot(s.currentPoll, Summaries(s.students), CalculateResults(s), o.reply.events[0].payload.canCreatePoll)
  {
    Outcome(s.(teacher := Some(caller)),
      Emitted([Event(Caller, TeacherSnapshot(s.currentPoll, Summaries(s.students), CalculateResults(s), CanCreateNewPoll(s)))]))
  }

  /** `answerIndex || null`: a recorded index of 0 is lost. */
  function CarriedIndex(index: Option<int>): (c: Option<int>)
    ensures c != Some(0)
    ensures index != Some(0) ==> c == index
    ensures index == Some(0) ==> c.None?
  {
    if index == Some(0) then None else index
  }

  /** `join-as-student`: refused while the stored record has handed in; otherwise the
      record is upserted on the new socket, keeping `answered` only while a poll is set. */
  function JoinAsStudent(s: State, caller: SocketId, name: string, id: StudentId): (o: Outcome)
    requires s.Valid()
    ensures o.state.Valid()
    ensures o.reply.Rejected? <==> Get(s.students, id).Some? && Get(s.students, id).value.submittedPaper
    ensures o.reply.Rejected? ==> o == Outcome(s, Rejected(CannotRejoin))
    ensures o.reply.Emitted? ==>
      && o.state == s.(students := o.state.students)
      && (forall other :: other != id ==> Get(o.state.students, other) == Get(s.students, other))
      && Get(o.state.students, id).Some?
    ensures o.reply.Emitted? ==>
      var old_ := Get(s.students, id);
      var rec := Get(o.state.students, id).value;
      && rec.name == name && rec.socketId == caller && !rec.submittedPaper
      && (rec.answered <==> s.currentPoll.Some? && old_.Some? && old_.value.answered)
      && rec.answerIndex == (if old_.Some? then CarriedIndex(old_.value.answerIndex) else None)
    ensures o.reply.Emitted? ==>
      var rec := Get(o.state.students, id).value;
      && 1 <= |o.reply.events|
      && o.reply.events[0].to == Caller
      && o.reply.events[0].payload.StudentSnapshot?
      && var snap := o.reply.events[0].payload;
      && (snap.currentPoll.Some? <==> s.currentPoll.Some? && !rec.answered)
      && (snap.currentPoll.Some? ==> snap.currentPoll == s.currentPoll)
      && (snap.visibleResults.Some? <==> rec.answered)
      && (snap.visibleResults.Some? ==> snap.visibleResults.value == CalculateResults(o.state))
      && snap.hasAnswered == rec.answered
      && !snap.submittedPaper
    ensures o.reply.Emitted? ==>
      && o.state.students == Put(s.students, Get(o.state.students, id).value)
      && |o.state.students| == |s.students| + (if HasKey(s.students, id) then 0 else 1)
      && o.reply.events[1..] == TeacherNotice(s, StudentJoined(name, |o.state.students|))
  {
    var existing := Get(s.students, id);
    if existing.Some? && existing.value.submittedPaper then
      Outcome(s, Rejected(CannotRejoin))
    else
      var rec := Student(
        name, id, caller,
        s.currentPoll.Some? && existing.Some? && existing.value.answered,
        existing.Some? && existing.value.submittedPaper,
        if existing.Some? then CarriedIndex(existing.value.answerIndex) else None);
      var s' := s.(students := Put(s.students, rec));
      var snapshot := StudentSnapshot(
        if s.currentPoll.Some? && !rec.answered && !rec.submittedPaper then s.currentPoll else None,
        if rec.answered then Some(CalculateResults(s')) else None,
        rec.answered,
        rec.submittedPaper);
      Outcome(s', Emitted([Event(Caller, snapshot)] + TeacherNotice(s, StudentJoined(name, |s'.students|))))
  }

  /** `create-poll`: teacher only, and only while `canCreateNewPoll()`; then `resetPoll()`,
      the new poll, a zero count per option, and the deadline timer armed. */
  function CreatePoll(s: State, caller: SocketId, question: string, options: seq<string>,
                      timeLimit: Option<int>, now: Timestamp): (o: Outcome)
    requires s.Valid()
    ensures o.state.Valid()
    ensures o.reply.Emitted? <==> s.teacher == Some(caller) && CanCreateNewPoll(s)
    ensures s.teacher != Some(caller) ==> o == Outcome(s, Rejected(NotTeacherCreate))
    ensures s.teacher == Some(caller) && !CanCreateNewPoll(s) ==> o == Outcome(s, Rejected(StillAnswering))
    ensures o.reply.Emitted? ==>
      && o.state.currentPoll == Some(Poll(question, options, EffectiveTimeLimit(timeLimit), now))
      && |o.state.students| == |s.students|
      && (forall i :: 0 <= i < |s.students| ==> !o.state.students[i].answered)
      && (forall i :: 0 <= i < |s.students| ==> o.state.students[i].(answered := s.students[i].answered) == s.students[i])
      && (forall k :: k in o.state.pollResults <==> 0 <= k < |options|)
      && (forall k :: k in o.state.pollResults ==> o.state.pollResults[k] == 0)
      && o.state.timerArmed
      && o.state.pollHistory == s.pollHistory
      && o.state.teacher == s.teacher
    ensures o.reply.Emitted? ==>
      o.reply.events == [Event(StudentsRoom, NewPoll(o.state.currentPoll.value)),
                         Event(Caller, PollCreated(o.state.currentPoll.value, false))]
  {
    if s.teacher != Some(caller) then Outcome(s, Rejected(NotTeacherCreate))
    else if !CanCreateNewPoll(s) then Outcome(s, Rejected(StillAnswering))
    else
      var poll := Poll(question, options, EffectiveTimeLimit(timeLimit), now);
      var s' := ResetPoll(s).(currentPoll := Some(poll), pollResults := ZeroTally(|options|), timerArmed := true);
      Outcome(s', Emitted([Event(StudentsRoom, NewPoll(poll)), Event(Caller, PollCreated(poll, false))]))
  }

  /** `endPoll()`: nothing without a poll; otherwise one history entry for the current
      poll, the final counts to everyone, and the timer disarmed. The poll itself stays set. */
  function EndPoll(s: State, now: Timestamp): (o: Outcome)
    requires s.Valid()
    ensures o.state.Valid()
    ensures o.reply.Emitted?
    ensures s.currentPoll.None? ==> o == Outcome(s, Emitted([]))
    ensures s.currentPoll.Some? ==>
      && o.state == s.(pollHistory := s.pollHistory + [Concluded(s, now)], timerArmed := false)
      && 1 <= |o.reply.events|
      && o.reply.events[0] == Event(Everyone, PollEnded(Concluded(s, now).results, s.currentPoll.value.question))
    ensures s.currentPoll.Some? && s.teacher.Some? ==>
      && |o.reply.events| == 2
      && o.reply.events[1] == Event(TeacherRoom, TeacherSnapshot(None, Summaries(s.students), Concluded(s, now).results, true))
    ensures s.currentPoll.Some? ==>
      o.reply.events ==
        [Event(Everyone, PollEnded(Concluded(s, now).results, s.currentPoll.value.question))]
        + TeacherNotice(s, TeacherSnapshot(None, Summaries(s.students), Concluded(s, now).results, true))
  {
    match s.currentPoll
    case None => Outcome(s, Emitted([]))
    case Some(p) =>
      var results := CalculateResults(s);
      var s' := s.(pollHistory := s.pollHistory + [Concluded(s, now)], timerArmed := false);
      Outcome(s', Emitted([Event(Everyone, PollEnded(results, p.question))]
        + TeacherNotice(s, TeacherSnapshot(None, Summaries(s.students), results, true))))
  }

  /** The conditions `submit-answer` checks, in order, before recording a vote. */
  predicate AnswerAccepted(s: State, caller: SocketId, id: StudentId)
  {
    var st := Get(s.students, id);
    st.Some? && st.value.socketId == caller && s.currentPoll.Some? && !st.value.answered
  }

  /** `submit-answer`: the vote is recorded once per record and poll, the count under the
      given index goes up by one, and the poll ends when every record has answered. */
  function SubmitAnswer(s: State, caller: SocketId, id: StudentId, optionIndex: int, now: Timestamp): (o: Outcome)
    requires s.Valid()
    ensures o.state.Valid()
    ensures o.reply.Emitted? <==> AnswerAccepted(s, caller, id)
    ensures (Get(s.students, id).None? || Get(s.students, id).value.socketId != caller) ==>
      o == Outcome(s, Rejected(InvalidStudent))
    ensures Get(s.students, id).Some? && Get(s.students, id).value.socketId == caller && s.currentPoll.None? ==>
      o == Outcome(s, Rejected(NoActivePoll))
    ensures (Get(s.students, id).Some? && Get(s.students, id).value.socketId == caller && s.currentPoll.Some?
             && Get(s.students, id).value.answered) ==> o == Outcome(s, Rejected(AlreadyAnswered))
    ensures o.reply.Emitted? ==>
      && Get(o.state.students, id) == Some(Get(s.students, id).value.(answered := true, answerIndex := Some(optionIndex)))
      && (forall other :: other != id ==> Get(o.state.students, other) == Get(s.students, other))
      && o.state.students == s.students[IndexOf(s.students, id) := Get(s.students, id).value.(answered := true, answerIndex := Some(optionIndex))]
      && Count(o.state.pollResults, optionIndex) == Count(s.pollResults, optionIndex) + 1
      && (forall k :: k != optionIndex ==> Count(o.state.pollResults, k) == Count(s.pollResults, k))
      && o.state.pollResults.Keys == s.pollResults.Keys + {optionIndex}
      && o.state.currentPoll == s.currentPoll
      && o.state.teacher == s.teacher
    ensures o.reply.Emitted? && AllAnswered(o.state.students) ==>
      |o.state.pollHistory| == |s.pollHistory| + 1 && o.state.pollHistory[..|s.pollHistory|] == s.pollHistory
      && !o.state.timerArmed
    ensures o.reply.Emitted? && !AllAnswered(o.state.students) ==>
      o.state.pollHistory == s.pollHistory && o.state.timerArmed == s.timerArmed
    ensures var voted := s.(students := o.state.students, pollResults := o.state.pollResults);
      o.reply.Emitted? && AllAnswered(o.state.students) ==>
        o.state.pollHistory == s.pollHistory + [Concluded(voted, now)]
    ensures o.reply.Emitted? ==> o == AcceptAnswer(s, id, optionIndex, now)
  {
    var k := IndexOf(s.students, id);
    if k < 0 || s.students[k].socketId != caller then Outcome(s, Rejected(InvalidStudent))
    else if s.currentPoll.None? then Outcome(s, Rejected(NoActivePoll))
    else if s.students[k].answered then Outcome(s, Rejected(AlreadyAnswered))
    else AcceptAnswer(s, id, optionIndex, now)
  }

  /** The accepted half of `submit-answer`: the record takes the vote, the count under
      the index goes up by one, the caller gets the results and the teacher the
      progress, and the poll ends when every record has now answered. */
  function AcceptAnswer(s: State, id: StudentId, optionIndex: int, now: Timestamp): (o: Outcome)
    requires s.Valid() && HasKey(s.students, id) && s.currentPoll.Some?
    ensures o.state.Valid()
    ensures o.reply.Emitted?
    ensures
      var rec := Get(s.students, id).value.(answered := true, answerIndex := Some(optionIndex));
      && Get(o.state.students, id) == Some(rec)
      && (forall other :: other != id ==> Get(o.state.students, other) == Get(s.students, other))
      && o.state.students == s.students[IndexOf(s.students, id) := rec]
      && Count(o.state.pollResults, optionIndex) == Count(s.pollResults, optionIndex) + 1
      && (forall k :: k != optionIndex ==> Count(o.state.pollResults, k) == Count(s.pollResults, k))
      && o.state.pollResults.Keys == s.pollResults.Keys + {optionIndex}
      && o.state.currentPoll == s.currentPoll
      && o.state.teacher == s.teacher
    ensures AllAnswered(o.state.students) ==>
      |o.state.pollHistory| == |s.pollHistory| + 1 && o.state.pollHistory[..|s.pollHistory|] == s.pollHistory
      && !o.state.timerArmed
    ensures !AllAnswered(o.state.students) ==>
      o.state.pollHistory == s.pollHistory && o.state.timerArmed == s.timerArmed
    ensures var voted := s.(students := o.state.students, pollResults := o.state.pollResults);
      AllAnswered(o.state.students) ==> o.state.pollHistory == s.pollHistory + [Concluded(voted, now)]
    ensures var voted := s.(students := o.state.students, pollResults := o.state.pollResults);
      var results := CalculateResults(voted);
      var allAnswered := AllAnswered(voted.students);
      o.reply.events ==
        [Event(Caller, AnswerSubmitted(results))]
        + TeacherNotice(s, PollProgress(Details(voted.students, s.currentPoll.value.options),
                                        |voted.students|, results, 0, allAnswered))
        + (if allAnswered then EndPoll(voted, now).reply.events else [])
  {
    var k := IndexOf(s.students, id);
    var rec := s.students[k].(answered := true, answerIndex := Some(optionIndex));
    IndexOfDistinct(s.students, k);
    var s1 := s.(students := Put(s.students, rec),
                 pollResults := s.pollResults[optionIndex := Count(s.pollResults, optionIndex) + 1]);
    ReportVote(s1, now)
  }

  /** An accepted answer is the vote written into the record at `k` and the count
      under the index, followed by `ReportVote`. */
  lemma AcceptAnswerSteps(s: State, k: nat, id: StudentId, optionIndex: int, now: Timestamp)
    requires s.Valid() && k < |s.students| && s.students[k].studentId == id && s.currentPoll.Some?
    ensures HasKey(s.students, id)
    ensures var rec := s.students[k].(answered := true, answerIndex := Some(optionIndex));
      AcceptAnswer(s, id, optionIndex, now) ==
        ReportVote(s.(students := Put(s.students, rec),
                      pollResults := s.pollResults[optionIndex := Count(s.pollResults, optionIndex) + 1]), now)
  {
    IndexOfDistinct(s.students, k);
  }

  /** What follows a recorded vote: the caller gets the results, the teacher the
      progress, and the poll ends when every record has answered. */
  function ReportVote(s1: State, now: Timestamp): (o: Outcome)
    requires s1.Valid() && s1.currentPoll.Some?
    ensures o.state.Valid()
    ensures o.reply.Emitted?
  {
    var results := CalculateResults(s1);
    var details := Details(s1.students, s1.currentPoll.value.options);
    var allAnswered := AllAnswered(s1.students);
    var events := [Event(Caller, AnswerSubmitted(results))]
      + TeacherNotice(s1, PollProgress(details, |s1.students|, results, 0, allAnswered));
    if allAnswered then
      var ended := EndPoll(s1, now);
      Outcome(ended.state, Emitted(events + ended.reply.events))
    else
      Outcome(s1, Emitted(events))
  }

  /** `submit-paper`: refused for an unknown or mismatched record and for a second hand-in;
      otherwise the record is marked as handed in and the teacher gets its result. */
  function SubmitPaper(s: State, caller: SocketId, id: StudentId, now: Timestamp): (o: Outcome)
    requires s.Valid()
    ensures o.state.Valid()
    ensures (Get(s.students, id).None? || Get(s.students, id).value.socketId != caller) ==>
      o == Outcome(s, Rejected(InvalidStudent))
    ensures (Get(s.students, id).Some? && Get(s.students, id).value.socketId == caller
             && Get(s.students, id).value.submittedPaper) ==> o == Outcome(s, Rejected(PaperAlreadySubmitted))
    ensures o.reply.Emitted? <==>
      Get(s.students, id).Some? && Get(s.students, id).value.socketId == caller && !Get(s.students, id).value.submittedPaper
    ensures o.reply.Emitted? ==>
      && Get(o.state.students, id) == Some(Get(s.students, id).value.(submittedPaper := true))
      && (forall other :: other != id ==> Get(o.state.students, other) == Get(s.students, other))
      && o.state == s.(students := o.state.students)
      && 1 <= |o.reply.events| && o.reply.events[0] == Event(Caller, PaperSubmitted(PaperSubmittedNotice))
    ensures o.reply.Emitted? ==>
      var st := Get(s.students, id).value;
      && o.state.students == s.students[IndexOf(s.students, id) := st.(submittedPaper := true)]
      && o.reply.events[1..] ==
        if s.teacher.None? then []
        else
          [Event(TeacherRoom, StudentSubmittedPaper(PaperResult(st.name, id, st.answered, st.answerIndex,
             if st.answered && s.currentPoll.Some? then OptionAt(s.currentPoll.value.options, st.answerIndex) else None,
             now))),
           Event(TeacherRoom, TeacherSnapshot(s.currentPoll, Remaining(o.state.students, id),
             CalculateResults(o.state), CanCreateNewPoll(o.state)))]
  {
    var k := IndexOf(s.students, id);
    if k < 0 || s.students[k].socketId != caller then Outcome(s, Rejected(InvalidStudent))
    else if s.students[k].submittedPaper then Outcome(s, Rejected(PaperAlreadySubmitted))
    else
      var st := s.students[k];
      IndexOfDistinct(s.students, k);
      var s' := s.(students := Put(s.students, st.(submittedPaper := true)));
      var result := PaperResult(st.name, st.studentId, st.answered, st.answerIndex,
        if st.answered && s.currentPoll.Some? then OptionAt(s.currentPoll.value.options, st.answerIndex) else None,
        now);
      var teacherEvents :=
        if s.teacher.Some? then
          [Event(TeacherRoom, StudentSubmittedPaper(result)),
           Event(TeacherRoom, TeacherSnapshot(s.currentPoll, Remaining(s'.students, id), CalculateResults(s'), CanCreateNewPoll(s')))]
        else [];
      Outcome(s', Emitted([Event(Caller, PaperSubmitted(PaperSubmittedNotice))] + teacherEvents))
  }

  /** The 3-second timer armed by `submit-paper` fires: the key is deleted, whatever record
      it now holds. */
  function GraceExpires(s: State, id: StudentId): (o: Outcome)
    requires s.Valid()
    ensures o.state.Valid()
    ensures !HasKey(o.state.students, id)
    ensures forall other :: other != id ==> Get(o.state.students, other) == Get(s.students, other)
    ensures o.state == s.(students := o.state.students)
    ensures o.state.students == Delete(s.students, id)
    ensures o.reply == Emitted([])
  {
    Outcome(s.(students := Delete(s.students, id)), Emitted([]))
  }

  /** `end-poll`: teacher only, then `endPoll()`. */
  function EndPollRequest(s: State, caller: SocketId, now: Timestamp): (o: Outcome)
    requires s.Valid()
    ensures o.state.Valid()
    ensures s.teacher != Some(caller) ==> o == Outcome(s, Rejected(NotTeacherEnd))
    ensures s.teacher == Some(caller) ==> o == EndPoll(s, now)
  {
    if s.teacher != Some(caller) then Outcome(s, Rejected(NotTeacherEnd)) else EndPoll(s, now)
  }

  /** The deadline timer fires: `endPoll()` if it is still armed, nothing otherwise. */
  function TimerFires(s: State, now: Timestamp): (o: Outcome)
    requires s.Valid()
    ensures o.state.Valid()
    ensures !o.state.timerArmed
    ensures !s.timerArmed ==> o == Outcome(s, Emitted([]))
    ensures s.timerArmed ==> o == EndPoll(s, now)
  {
    if s.timerArmed then EndPoll(s, now) else Outcome(s, Emitted([]))
  }

  /** `get-poll-history`: teacher only; the whole history, in the order it was appended. */
  function GetPollHistory(s: State, caller: SocketId): (o: Outcome)
    ensures o.state == s
    ensures o.reply.Emitted? <==> s.teacher == Some(caller)
    ensures o.reply.Rejected? ==> o.reply.reason == NotTeacherHistory
    ensures o.reply.Emitted? ==> o.reply.events == [Event(Caller, PollHistory(s.pollHistory))]
  {
    if s.teacher != Some(caller) then Outcome(s, Rejected(NotTeacherHistory))
    else Outcome(s, Emitted([Event(Caller, PollHistory(s.pollHistory))]))
  }

  /** `remove-student`: teacher only; the record is deleted (the tally is left as it is)
      and its socket is told, but the socket is not closed and nothing bars a rejoin. */
  function RemoveStudent(s: State, caller: SocketId, id: StudentId): (o: Outcome)
    requires s.Valid()
    ensures o.state.Valid()
    ensures s.teacher != Some(caller) ==> o == Outcome(s, Rejected(NotTeacherRemove))
    ensures s.teacher == Some(caller) ==>
      && o.reply.Emitted?
      && !HasKey(o.state.students, id)
      && (forall other :: other != id ==> Get(o.state.students, other) == Get(s.students, other))
      && o.state == s.(students := o.state.students)
      && (Get(s.students, id).None? <==> o.reply.events == [])
    ensures s.teacher == Some(caller) ==> o.state.students == Delete(s.students, id)
    ensures s.teacher == Some(caller) && Get(s.students, id).Some? ==>
      o.reply.events[0] == Event(ToSocket(Get(s.students, id).value.socketId), Removed(RemovedNotice))
    ensures s.teacher == Some(caller) && Get(s.students, id).Some? ==>
      o.reply.events[1..] == [Event(TeacherRoom, StudentLeft(Get(s.students, id).value.name, |o.state.students|))]
  {
    if s.teacher != Some(caller) then Outcome(s, Rejected(NotTeacherRemove))
    else
      match Get(s.students, id)
      case None => Outcome(s, Emitted([]))
      case Some(st) =>
        var r := Delete(s.students, id);
        Outcome(s.(students := r), Emitted([Event(ToSocket(st.socketId), Removed(RemovedNotice)),
                                            Event(TeacherRoom, StudentLeft(st.name, |r|))]))
  }

  /** Where a chat message goes. */
  datatype Delivery = ToEveryone | ToTargetAndSender(target: SocketId) | ToNobody

  /** Who sent a chat message: the teacher slot first, then the first record bound to the socket. */
  function ResolveSender(s: State, caller: SocketId): (r: (string, SenderType))
    ensures r.1 == TeacherSender <==> s.teacher == Some(caller)
    ensures r.1 == TeacherSender ==> r.0 == "Teacher"
    ensures r.1 == UnknownSender <==>
      s.teacher != Some(caller) && forall i :: 0 <= i < |s.students| ==> s.students[i].socketId != caller
    ensures r.1 == UnknownSender ==> r.0 == "Unknown"
    ensures r.1 == StudentSender ==>
      exists i :: (0 <= i < |s.students| && s.students[i].socketId == caller && s.students[i].name == r.0
                   && forall j :: 0 <= j < i ==> s.students[j].socketId != caller)
  {
    if s.teacher == Some(caller) then ("Teacher", TeacherSender)
    else
      var k := FirstBySocket(s.students, caller);
      if k >= 0 then (s.students[k].name, StudentSender) else ("Unknown", UnknownSender)
  }

  /** Recipient choice of `send-message`: a private message with a target goes to that
      student and back to the teacher, and only when the teacher sent it to a known
      student; it is dropped otherwise. Everything else is broadcast. An empty target
      counts as none, as `targetStudentId` is checked for truthiness. */
  function Route(s: State, sender: SenderType, isPrivate: bool, target: StudentId): (d: Delivery)
    ensures d == ToEveryone <==> !isPrivate || target == ""
    ensures d.ToTargetAndSender? <==> isPrivate && target != "" && sender == TeacherSender && HasKey(s.students, target)
    ensures d.ToTargetAndSender? ==> d.target == Get(s.students, target).value.socketId
  {
    if isPrivate && target != "" then
      if sender == TeacherSender then
        match Get(s.students, target)
        case Some(t) => ToTargetAndSender(t.socketId)
        case None => ToNobody
      else ToNobody
    else ToEveryone
  }

  /** `send-message`: stamps sender and time, routes, and changes no state. */
  function SendMessage(s: State, caller: SocketId, message: string, isPrivate: bool,
                       target: StudentId, now: Timestamp): (o: Outcome)
    ensures o.state == s
    ensures o.reply.Emitted?
    ensures forall e :: e in o.reply.events ==>
      (e.payload.NewMessage? && e.payload.chat.message == message
       && e.payload.chat.timestamp == now && e.payload.chat.senderType == ResolveSender(s, caller).1)
    ensures
      var sender := ResolveSender(s, caller);
      var data := NewMessage(ChatMessage(message, sender.0, sender.1, now, isPrivate));
      var d := Route(s, sender.1, isPrivate, target);
      && (d == ToEveryone ==> o.reply.events == [Event(Everyone, data)])
      && (d.ToTargetAndSender? ==> o.reply.events == [Event(ToSocket(d.target), data), Event(Caller, data)])
      && (d == ToNobody ==> o.reply.events == [])
  {
    var (name, kind) := ResolveSender(s, caller);
    var data := NewMessage(ChatMessage(message, name, kind, now, isPrivate));
    match Route(s, kind, isPrivate, target)
    case ToEveryone => Outcome(s, Emitted([Event(Everyone, data)]))
    case ToTargetAndSender(t) => Outcome(s, Emitted([Event(ToSocket(t), data), Event(Caller, data)]))
    case ToNobody => Outcome(s, Emitted([]))
  }

  /** `disconnect`: the teacher slot is freed if the caller held it, and the first record
      bound to the caller, if any, is deleted (the tally is left as it is). */
  function Disconnect(s: State, caller: SocketId): (o: Outcome)
    requires s.Valid()
    ensures o.state.Valid()
    ensures o.state.teacher == (if s.teacher == Some(caller) then None else s.teacher)
    ensures o.state.(teacher := s.teacher, students := s.students) == s
    ensures o.reply.Emitted?
    ensures FirstBySocket(s.students, caller) < 0 ==> o.state.students == s.students
    ensures FirstBySocket(s.students, caller) >= 0 ==>
      o.state.students == RemoveAt(s.students, FirstBySocket(s.students, caller))
    ensures FirstBySocket(s.students, caller) < 0 ==> o.reply.events == []
    ensures FirstBySocket(s.students, caller) >= 0 ==>
      o.reply.events ==
        if o.state.teacher.None? then []
        else [Event(TeacherRoom, StudentLeft(s.students[FirstBySocket(s.students, caller)].name, |o.state.students|))]
  {
    var s1 := if s.teacher == Some(caller) then s.(teacher := None) else s;
    var k := FirstBySocket(s1.students, caller);
    if k < 0 then Outcome(s1, Emitted([]))
    else
      var st := s1.students[k];
      IndexOfDistinct(s1.students, k);
      var r := Delete(s1.students, st.studentId);
      Outcome(s1.(students := r), Emitted(TeacherNotice(s1, StudentLeft(st.name, |r|))))
  }
}
