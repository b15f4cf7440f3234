/** The polling server's coordinator as the source has it: module-level variables
    updated in place by socket handlers. Each handler is one method of
    `Coordinator`, run to completion, taking the caller's socket id and returning
    the error it sends back or the events it emits; each is proved to do exactly
    what the matching function of module `Session` says. */
module Server {
  import opened PollTypes
  import opened Roster
  import opened Session

  class Coordinator {
    var currentPoll: Option<Poll>
    var students: seq<Student>
    var pollResults: map<int, nat>
    var pollHistory: seq<HistoryEntry>
    var timerArmed: bool
    var teacher: Option<SocketId>

    /** The fields as one value. */
    function ServerState(): State
      reads this
    {
      State(currentPoll, students, pollResults, pollHistory, timerArmed, teacher)
    }

    ghost predicate Valid()
      reads this
    {
      ServerState().Valid()
    }

    /** Process start: no poll, no students, no history, no timer, no teacher. */
    constructor ()
      ensures Valid() && ServerState() == Initial
    {
      currentPoll := None;
      students := [];
      pollResults := map[];
      pollHistory := [];
      timerArmed := false;
      teacher := None;
    }

    /** `resetPoll()`: the `forEach` clears every `answered` flag in place. */
    method ResetPoll()
      requires Valid()
      modifies this
      ensures Valid()
      ensures ServerState() == Session.ResetPoll(old(ServerState()))
    {
      currentPoll := None;
      pollResults := map[];
      var i := 0;
      while i < |students|
        invariant 0 <= i <= |students| == |old(students)|
        invariant forall j :: 0 <= j < i ==> students[j] == old(students[j]).(answered := false)
        invariant forall j :: i <= j < |students| ==> students[j] == old(students[j])
        invariant teacher == old(teacher) && pollHistory == old(pollHistory) && timerArmed == old(timerArmed)
        invariant currentPoll.None? && pollResults == map[]
      {
        students := students[i := students[i].(answered := false)];
        i := i + 1;
      }
      if timerArmed {
        timerArmed := false;
      }
    }

    /** `endPoll()` */
    method EndPoll(now: Timestamp) returns (events: seq<Event>)
      requires Valid()
      modifies this
      ensures Valid()
      ensures Outcome(ServerState(), Emitted(events)) == Session.EndPoll(old(ServerState()), now)
    {
      if currentPoll.None? {
        return [];
      }
      var poll := currentPoll.value;
      var results := CalculateResults(ServerState());
      pollHistory := pollHistory + [HistoryEntry(poll.question, poll.options, results, poll.createdAt, now)];
      events := [Event(Everyone, PollEnded(results, poll.question))];
      if teacher.Some? {
        events := events + [Event(TeacherRoom, TeacherSnapshot(None, Summaries(students), results, true))];
      }
      if timerArmed {
        timerArmed := false;
      }
    }

    /** `join-as-teacher` */
    method JoinAsTeacher(caller: SocketId) returns (reply: Reply)
      requires Valid()
      modifies this
      ensures Valid()
      ensures Outcome(ServerState(), reply) == Session.JoinAsTeacher(old(ServerState()), caller)
    {
      teacher := Some(caller);
      var s := ServerState();
      reply := Emitted([Event(Caller, TeacherSnapshot(currentPoll, Summaries(students), CalculateResults(s), CanCreateNewPoll(s)))]);
    }

    /** `join-as-student` */
    method JoinAsStudent(caller: SocketId, name: string, id: StudentId) returns (reply: Reply)
      requires Valid()
      modifies this
      ensures Valid()
      ensures Outcome(ServerState(), reply) == Session.JoinAsStudent(old(ServerState()), caller, name, id)
    {
      var existing := Get(students, id);
      if existing.Some? && existing.value.submittedPaper {
        return Rejected(CannotRejoin);
      }
      students := Put(students, Student(
        name, id, caller,
        currentPoll.Some? && existing.Some? && existing.value.answered,
        existing.Some? && existing.value.submittedPaper,
        if existing.Some? then CarriedIndex(existing.value.answerIndex) else None));
      var student := Get(students, id).value;
      var snapshot := StudentSnapshot(
        if currentPoll.Some? && !student.answered && !student.submittedPaper then currentPoll else None,
        if student.answered then Some(CalculateResults(ServerState())) else None,
        student.answered,
        student.submittedPaper);
      var events := [Event(Caller, snapshot)];
      if teacher.Some? {
        events := events + [Event(TeacherRoom, StudentJoined(name, |students|))];
      }
      reply := Emitted(events);
    }

    /** `create-poll`; the second `forEach` writes a zero count per option index. */
    method CreatePoll(caller: SocketId, question: string, options: seq<string>,
                      timeLimit: Option<int>, now: Timestamp) returns (reply: Reply)
      requires Valid()
      modifies this
      ensures Valid()
      ensures Outcome(ServerState(), reply) == Session.CreatePoll(old(ServerState()), caller, question, options, timeLimit, now)
    {
      if teacher != Some(caller) {
        return Rejected(NotTeacherCreate);
      }
      if !CanCreateNewPoll(ServerState()) {
        return Rejected(StillAnswering);
      }
      ResetPoll();
      var poll := Poll(question, options, EffectiveTimeLimit(timeLimit), now);
      currentPoll := Some(poll);
      var tally := map[];
      var i := 0;
      while i < |options|
        invariant 0 <= i <= |options|
        invariant tally == ZeroTally(i)
      {
        tally := tally[i := 0];
        i := i + 1;
      }
      pollResults := tally;
      timerArmed := true;
      reply := Emitted([Event(StudentsRoom, NewPoll(poll)), Event(Caller, PollCreated(poll, false))]);
    }

    /** `submit-answer` */
    method SubmitAnswer(caller: SocketId, id: StudentId, optionIndex: int, now: Timestamp) returns (reply: Reply)
      requires Valid()
      modifies this
      ensures Valid()
      ensures Outcome(ServerState(), reply) == Session.SubmitAnswer(old(ServerState()), caller, id, optionIndex, now)
    {
      var k := IndexOf(students, id);
      if k < 0 || students[k].socketId != caller {
        return Rejected(InvalidStudent);
      }
      if currentPoll.None? {
        return Rejected(NoActivePoll);
      }
      if students[k].answered {
        return Rejected(AlreadyAnswered);
      }
      reply := AcceptAnswer(k, id, optionIndex, now);
    }

    /** The accepted half of `submit-answer`, for the record at `k`. */
    method AcceptAnswer(k: nat, id: StudentId, optionIndex: int, now: Timestamp) returns (reply: Reply)
      requires Valid() && k < |students| && students[k].studentId == id && currentPoll.Some?
      modifies this
      ensures Valid()
      ensures Outcome(ServerState(), reply) == Session.AcceptAnswer(old(ServerState()), id, optionIndex, now)
    {
      AcceptAnswerSteps(ServerState(), k, id, optionIndex, now);
      var voted := students[k].(answered := true, answerIndex := Some(optionIndex));
      RecordVote(k, voted, optionIndex);
      reply := ReportVote(now);
    }

    /** What follows a recorded vote: the results to the caller, the progress to the
        teacher, and `endPoll()` when every record has answered. */
    method ReportVote(now: Timestamp) returns (reply: Reply)
      requires Valid() && currentPoll.Some?
      modifies this
      ensures Valid()
      ensures Outcome(ServerState(), reply) == Session.ReportVote(old(ServerState()), now)
    {
      ghost var after := ServerState();
      var results := CalculateResults(ServerState());
      var details := Details(students, currentPoll.value.options);
      var allAnswered := AllAnswered(students);
      var events := [Event(Caller, AnswerSubmitted(results))];
      if teacher.Some? {
        events := events + [Event(TeacherRoom, PollProgress(details, |students|, results, 0, allAnswered))];
      }
      assert events == [Event(Caller, AnswerSubmitted(results))]
        + TeacherNotice(after, PollProgress(details, |after.students|, results, 0, allAnswered));
      if allAnswered {
        var ended := EndPoll(now);
        assert Outcome(ServerState(), Emitted(ended)) == Session.EndPoll(after, now);
        events := events + ended;
      }
      reply := Emitted(events);
    }

    /** The write half of `submit-answer`: the record at `k` takes the vote and the
        count under `optionIndex` goes up by one. */
    method RecordVote(k: nat, voted: Student, optionIndex: int)
      requires Valid() && k < |students| && voted.studentId == students[k].studentId
      modifies this
      ensures Valid()
      ensures ServerState() == old(ServerState()).(
        students := Put(old(students), voted),
        pollResults := old(pollResults)[optionIndex := Count(old(pollResults), optionIndex) + 1])
    {
      IndexOfDistinct(students, k);
      students := students[k := voted];
      pollResults := pollResults[optionIndex := Count(pollResults, optionIndex) + 1];
    }

    /** `submit-paper`; the deletion 3 seconds later is `GraceExpires`. */
    method SubmitPaper(caller: SocketId, id: StudentId, now: Timestamp) returns (reply: Reply)
      requires Valid()
      modifies this
      ensures Valid()
      ensures Outcome(ServerState(), reply) == Session.SubmitPaper(old(ServerState()), caller, id, now)
    {
      var k := IndexOf(students, id);
      if k < 0 || students[k].socketId != caller {
        return Rejected(InvalidStudent);
      }
      var student := students[k];
      if student.submittedPaper {
        return Rejected(PaperAlreadySubmitted);
      }
      students := students[k := student.(submittedPaper := true)];
      var result := PaperResult(student.name, student.studentId, student.answered, student.answerIndex,
        if student.answered && currentPoll.Some? then OptionAt(currentPoll.value.options, student.answerIndex) else None,
        now);
      var events := [Event(Caller, PaperSubmitted(PaperSubmittedNotice))];
      if teacher.Some? {
        var s := ServerState();
        events := events + [Event(TeacherRoom, StudentSubmittedPaper(result)),
                            Event(TeacherRoom, TeacherSnapshot(currentPoll, Remaining(students, id), CalculateResults(s), CanCreateNewPoll(s)))];
      }
      reply := Emitted(events);
    }

    /** The timer set by `submit-paper` fires: `students.delete(studentId)`. */
    method GraceExpires(id: StudentId) returns (reply: Reply)
      requires Valid()
      modifies this
      ensures Valid()
      ensures Outcome(ServerState(), reply) == Session.GraceExpires(old(ServerState()), id)
    {
      students := Delete(students, id);
      reply := Emitted([]);
    }

    /** `end-poll` */
    method EndPollRequest(caller: SocketId, now: Timestamp) returns (reply: Reply)
      requires Valid()
      modifies this
      ensures Valid()
      ensures Outcome(ServerState(), reply) == Session.EndPollRequest(old(ServerState()), caller, now)
    {
      if teacher != Some(caller) {
        return Rejected(NotTeacherEnd);
      }
      var events := EndPoll(now);
      reply := Emitted(events);
    }

    /** The deadline timer set by `create-poll` fires; it only exists while armed. */
    method TimerFires(now: Timestamp) returns (reply: Reply)
      requires Valid()
      modifies this
      ensures Valid()
      ensures Outcome(ServerState(), reply) == Session.TimerFires(old(ServerState()), now)
    {
      if !timerArmed {
        return Emitted([]);
      }
      var events := EndPoll(now);
      reply := Emitted(events);
    }

    /** `get-poll-history` */
    method GetPollHistory(caller: SocketId) returns (reply: Reply)
      ensures reply == Session.GetPollHistory(ServerState(), caller).reply
    {
      if teacher != Some(caller) {
        return Rejected(NotTeacherHistory);
      }
      reply := Emitted([Event(Caller, PollHistory(pollHistory))]);
    }

    /** `remove-student` */
    method RemoveStudent(caller: SocketId, id: StudentId) returns (reply: Reply)
      requires Valid()
      modifies this
      ensures Valid()
      ensures Outcome(ServerState(), reply) == Session.RemoveStudent(old(ServerState()), caller, id)
    {
      if teacher != Some(caller) {
        return Rejected(NotTeacherRemove);
      }
      var student := Get(students, id);
      if student.None? {
        return Emitted([]);
      }
      students := Delete(students, id);
      reply := Emitted([Event(ToSocket(student.value.socketId), Removed(RemovedNotice)),
                        Event(TeacherRoom, StudentLeft(student.value.name, |students|))]);
    }

    /** `send-message`: the sender is looked up with the `for..of` search over the roster,
        and nothing is changed. */
    method SendMessage(caller: SocketId, message: string, isPrivate: bool, target: StudentId, now: Timestamp)
      returns (reply: Reply)
      ensures reply == Session.SendMessage(ServerState(), caller, message, isPrivate, target, now).reply
    {
      var senderName, senderType := "Unknown", UnknownSender;
      if teacher == Some(caller) {
        senderName, senderType := "Teacher", TeacherSender;
      } else {
        var i := 0;
        while i < |students|
          invariant 0 <= i <= |students|
          invariant forall j :: 0 <= j < i ==> students[j].socketId != caller
          invariant senderType == UnknownSender && senderName == "Unknown"
        {
          if students[i].socketId == caller {
            senderName, senderType := students[i].name, StudentSender;
            assert i == FirstBySocket(students, caller);
            break;
          }
          i := i + 1;
        }
      }
      assert (senderName, senderType) == ResolveSender(ServerState(), caller);
      var data := NewMessage(ChatMessage(message, senderName, senderType, now, isPrivate));
      if isPrivate && target != "" {
        reply := Emitted([]);
        if senderType == TeacherSender {
          var targetStudent := Get(students, target);
          if targetStudent.Some? {
            reply := Emitted([Event(ToSocket(targetStudent.value.socketId), data), Event(Caller, data)]);
          }
        }
      } else {
        reply := Emitted([Event(Everyone, data)]);
      }
    }

    /** `disconnect`: frees the teacher slot, then the `for..of` search deletes the first
        record bound to the socket and stops. */
    method Disconnect(caller: SocketId) returns (reply: Reply)
      requires Valid()
      modifies this
      ensures Valid()
      ensures Outcome(ServerState(), reply) == Session.Disconnect(old(ServerState()), caller)
    {
      if teacher == Some(caller) {
        teacher := None;
      }
      var i := 0;
      while i < |students| && students[i].socketId != caller
        invariant 0 <= i <= |students|
        invariant forall j :: 0 <= j < i ==> students[j].socketId != caller
      {
        i := i + 1;
      }
      var events := [];
      if i < |students| {
        var student := students[i];
        assert i == FirstBySocket(students, caller);
        IndexOfDistinct(students, i);
        students := Delete(students, student.studentId);
        if teacher.Some? {
          events := [Event(TeacherRoom, StudentLeft(student.name, |students|))];
        }
      }
      reply := Emitted(events);
    }
  }
}
