/** The client's `poll` store: one record and the reducers that update it. Each
    reducer assigns some fields of the draft state and the store keeps the rest;
    here each reducer is a function from the old record to the new one, and
    `Unchanged` states which fields it may not touch. A payload field the server
    may leave out (`undefined` or `null`) is an `Option`. */
module PollSlice {
  import opened PollTypes
  import Session

  datatype UserType = Teacher | Student

  datatype ClientState = ClientState(
    userType: Option<UserType>,
    studentName: string,
    studentId: string,
    currentPoll: Option<Poll>,
    results: seq<OptionCount>,
    hasAnswered: bool,
    students: seq<StudentSummary>,
    canCreatePoll: bool,
    pollHistory: seq<HistoryEntry>,
    timeRemaining: int,
    isConnected: bool,
    error: Option<string>)

  /** The store's `initialState`. */
  const InitialState := ClientState(None, "", "", None, [], false, [], true, [], 0, false, None)

  /** The fields of the record, to say which ones a reducer writes. */
  datatype Key = UserTypeKey | StudentNameKey | StudentIdKey | CurrentPollKey | ResultsKey
               | HasAnsweredKey | StudentsKey | CanCreatePollKey | PollHistoryKey
               | TimeRemainingKey | IsConnectedKey | ErrorKey

  /** Every field outside `written` is the same in `a` and `b`. */
  predicate Unchanged(a: ClientState, b: ClientState, written: set<Key>)
  {
    && (UserTypeKey !in written ==> a.userType == b.userType)
    && (StudentNameKey !in written ==> a.studentName == b.studentName)
    && (StudentIdKey !in written ==> a.studentId == b.studentId)
    && (CurrentPollKey !in written ==> a.currentPoll == b.currentPoll)
    && (ResultsKey !in written ==> a.results == b.results)
    && (HasAnsweredKey !in written ==> a.hasAnswered == b.hasAnswered)
    && (StudentsKey !in written ==> a.students == b.students)
    && (CanCreatePollKey !in written ==> a.canCreatePoll == b.canCreatePoll)
    && (PollHistoryKey !in written ==> a.pollHistory == b.pollHistory)
    && (TimeRemainingKey !in written ==> a.timeRemaining == b.timeRemaining)
    && (IsConnectedKey !in written ==> a.isConnected == b.isConnected)
    && (ErrorKey !in written ==> a.error == b.error)
  }

  function SetUserType(s: ClientState, userType: Option<UserType>): (r: ClientState)
    ensures r.userType == userType && Unchanged(s, r, {UserTypeKey})
  {
    s.(userType := userType)
  }

  function SetStudentInfo(s: ClientState, name: string, studentId: string): (r: ClientState)
    ensures r.studentName == name && r.studentId == studentId
    ensures Unchanged(s, r, {StudentNameKey, StudentIdKey})
  {
    s.(studentName := name, studentId := studentId)
  }

  function SetConnectionStatus(s: ClientState, connected: bool): (r: ClientState)
    ensures r.isConnected == connected && Unchanged(s, r, {IsConnectedKey})
  {
    s.(isConnected := connected)
  }

  /** The snapshot the server sends on joining; any field may be missing. `canCreatePoll`
      is `None` only when the key is absent. */
  datatype PollStatePayload = PollStatePayload(
    currentPoll: Option<Poll>,
    results: Option<seq<OptionCount>>,
    hasAnswered: Option<bool>,
    students: Option<seq<StudentSummary>>,
    canCreatePoll: Option<bool>)

  /** `setPollState`: the poll is copied as given; a missing result list, flag or roster
      falls back to empty/false; the lock flag falls back to true only when absent, so an
      explicit false is kept. */
  function SetPollState(s: ClientState, p: PollStatePayload): (r: ClientState)
    ensures r.currentPoll == p.currentPoll
    ensures p.results.None? ==> r.results == []
    ensures p.results.Some? ==> r.results == p.results.value
    ensures r.hasAnswered <==> p.hasAnswered == Some(true)
    ensures p.students.None? ==> r.students == []
    ensures p.students.Some? ==> r.students == p.students.value
    ensures r.canCreatePoll <==> p.canCreatePoll != Some(false)
    ensures Unchanged(s, r, {CurrentPollKey, ResultsKey, HasAnsweredKey, StudentsKey, CanCreatePollKey})
  {
    s.(currentPoll := p.currentPoll,
       results := if p.results.Some? then p.results.value else [],
       hasAnswered := if p.hasAnswered.Some? then p.hasAnswered.value else false,
       students := if p.students.Some? then p.students.value else [],
       canCreatePoll := if p.canCreatePoll.Some? then p.canCreatePoll.value else true)
  }

  /** `payload?.timeLimit || 60` */
  function StartingTime(poll: Option<Poll>): (t: int)
    ensures t != 0
    ensures poll.Some? && poll.value.timeLimit != 0 ==> t == poll.value.timeLimit
    ensures poll.None? || poll.value.timeLimit == 0 ==> t == 60
  {
    if poll.Some? && poll.value.timeLimit != 0 then poll.value.timeLimit else 60
  }

  /** `setCurrentPoll`: a new poll starts unanswered, with no results, and the countdown
      at its time limit. */
  function SetCurrentPoll(s: ClientState, poll: Option<Poll>): (r: ClientState)
    ensures r.currentPoll == poll && !r.hasAnswered && r.results == []
    ensures r.timeRemaining == StartingTime(poll)
    ensures Unchanged(s, r, {CurrentPollKey, HasAnsweredKey, ResultsKey, TimeRemainingKey})
  {
    s.(currentPoll := poll, hasAnswered := false, results := [], timeRemaining := StartingTime(poll))
  }

  /** A poll as the server announces it never has a zero limit, so its countdown starts
      at exactly the limit the server enforces. */
  lemma ServerPollCountdown(s: ClientState, question: string, options: seq<string>,
                            timeLimit: Option<int>, now: Timestamp)
    ensures var poll := Poll(question, options, Session.EffectiveTimeLimit(timeLimit), now);
      SetCurrentPoll(s, Some(poll)).timeRemaining == poll.timeLimit
  {
  }

  function SetResults(s: ClientState, results: seq<OptionCount>): (r: ClientState)
    ensures r.results == results && Unchanged(s, r, {ResultsKey})
  {
    s.(results := results)
  }

  function SetHasAnswered(s: ClientState, answered: bool): (r: ClientState)
    ensures r.hasAnswered == answered && Unchanged(s, r, {HasAnsweredKey})
  {
    s.(hasAnswered := answered)
  }

  function UpdateStudents(s: ClientState, students: seq<StudentSummary>): (r: ClientState)
    ensures r.students == students && Unchanged(s, r, {StudentsKey})
  {
    s.(students := students)
  }

  function SetCanCreatePoll(s: ClientState, can: bool): (r: ClientState)
    ensures r.canCreatePoll == can && Unchanged(s, r, {CanCreatePollKey})
  {
    s.(canCreatePoll := can)
  }

  function SetPollHistory(s: ClientState, history: seq<HistoryEntry>): (r: ClientState)
    ensures r.pollHistory == history && Unchanged(s, r, {PollHistoryKey})
  {
    s.(pollHistory := history)
  }

  function SetTimeRemaining(s: ClientState, t: int): (r: ClientState)
    ensures r.timeRemaining == t && Unchanged(s, r, {TimeRemainingKey})
  {
    s.(timeRemaining := t)
  }

  /** `decrementTime`: one second off while time remains; at zero (or below) nothing changes. */
  function DecrementTime(s: ClientState): (r: ClientState)
    ensures s.timeRemaining > 0 ==> r.timeRemaining == s.timeRemaining - 1
    ensures s.timeRemaining <= 0 ==> r == s
    ensures s.timeRemaining >= 0 ==> r.timeRemaining >= 0
    ensures Unchanged(s, r, {TimeRemainingKey})
  {
    if s.timeRemaining > 0 then s.(timeRemaining := s.timeRemaining - 1) else s
  }

  /** The store after `n` ticks of the countdown interval. */
  function Ticks(s: ClientState, n: nat): ClientState
  {
    if n == 0 then s else DecrementTime(Ticks(s, n - 1))
  }

  /** A running countdown drops by one per tick and stops at zero; nothing else moves. */
  lemma {:induction false} TicksStopAtZero(s: ClientState, n: nat)
    ensures s.timeRemaining > 0 ==> Ticks(s, n).timeRemaining == if n < s.timeRemaining then s.timeRemaining - n else 0
    ensures s.timeRemaining <= 0 ==> Ticks(s, n) == s
    ensures Unchanged(s, Ticks(s, n), {TimeRemainingKey})
  {
    if n > 0 {
      TicksStopAtZero(s, n - 1);
    }
  }

  /** `setError`: stores exactly the payload. */
  function SetError(s: ClientState, error: Option<string>): (r: ClientState)
    ensures r.error == error && Unchanged(s, r, {ErrorKey})
  {
    s.(error := error)
  }

  /** `clearError` */
  function ClearError(s: ClientState): (r: ClientState)
    ensures r.error.None? && Unchanged(s, r, {ErrorKey})
  {
    s.(error := None)
  }

  /** `resetPoll`: back to no poll, no results, unanswered, no time and unlocked; the user,
      the roster, the history, the connection flag and the error stay. */
  function ResetPoll(s: ClientState): (r: ClientState)
    ensures r.currentPoll.None? && r.results == [] && !r.hasAnswered && r.timeRemaining == 0 && r.canCreatePoll
    ensures Unchanged(s, r, {CurrentPollKey, ResultsKey, HasAnsweredKey, TimeRemainingKey, CanCreatePollKey})
    ensures r.currentPoll == InitialState.currentPoll && r.results == InitialState.results
      && r.hasAnswered == InitialState.hasAnswered && r.timeRemaining == InitialState.timeRemaining
      && r.canCreatePoll == InitialState.canCreatePoll
  {
    s.(currentPoll := None, results := [], hasAnswered := false, timeRemaining := 0, canCreatePoll := true)
  }

  /** The actions the store accepts. */
  datatype Action =
    | SetUserTypeAction(userType: Option<UserType>)
    | SetStudentInfoAction(name: string, studentId: string)
    | SetConnectionStatusAction(connected: bool)
    | SetPollStateAction(payload: PollStatePayload)
    | SetCurrentPollAction(poll: Option<Poll>)
    | SetResultsAction(results: seq<OptionCount>)
    | SetHasAnsweredAction(answered: bool)
    | UpdateStudentsAction(students: seq<StudentSummary>)
    | SetCanCreatePollAction(can: bool)
    | SetPollHistoryAction(history: seq<HistoryEntry>)
    | SetTimeRemainingAction(time: int)
    | DecrementTimeAction
    | SetErrorAction(error: Option<string>)
    | ClearErrorAction
    | ResetPollAction

  /** The fields the reducer for `a` assigns. */
  function Writes(a: Action): set<Key>
  {
    match a
    case SetUserTypeAction(_) => {UserTypeKey}
    case SetStudentInfoAction(_, _) => {StudentNameKey, StudentIdKey}
    case SetConnectionStatusAction(_) => {IsConnectedKey}
    case SetPollStateAction(_) => {CurrentPollKey, ResultsKey, HasAnsweredKey, StudentsKey, CanCreatePollKey}
    case SetCurrentPollAction(_) => {CurrentPollKey, HasAnsweredKey, ResultsKey, TimeRemainingKey}
    case SetResultsAction(_) => {ResultsKey}
    case SetHasAnsweredAction(_) => {HasAnsweredKey}
    case UpdateStudentsAction(_) => {StudentsKey}
    case SetCanCreatePollAction(_) => {CanCreatePollKey}
    case SetPollHistoryAction(_) => {PollHistoryKey}
    case SetTimeRemainingAction(_) => {TimeRemainingKey}
    case DecrementTimeAction => {TimeRemainingKey}
    case SetErrorAction(_) => {ErrorKey}
    case ClearErrorAction => {ErrorKey}
    case ResetPollAction => {CurrentPollKey, ResultsKey, HasAnsweredKey, TimeRemainingKey, CanCreatePollKey}
  }

  /** Only the two reducers that write a time taken from outside can make the countdown
      negative: one given a negative time, or a poll with a negative limit. */
  predicate WritesNegativeTime(a: Action)
  {
    || (a.SetTimeRemainingAction? && a.time < 0)
    || (a.SetCurrentPollAction? && a.poll.Some? && a.poll.value.timeLimit < 0)
  }

  /** The slice's reducer: dispatch on the action type. Every action leaves the fields
      its reducer does not assign as they were, and a non-negative countdown stays
      non-negative unless the action itself writes a negative time. */
  function Reduce(s: ClientState, a: Action): (r: ClientState)
    ensures Unchanged(s, r, Writes(a))
    ensures s.timeRemaining >= 0 && !WritesNegativeTime(a) ==> r.timeRemaining >= 0
  {
    match a
    case SetUserTypeAction(u) => assert Writes(a) == {UserTypeKey}; SetUserType(s, u)
    case SetStudentInfoAction(n, i) => assert Writes(a) == {StudentNameKey, StudentIdKey}; SetStudentInfo(s, n, i)
    case SetConnectionStatusAction(c) => assert Writes(a) == {IsConnectedKey}; SetConnectionStatus(s, c)
    case SetPollStateAction(p) => assert Writes(a) == {CurrentPollKey, ResultsKey, HasAnsweredKey, StudentsKey, CanCreatePollKey}; SetPollState(s, p)
    case SetCurrentPollAction(p) => assert Writes(a) == {CurrentPollKey, HasAnsweredKey, ResultsKey, TimeRemainingKey}; SetCurrentPoll(s, p)
    case SetResultsAction(r) => assert Writes(a) == {ResultsKey}; SetResults(s, r)
    case SetHasAnsweredAction(b) => assert Writes(a) == {HasAnsweredKey}; SetHasAnswered(s, b)
    case UpdateStudentsAction(st) => assert Writes(a) == {StudentsKey}; UpdateStudents(s, st)
    case SetCanCreatePollAction(c) => assert Writes(a) == {CanCreatePollKey}; SetCanCreatePoll(s, c)
    case SetPollHistoryAction(h) => assert Writes(a) == {PollHistoryKey}; SetPollHistory(s, h)
    case SetTimeRemainingAction(t) => assert Writes(a) == {TimeRemainingKey}; SetTimeRemaining(s, t)
    case DecrementTimeAction => assert Writes(a) == {TimeRemainingKey}; DecrementTime(s)
    case SetErrorAction(e) => assert Writes(a) == {ErrorKey}; SetError(s, e)
    case ClearErrorAction => assert Writes(a) == {ErrorKey}; ClearError(s)
    case ResetPollAction => assert Writes(a) == {CurrentPollKey, ResultsKey, HasAnsweredKey, TimeRemainingKey, CanCreatePollKey}; ResetPoll(s)
  }

  function ReduceAll(s: ClientState, actions: seq<Action>): ClientState
    decreases |actions|
  {
    if actions == [] then s else ReduceAll(Reduce(s, actions[0]), actions[1..])
  }

  /** From any state with a non-negative countdown (the initial state's is 0), the
      countdown never goes below zero unless an action writes a negative time into it. */
  lemma {:induction false} CountdownNonNegative(s: ClientState, actions: seq<Action>)
    requires s.timeRemaining >= 0
    requires forall i :: 0 <= i < |actions| ==> !WritesNegativeTime(actions[i])
    ensures ReduceAll(s, actions).timeRemaining >= 0
    decreases |actions|
  {
    if actions != [] {
      assert !WritesNegativeTime(actions[0]);
      assert forall i :: 0 <= i < |actions[1..]| ==> actions[1..][i] == actions[i + 1];
      CountdownNonNegative(Reduce(s, actions[0]), actions[1..]);
    }
  }

  /** A field that no action in a run assigns ends the run as it started: the user's
      role and name, say, change only through their own setters. */
  lemma {:induction false} UnwrittenFieldsKept(s: ClientState, actions: seq<Action>, written: set<Key>)
    requires forall i :: 0 <= i < |actions| ==> Writes(actions[i]) <= written
    ensures Unchanged(s, ReduceAll(s, actions), written)
    decreases |actions|
  {
    if actions != [] {
      assert Writes(actions[0]) <= written;
      assert forall i :: 0 <= i < |actions[1..]| ==> actions[1..][i] == actions[i + 1];
      UnwrittenFieldsKept(Reduce(s, actions[0]), actions[1..], written);
    }
  }
}
