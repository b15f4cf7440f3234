/** The teacher dashboard's poll form and its two counters. The form state is the
    component's `question`, `options` and `timeLimit`; each handler takes the form
    as it is and gives the form React is asked to render next, plus what it
    dispatches or sends. The time field is taken already parsed: `None` stands for
    the `NaN` that `parseInt` gives for a field that is not a number. */
module TeacherDashboard {
  import opened PollTypes
  import opened JsText
  import opened Selection

  datatype PollForm = PollForm(question: string, options: seq<string>, timeLimit: Option<int>)

  /** What `createPoll` sends to the server. */
  datatype PollRequest = PollRequest(question: string, options: seq<string>, timeLimit: Option<int>)

  /** `handleCreatePoll`: the error it dispatches with `setError`, or the request it sends
      (after dispatching `clearError`) and the cleared form. */
  datatype Submission = Invalid(error: string) | Send(request: PollRequest, form: PollForm)

  const MinOptions := 2
  const MaxOptions := 6
  const FormIncomplete := "Please fill in the question and at least two options."

  /** The form on mount and after every successful submission. */
  const EmptyForm := PollForm("", ["", ""], Some(60))

  predicate InBounds(f: PollForm)
  {
    MinOptions <= |f.options| <= MaxOptions
  }

  /** `addOption`: one more empty entry, while there are fewer than six. */
  function AddOption(f: PollForm): (f': PollForm)
    ensures |f.options| < MaxOptions ==> f'.options == f.options + [""]
    ensures |f.options| >= MaxOptions ==> f' == f
    ensures f'.question == f.question && f'.timeLimit == f.timeLimit
    ensures InBounds(f) ==> InBounds(f')
  {
    if |f.options| < MaxOptions then f.(options := f.options + [""]) else f
  }

  /** `options.filter((_, idx) => idx !== index)` */
  function Without(options: seq<string>, index: int): (r: seq<string>)
    ensures 0 <= index < |options| ==> r == options[..index] + options[index + 1..]
    ensures !(0 <= index < |options|) ==> r == options
  {
    if options == [] then []
    else
      var last := |options| - 1;
      var init := Without(options[..last], index);
      if index == last then init
      else
        assert options[..last] + [options[last]] == options;
        init + [options[last]]
  }

  /** `removeOption`: drops exactly the entry at `index`, while there are more than two;
      an index that names no entry removes nothing. */
  function RemoveOption(f: PollForm, index: int): (f': PollForm)
    ensures |f.options| > MinOptions && 0 <= index < |f.options| ==>
      && |f'.options| == |f.options| - 1
      && (forall i :: 0 <= i < index ==> f'.options[i] == f.options[i])
      && (forall i :: index <= i < |f'.options| ==> f'.options[i] == f.options[i + 1])
    ensures |f.options| <= MinOptions || !(0 <= index < |f.options|) ==> f' == f
    ensures f'.question == f.question && f'.timeLimit == f.timeLimit
    ensures InBounds(f) ==> InBounds(f')
  {
    if |f.options| > MinOptions then f.(options := Without(f.options, index)) else f
  }

  /** `handleOptionChange`: copy the list and overwrite one rendered entry. */
  function ChangeOption(f: PollForm, index: int, value: string): (f': PollForm)
    requires 0 <= index < |f.options|
    ensures |f'.options| == |f.options| && f'.options[index] == value
    ensures forall i :: 0 <= i < |f.options| && i != index ==> f'.options[i] == f.options[i]
    ensures f'.question == f.question && f'.timeLimit == f.timeLimit
  {
    f.(options := f.options[index := value])
  }

  /** One thing the teacher can do to the form before submitting it. */
  datatype Edit = SetQuestion(text: string) | SetTimeLimit(limit: Option<int>)
                | Add | Remove(at: int) | Change(index: int, value: string)

  /** The change handlers are only wired to rendered entries. */
  predicate Applicable(f: PollForm, e: Edit)
  {
    e.Change? ==> 0 <= e.index < |f.options|
  }

  function Apply(f: PollForm, e: Edit): PollForm
    requires Applicable(f, e)
  {
    match e
    case SetQuestion(q) => f.(question := q)
    case SetTimeLimit(t) => f.(timeLimit := t)
    case Add => AddOption(f)
    case Remove(i) => RemoveOption(f, i)
    case Change(i, v) => ChangeOption(f, i, v)
  }

  predicate Replayable(f: PollForm, edits: seq<Edit>)
    decreases |edits|
  {
    edits == [] || (Applicable(f, edits[0]) && Replayable(Apply(f, edits[0]), edits[1..]))
  }

  function ApplyAll(f: PollForm, edits: seq<Edit>): PollForm
    requires Replayable(f, edits)
    decreases |edits|
  {
    if edits == [] then f else ApplyAll(Apply(f, edits[0]), edits[1..])
  }

  /** Starting inside 2..6 entries, no sequence of edits leaves that range. */
  lemma {:induction false} EditsKeepBounds(f: PollForm, edits: seq<Edit>)
    requires InBounds(f) && Replayable(f, edits)
    ensures InBounds(ApplyAll(f, edits))
    decreases |edits|
  {
    if edits != [] {
      EditsKeepBounds(Apply(f, edits[0]), edits[1..]);
    }
  }

  /** Non-empty, with no white space at either end: what `trim()` leaves of a string
      that is not all white space. */
  predicate Trimmed(s: string)
  {
    s != [] && !IsWhiteSpace(s[0]) && !IsWhiteSpace(s[|s| - 1])
  }

  /** What `trim()` leaves is empty or trimmed. */
  lemma TrimNonBlank(s: string)
    ensures Trim(s) == "" || Trimmed(Trim(s))
  {
  }

  /** `trim()` leaves a trimmed string as it is. */
  lemma TrimOfTrimmed(s: string)
    requires Trimmed(s)
    ensures Trim(s) == s
  {
    TrimStartNoLead(s);
    TrimEndNoTrail(s);
  }

  /** Number of entries with something left after trimming (`filter(opt => opt.trim())`). */
  function NonBlankCount(options: seq<string>): (n: nat)
    ensures n <= |options|
  {
    if options == [] then 0
    else NonBlankCount(options[..|options| - 1]) + (if Trim(options[|options| - 1]) != "" then 1 else 0)
  }

  /** `options.map(opt => opt.trim()).filter(opt => opt)`: one entry per non-blank
      option, each non-empty with no white space at either end. */
  function Normalise(options: seq<string>): (r: seq<string>)
    ensures |r| == NonBlankCount(options)
    ensures forall i :: 0 <= i < |r| ==> Trimmed(r[i])
  {
    if options == [] then []
    else
      var init := Normalise(options[..|options| - 1]);
      var t := Trim(options[|options| - 1]);
      TrimNonBlank(options[|options| - 1]);
      var r := init + (if t != "" then [t] else []);
      AppendTrimmed(init, t, r);
      r
  }

  /** Appending a trimmed entry, or nothing for a blank one, keeps a list trimmed. */
  lemma AppendTrimmed(init: seq<string>, t: string, r: seq<string>)
    requires forall i :: 0 <= i < |init| ==> Trimmed(init[i])
    requires t == "" || Trimmed(t)
    requires r == init + (if t != "" then [t] else [])
    ensures forall i :: 0 <= i < |r| ==> Trimmed(r[i])
  {
  }

  /** Which options `filter(opt => opt)` keeps after trimming. */
  function NonBlankFlags(options: seq<string>): (keep: seq<bool>)
    ensures |keep| == |options|
    ensures forall j :: 0 <= j < |options| ==> (keep[j] <==> Trim(options[j]) != "")
  {
    seq(|options|, j requires 0 <= j < |options| => Trim(options[j]) != "")
  }

  /** The list sent is the trimmed non-blank options in their original order, and
      nothing else. */
  lemma {:induction false} NormaliseInOrder(options: seq<string>)
    ensures |Normalise(options)| == |Positions(NonBlankFlags(options))|
    ensures forall i :: 0 <= i < |Normalise(options)| ==>
      Normalise(options)[i] == Trim(options[Positions(NonBlankFlags(options))[i]])
  {
    if options != [] {
      var n := |options| - 1;
      NormaliseInOrder(options[..n]);
      assert NonBlankFlags(options)[..n] == NonBlankFlags(options[..n]);
      var t := Trim(options[n]);
      var v0, p0 := Normalise(options[..n]), Positions(NonBlankFlags(options[..n]));
      assert Normalise(options) == v0 + (if t != "" then [t] else []);
      assert Positions(NonBlankFlags(options)) == p0 + (if t != "" then [n] else []);
      forall i | 0 <= i < |v0| ensures v0[i] == Trim(options[p0[i]]) {
        assert options[..n][p0[i]] == options[p0[i]];
      }
      AppendSelected(options, v0, p0, t != "");
    }
  }

  /** One step of `NormaliseInOrder`: appending the last option, when it is kept,
      keeps the list and its positions in step. */
  lemma AppendSelected(options: seq<string>, v0: seq<string>, p0: seq<nat>, keep: bool)
    requires options != [] && |v0| == |p0|
    requires forall i :: 0 <= i < |v0| ==> p0[i] < |options| && v0[i] == Trim(options[p0[i]])
    ensures var n := |options| - 1;
      var v := v0 + (if keep then [Trim(options[n])] else []);
      var p := p0 + (if keep then [n] else []);
      |v| == |p| && forall i :: 0 <= i < |v| ==> p[i] < |options| && v[i] == Trim(options[p[i]])
  {
  }

  /** `handleCreatePoll` */
  function CreatePoll(f: PollForm): (s: Submission)
    ensures s.Invalid? <==> f.question == "" || NonBlankCount(f.options) < MinOptions
    ensures s.Invalid? ==> s.error == FormIncomplete
    ensures s.Send? ==>
      && s.request.question == f.question && s.request.question != ""
      && s.request.timeLimit == f.timeLimit
      && |s.request.options| >= MinOptions
      && (forall i :: 0 <= i < |s.request.options| ==>
            s.request.options[i] != "" && Trim(s.request.options[i]) == s.request.options[i])
      && s.form == EmptyForm
    ensures s.Send? ==> s.request.options == Normalise(f.options)
  {
    if f.question == "" || NonBlankCount(f.options) < MinOptions then Invalid(FormIncomplete)
    else
      var options := Normalise(f.options);
      TrimmedListFixed(options);
      Send(PollRequest(f.question, options, f.timeLimit), EmptyForm)
  }

  /** Every entry of a list of trimmed strings is non-empty and left alone by `trim()`. */
  lemma TrimmedListFixed(options: seq<string>)
    requires forall i :: 0 <= i < |options| ==> Trimmed(options[i])
    ensures forall i :: 0 <= i < |options| ==> options[i] != "" && Trim(options[i]) == options[i]
  {
    forall i | 0 <= i < |options| ensures Trim(options[i]) == options[i] {
      TrimOfTrimmed(options[i]);
    }
  }

  /** `getTotalVotes`: the sum of the counts, 0 without a result list. */
  function GetTotalVotes(results: Option<seq<OptionCount>>): (n: nat)
    ensures results.None? ==> n == 0
    ensures results.Some? ==> n == TotalVotes(results.value)
    ensures results.Some? ==> forall i :: 0 <= i < |results.value| ==> results.value[i].count <= n
    ensures results.Some? ==> (n == 0 <==> forall i :: 0 <= i < |results.value| ==> results.value[i].count == 0)
  {
    match results
    case None => 0
    case Some(r) => TotalVotes(r)
  }

  /** Which roster lines are marked answered. */
  function AnsweredFlags(students: seq<StudentSummary>): (keep: seq<bool>)
    ensures |keep| == |students|
    ensures forall j :: 0 <= j < |students| ==> (keep[j] <==> students[j].answered)
  {
    seq(|students|, j requires 0 <= j < |students| => students[j].answered)
  }

  /** `getAnsweredCount`: how many roster lines are marked answered. This is the
      dashboard's own count over the summaries it receives, not the server's count
      over its records; `AnsweredCountIsFilterLength` ties it to the filter it uses. */
  function GetAnsweredCount(students: seq<StudentSummary>): (n: nat)
    ensures n <= |students|
  {
    if students == [] then 0
    else GetAnsweredCount(students[..|students| - 1]) + (if students[|students| - 1].answered then 1 else 0)
  }

  /** The counter is the length of `students.filter(s => s.answered)`: one for each
      position the filter keeps. */
  lemma {:induction false} AnsweredCountIsFilterLength(students: seq<StudentSummary>)
    ensures GetAnsweredCount(students) == |Positions(AnsweredFlags(students))|
  {
    if students != [] {
      var m := |students| - 1;
      AnsweredCountIsFilterLength(students[..m]);
      assert AnsweredFlags(students)[..m] == AnsweredFlags(students[..m]);
    }
  }

  /** The answered counter reaches the roster size exactly when everyone has answered,
      and is 0 exactly when nobody has. */
  lemma {:induction false} AnsweredCountRange(students: seq<StudentSummary>)
    ensures GetAnsweredCount(students) == |students| <==> forall i :: 0 <= i < |students| ==> students[i].answered
    ensures GetAnsweredCount(students) == 0 <==> forall i :: 0 <= i < |students| ==> !students[i].answered
  {
    if students != [] {
      var m := |students| - 1;
      var init := students[..m];
      AnsweredCountRange(init);
      assert forall i :: 0 <= i < m ==> init[i] == students[i];
    }
  }
}
