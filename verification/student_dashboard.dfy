/** The student dashboard's logic apart from rendering: the `m:ss` countdown text,
    the answer and practice-answer submit guards and the practice-question pager.
    Component state is passed in and the next state returned. */
module StudentDashboard {
  import opened PollTypes
  import opened JsText

  // ----- formatTime -----

  /** JavaScript's `%`: the remainder takes the sign of the dividend. With the bounds,
      `a - r` being a multiple of `b` fixes `r`: the remainder of truncating division. */
  function JsRem(a: int, b: int): (r: int)
    requires b > 0
    ensures a >= 0 ==> 0 <= r < b
    ensures a < 0 ==> -b < r <= 0
    ensures (a - r) % b == 0
  {
    if a >= 0 then
      MultipleMod(b, a / b);
      a % b
    else
      var q := (-a) / b;
      assert a + (-a) % b == b * -q;
      MultipleMod(b, -q);
      -((-a) % b)
  }

  /** A multiple of `b` leaves no remainder. */
  lemma MultipleMod(b: int, q: int)
    requires b > 0
    ensures (b * q) % b == 0
  {
    var x := b * q;
    var k := q - x / b;
    assert b * k == x % b by {
      assert x == b * (x / b) + x % b;
      assert b * k == b * q - b * (x / b);
    }
  }

  /** `formatTime(seconds)`: `Math.floor(seconds / 60)`, a colon, and `seconds % 60`
      padded to two characters. Dafny's `/` by a positive divisor already floors. For a
      non-negative count that is the whole minutes, a colon and exactly two digits. */
  function FormatTime(seconds: int): (text: string)
    ensures seconds >= 0 ==>
      text == NatToString(seconds / 60) + ":" + [DigitChar(seconds % 60 / 10), DigitChar(seconds % 60 % 10)]
  {
    var r := JsRem(seconds, 60);
    assert seconds >= 0 && r >= 10 ==> NatToString(r) == NatToString(r / 10) + [DigitChar(r % 10)];
    IntToString(seconds / 60) + ":" + PadStart2(IntToString(r))
  }

  /** Two non-negative times never show the same text. */
  lemma {:induction false} FormatTimeInjective(a: nat, b: nat)
    requires FormatTime(a) == FormatTime(b)
    ensures a == b
  {
    ClockTextInjective(a / 60, a % 60, b / 60, b % 60);
  }

  /** Minutes, a colon and two digits: equal texts mean equal minutes and seconds. */
  lemma ClockTextInjective(q1: nat, r1: nat, q2: nat, r2: nat)
    requires r1 < 60 && r2 < 60
    requires NatToString(q1) + ":" + [DigitChar(r1 / 10), DigitChar(r1 % 10)]
          == NatToString(q2) + ":" + [DigitChar(r2 / 10), DigitChar(r2 % 10)]
    ensures q1 == q2 && r1 == r2
  {
    var m1, m2 := NatToString(q1), NatToString(q2);
    var d1, d2 := [DigitChar(r1 / 10), DigitChar(r1 % 10)], [DigitChar(r2 / 10), DigitChar(r2 % 10)];
    SplitClockText(m1, d1, m2, d2);
    ParseNatToString(q1);
    ParseNatToString(q2);
    assert d1[0] == d2[0] && d1[1] == d2[1];
  }

  lemma SplitClockText(m1: string, d1: string, m2: string, d2: string)
    requires |d1| == |d2| == 2 && m1 + ":" + d1 == m2 + ":" + d2
    ensures m1 == m2 && d1 == d2
  {
    var t1, t2 := m1 + ":" + d1, m2 + ":" + d2;
    assert m1 == t1[..|m1|];
    assert m2 == t2[..|m2|];
    assert d1 == t1[|t1| - 2..];
    assert d2 == t2[|t2| - 2..];
  }

  /** A negative count keeps JavaScript's signs: minutes floor, seconds truncate. */
  lemma {:induction false} FormatTimeNegative(seconds: int)
    requires -60 < seconds < 0
    ensures FormatTime(seconds) == "-1:-" + NatToString(-seconds)
  {
    assert seconds / 60 == -1;
    assert NatToString(1) == "1";
    assert JsRem(seconds, 60) == seconds;
  }

  // ----- the live poll -----

  /** `selectedOption` and `showResults` */
  datatype AnswerView = AnswerView(selected: Option<int>, showResults: bool)

  /** `socketService.submitAnswer(studentId, selectedOption)` */
  datatype AnswerRequest = AnswerRequest(studentId: StudentId, optionIndex: int)

  datatype Submitted = Submitted(view: AnswerView, sent: Option<AnswerRequest>)

  /** `handleAnswerSubmit`: without a selection nothing happens; otherwise exactly one
      answer is sent for the selected index, the selection is cleared and results show. */
  function AnswerSubmit(v: AnswerView, studentId: StudentId): (r: Submitted)
    ensures r.sent.Some? <==> v.selected.Some?
    ensures v.selected.None? ==> r.view == v
    ensures v.selected.Some? ==>
      r.sent == Some(AnswerRequest(studentId, v.selected.value)) && r.view.selected.None? && r.view.showResults
  {
    match v.selected
    case None => Submitted(v, None)
    case Some(i) => Submitted(AnswerView(None, true), Some(AnswerRequest(studentId, i)))
  }

  /** Pressing submit twice sends one answer: the first press clears the selection,
      so the second changes nothing. */
  lemma AnswerSubmitOnce(v: AnswerView, studentId: StudentId)
    ensures AnswerSubmit(AnswerSubmit(v, studentId).view, studentId).sent.None?
    ensures var first := AnswerSubmit(v, studentId).view;
      AnswerSubmit(first, studentId).view == first
  {
  }

  // ----- the practice questions -----

  datatype SampleQuestion = SampleQuestion(question: string, options: seq<string>, correctAnswer: nat)

  /** The practice questions shown while no poll is running. */
  const SampleQuestions: seq<SampleQuestion> := [
    SampleQuestion("What is the correct way to declare a variable in Java?",
      ["int x = 10;", "variable x = 10;", "x = 10;", "declare int x = 10;"], 0),
    SampleQuestion("Which of the following is NOT a primitive data type in Java?",
      ["int", "boolean", "String", "char"], 2),
    SampleQuestion("What is the output of: System.out.println(5 + 3 + \"Java\");",
      ["8Java", "5 + 3Java", "53Java", "Java8"], 0)
  ]

  /** `currentSampleIndex`, `sampleSelectedOption` and `showSampleResult` */
  datatype Practice = Practice(index: int, selected: Option<int>, showResult: bool)

  const PracticeStart := Practice(0, None, false)

  predicate IndexInRange(p: Practice)
  {
    0 <= p.index < |SampleQuestions|
  }

  /** `handleSampleAnswerSubmit`: reveals the answer only once something is selected. */
  function SampleAnswerSubmit(p: Practice): (p': Practice)
    ensures p'.showResult <==> p.showResult || p.selected.Some?
    ensures p'.index == p.index && p'.selected == p.selected
  {
    if p.selected.None? then p else p.(showResult := true)
  }

  /** `handleNextSampleQuestion`: moves on, with a fresh selection and the answer hidden,
      only while there is a next question; at the last one nothing changes. */
  function NextSampleQuestion(p: Practice): (p': Practice)
    ensures p.index < |SampleQuestions| - 1 ==> p'.index == p.index + 1 && p'.selected.None? && !p'.showResult
    ensures p.index >= |SampleQuestions| - 1 ==> p' == p
    ensures IndexInRange(p) ==> IndexInRange(p')
  {
    if p.index < |SampleQuestions| - 1 then Practice(p.index + 1, None, false) else p
  }

  /** The pager after `n` presses of "next". */
  function Presses(p: Practice, n: nat): Practice
  {
    if n == 0 then p else NextSampleQuestion(Presses(p, n - 1))
  }

  /** From any question in range, `n` presses land on question `index + n`, stopping at the last. */
  lemma {:induction false} PressesStopAtLast(p: Practice, n: nat)
    requires IndexInRange(p)
    ensures Presses(p, n).index == if p.index + n < |SampleQuestions| then p.index + n else |SampleQuestions| - 1
    ensures IndexInRange(Presses(p, n))
  {
    if n > 0 {
      PressesStopAtLast(p, n - 1);
    }
  }
}
