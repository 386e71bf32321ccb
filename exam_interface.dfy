/** The exam screen: which of the pre-check dialog and the exam is shown,
    the question navigation, the selected-answer map, the save, start and
    submit requests the screen sends, and the answered-question set. */
module ExamScreen {
  import opened Common
  import opened Schema
  import opened SessionRules
  import opened Routes

  // ---------------------------------------------------------------------
  // Derived values
  // ---------------------------------------------------------------------

  /** `showPreCheck`: a loaded session that has not started. */
  predicate ShowPreCheck(session: Option<SessionView>)
  {
    session.Some? && session.value.startTime.None? && session.value.status == Pending
  }

  /** `examStarted`: a loaded session with a start time or past pending. */
  predicate ExamStarted(session: Option<SessionView>)
  {
    session.Some? && (session.value.startTime.Some? || session.value.status != Pending)
  }

  /** Once the session is loaded exactly one of the two holds; before, neither. */
  lemma PreCheckOrStarted(session: Option<SessionView>)
    ensures session.Some? ==> ShowPreCheck(session) != ExamStarted(session)
    ensures session.None? ==> !ShowPreCheck(session) && !ExamStarted(session)
  {
  }

  /** The keys of the questions. */
  function IdsOf(questions: seq<PublicQuestion>): set<Id>
  {
    set i | 0 <= i < |questions| :: questions[i].id
  }

  /** No two questions share a key. */
  predicate IdsDistinct(questions: seq<PublicQuestion>)
  {
    forall i, j :: 0 <= i < j < |questions| ==> questions[i].id != questions[j].id
  }

  /** The keys of a list with one more question at its end. */
  lemma IdsOfSnoc(questions: seq<PublicQuestion>)
    requires |questions| > 0
    ensures IdsOf(questions) == IdsOf(questions[..|questions| - 1]) + {questions[|questions| - 1].id}
  {
    var init := questions[..|questions| - 1];
    forall x | x in IdsOf(questions)
      ensures x in IdsOf(init) + {questions[|questions| - 1].id}
    {
      var i :| 0 <= i < |questions| && questions[i].id == x;
      if i < |questions| - 1 {
        assert init[i].id == x;
      }
    }
    forall x | x in IdsOf(init)
      ensures x in IdsOf(questions)
    {
      var i :| 0 <= i < |init| && init[i].id == x;
      assert questions[i].id == x;
    }
  }

  /** Distinct keys: as many keys as questions. */
  lemma {:induction false} DistinctIdsCount(questions: seq<PublicQuestion>)
    requires IdsDistinct(questions)
    ensures |IdsOf(questions)| == |questions|
  {
    if |questions| > 0 {
      var init := questions[..|questions| - 1];
      var last := questions[|questions| - 1];
      assert IdsDistinct(init) by {
        forall i, j | 0 <= i < j < |init|
          ensures init[i].id != init[j].id
        {
          assert init[i] == questions[i] && init[j] == questions[j];
        }
      }
      DistinctIdsCount(init);
      IdsOfSnoc(questions);
      assert last.id !in IdsOf(init) by {
        forall i | 0 <= i < |init|
          ensures init[i].id != last.id
        {
          assert init[i] == questions[i];
        }
      }
    }
  }

  /** `questions.length - selectedAnswers.size`, or 0 without questions. */
  function Unanswered(questions: Option<seq<PublicQuestion>>, selectedAnswers: map<Id, string>): int
  {
    if questions.Some? then |questions.value| - |selectedAnswers.Keys| else 0
  }

  /** With distinct keys and selections only for shown questions, the count
      is never negative, and it is positive exactly when some question has
      no selection. */
  lemma UnansweredMeansMissing(questions: seq<PublicQuestion>, selectedAnswers: map<Id, string>)
    requires IdsDistinct(questions) && selectedAnswers.Keys <= IdsOf(questions)
    ensures Unanswered(Some(questions), selectedAnswers) >= 0
    ensures Unanswered(Some(questions), selectedAnswers) > 0 <==>
      exists i :: 0 <= i < |questions| && questions[i].id !in selectedAnswers
  {
    DistinctIdsCount(questions);
    var keys := selectedAnswers.Keys;
    assert |keys| <= |IdsOf(questions)| by {
      SubsetCard(keys, IdsOf(questions));
    }
    if exists i :: 0 <= i < |questions| && questions[i].id !in selectedAnswers {
      var i :| 0 <= i < |questions| && questions[i].id !in selectedAnswers;
      assert questions[i].id in IdsOf(questions) - keys;
      SubsetCard(keys, IdsOf(questions) - {questions[i].id});
    } else {
      assert IdsOf(questions) <= keys;
      assert keys == IdsOf(questions);
    }
  }

  /** A subset is no larger. */
  lemma SubsetCard<T>(a: set<T>, b: set<T>)
    requires a <= b
    ensures |a| <= |b|
  {
    assert b == a + (b - a);
  }

  /** `answeredQuestions`: the numbers of the questions with a selection. */
  function AnsweredQuestions(questions: seq<PublicQuestion>, selectedAnswers: map<Id, string>): set<int>
  {
    set i | 0 <= i < |questions| && questions[i].id in selectedAnswers :: questions[i].questionNumber
  }

  /** No two questions share a question number. */
  predicate NumbersDistinct(questions: seq<PublicQuestion>)
  {
    forall i, j :: 0 <= i < j < |questions| ==> questions[i].questionNumber != questions[j].questionNumber
  }

  /** The answered set of a list with one more question at its end. */
  lemma AnsweredSnoc(questions: seq<PublicQuestion>, selectedAnswers: map<Id, string>)
    requires |questions| > 0
    ensures var k := |questions| - 1;
      AnsweredQuestions(questions, selectedAnswers) ==
        AnsweredQuestions(questions[..k], selectedAnswers)
        + (if questions[k].id in selectedAnswers then {questions[k].questionNumber} else {})
  {
    var k := |questions| - 1;
    var init := questions[..k];
    forall x | x in AnsweredQuestions(questions, selectedAnswers)
      ensures x in AnsweredQuestions(init, selectedAnswers)
                   + (if questions[k].id in selectedAnswers then {questions[k].questionNumber} else {})
    {
      var i :| 0 <= i < |questions| && questions[i].id in selectedAnswers && questions[i].questionNumber == x;
      if i < k {
        assert init[i] == questions[i];
      }
    }
    forall x | x in AnsweredQuestions(init, selectedAnswers)
      ensures x in AnsweredQuestions(questions, selectedAnswers)
    {
      var i :| 0 <= i < |init| && init[i].id in selectedAnswers && init[i].questionNumber == x;
      assert questions[i] == init[i];
    }
  }

  /** Adding a last question with a number of its own adds one answered
      number exactly when that question has a selection. */
  lemma AnsweredGrows(questions: seq<PublicQuestion>, selectedAnswers: map<Id, string>)
    requires |questions| > 0 && NumbersDistinct(questions)
    ensures var k := |questions| - 1;
      |AnsweredQuestions(questions, selectedAnswers)| ==
        |AnsweredQuestions(questions[..k], selectedAnswers)| + (if questions[k].id in selectedAnswers then 1 else 0)
  {
    var k := |questions| - 1;
    var init := questions[..k];
    AnsweredSnoc(questions, selectedAnswers);
    assert questions[k].questionNumber !in AnsweredQuestions(init, selectedAnswers) by {
      forall i | 0 <= i < k && init[i].id in selectedAnswers
        ensures init[i].questionNumber != questions[k].questionNumber
      {
        assert init[i] == questions[i];
      }
    }
  }

  /** Adding a last question with a key of its own adds one selected shown
      key exactly when that question has a selection. */
  lemma ShownSelectionsGrow(questions: seq<PublicQuestion>, selectedAnswers: map<Id, string>)
    requires |questions| > 0 && IdsDistinct(questions)
    ensures var k := |questions| - 1;
      |selectedAnswers.Keys * IdsOf(questions)| ==
        |selectedAnswers.Keys * IdsOf(questions[..k])| + (if questions[k].id in selectedAnswers then 1 else 0)
  {
    var k := |questions| - 1;
    var init := questions[..k];
    IdsOfSnoc(questions);
    assert questions[k].id !in IdsOf(init) by {
      forall i | 0 <= i < k
        ensures init[i].id != questions[k].id
      {
        assert init[i] == questions[i];
      }
    }
    IntersectAdd(selectedAnswers.Keys, IdsOf(init), questions[k].id);
  }

  /** With distinct keys and distinct numbers, the answered set has one
      number per shown question that has a selection. */
  lemma {:induction false} AnsweredCountShown(questions: seq<PublicQuestion>, selectedAnswers: map<Id, string>)
    requires IdsDistinct(questions) && NumbersDistinct(questions)
    ensures |AnsweredQuestions(questions, selectedAnswers)| == |selectedAnswers.Keys * IdsOf(questions)|
  {
    if |questions| == 0 {
      assert AnsweredQuestions(questions, selectedAnswers) == {};
      assert IdsOf(questions) == {};
    } else {
      var k := |questions| - 1;
      var init := questions[..k];
      assert forall i :: 0 <= i < k ==> init[i] == questions[i];
      assert IdsDistinct(init) && NumbersDistinct(init);
      AnsweredCountShown(init, selectedAnswers);
      AnsweredGrows(questions, selectedAnswers);
      ShownSelectionsGrow(questions, selectedAnswers);
    }
  }

  /** Intersecting with a set grown by one element `x` outside it. */
  lemma IntersectAdd<T>(keys: set<T>, a: set<T>, x: T)
    requires x !in a
    ensures keys * (a + {x}) == keys * a + (if x in keys then {x} else {})
    ensures x !in keys * a
  {
  }

  /** `answeredQuestions.size` on the progress bar: with distinct keys,
      distinct numbers and selections only for shown questions, it equals
      the number of selections and `questions.length` minus the unanswered
      count, so the bar is full exactly when submitting does not ask for
      confirmation. */
  lemma AnsweredCount(questions: seq<PublicQuestion>, selectedAnswers: map<Id, string>)
    requires IdsDistinct(questions) && NumbersDistinct(questions)
    requires selectedAnswers.Keys <= IdsOf(questions)
    ensures |AnsweredQuestions(questions, selectedAnswers)| == |selectedAnswers.Keys|
    ensures |AnsweredQuestions(questions, selectedAnswers)| == |questions| - Unanswered(Some(questions), selectedAnswers)
    ensures |AnsweredQuestions(questions, selectedAnswers)| == |questions| <==>
      forall i :: 0 <= i < |questions| ==> questions[i].id in selectedAnswers
  {
    AnsweredCountShown(questions, selectedAnswers);
    assert selectedAnswers.Keys * IdsOf(questions) == selectedAnswers.Keys;
    UnansweredMeansMissing(questions, selectedAnswers);
  }

  /** The body of a save request. */
  datatype SaveRequest = SaveRequest(questionId: Id, selectedOption: Option<string>)

  /** The save request for a question: the stored selection, or null when
      there is none (`answer || null`, so an empty selection is sent as
      null too). */
  function SaveFor(q: PublicQuestion, selectedAnswers: map<Id, string>): (r: SaveRequest)
    ensures r.questionId == q.id
    ensures r.selectedOption.Some? <==> q.id in selectedAnswers && selectedAnswers[q.id] != ""
    ensures r.selectedOption.Some? ==> r.selectedOption.value == selectedAnswers[q.id]
  {
    SaveRequest(q.id, if q.id in selectedAnswers && selectedAnswers[q.id] != "" then Some(selectedAnswers[q.id]) else None)
  }

  /** Selecting again for the same question keeps the number of entries;
      a first selection adds one. */
  lemma SelectionCount(m: map<Id, string>, k: Id, v: string)
    ensures k in m ==> |m[k := v].Keys| == |m.Keys|
    ensures k !in m ==> |m[k := v].Keys| == |m.Keys| + 1
  {
    assert m[k := v].Keys == m.Keys + {k};
  }

  // ---------------------------------------------------------------------
  // The screen's state
  // ---------------------------------------------------------------------

  /** The state of one mounted exam screen. The request logs stand for the
      mutations the screen fires. */
  class ExamView {
    var session: Option<SessionView>
    var questions: Option<seq<PublicQuestion>>
    var currentQuestionIndex: int
    var selectedAnswers: map<Id, string>
    var saveRequests: seq<SaveRequest>
    var startRequests: nat
    var submitRequests: nat

    /** The index is on a question whenever there is one, and selections
        are only ever made for shown questions. */
    ghost predicate Valid()
      reads this
    {
      && 0 <= currentQuestionIndex
      && (questions.None? ==> currentQuestionIndex == 0 && selectedAnswers == map[])
      && (questions.Some? ==>
            && IdsDistinct(questions.value)
            && (|questions.value| > 0 ==> currentQuestionIndex < |questions.value|)
            && (|questions.value| == 0 ==> currentQuestionIndex == 0)
            && selectedAnswers.Keys <= IdsOf(questions.value))
    }

    /** The question the index is on, if any. */
    function Current(): (r: Option<PublicQuestion>)
      reads this
      ensures r.Some? <==> questions.Some? && 0 <= currentQuestionIndex < |questions.value|
      ensures r.Some? ==> r.value == questions.value[currentQuestionIndex]
    {
      if questions.Some? && 0 <= currentQuestionIndex < |questions.value| then
        Some(questions.value[currentQuestionIndex])
      else None
    }

    constructor(session: Option<SessionView>, questions: Option<seq<PublicQuestion>>)
      requires questions.Some? ==> IdsDistinct(questions.value)
      ensures Valid()
      ensures this.session == session && this.questions == questions
      ensures currentQuestionIndex == 0 && selectedAnswers == map[]
      ensures saveRequests == [] && startRequests == 0 && submitRequests == 0
    {
      this.session := session;
      this.questions := questions;
      currentQuestionIndex := 0;
      selectedAnswers := map[];
      saveRequests := [];
      startRequests := 0;
      submitRequests := 0;
    }

    /** `saveCurrentAnswer`: one save request for the current question, if
        there is one. */
    method SaveCurrentAnswer()
      modifies this`saveRequests
      ensures saveRequests == old(saveRequests) +
        (if Current().Some? then [SaveFor(Current().value, selectedAnswers)] else [])
    {
      if questions.None? {
        return;
      }
      if 0 <= currentQuestionIndex < |questions.value| {
        var currentQuestion := questions.value[currentQuestionIndex];
        saveRequests := saveRequests + [SaveFor(currentQuestion, selectedAnswers)];
      }
    }

    /** `handleAnswerSelect`: the current question's entry becomes the
        option. With no current question the property access throws, which
        `threw` reports. */
    method HandleAnswerSelect(option: string) returns (threw: bool)
      requires Valid()
      modifies this`selectedAnswers
      ensures Valid()
      ensures threw <==> questions.Some? && Current().None?
      ensures Current().Some? ==> selectedAnswers == old(selectedAnswers)[Current().value.id := option]
      ensures Current().None? ==> selectedAnswers == old(selectedAnswers)
    {
      if questions.None? {
        return false;
      }
      if !(0 <= currentQuestionIndex < |questions.value|) {
        return true;
      }
      var currentQuestion := questions.value[currentQuestionIndex];
      selectedAnswers := selectedAnswers[currentQuestion.id := option];
      threw := false;
    }

    /** `handleNext`: nothing at the last question; otherwise save, then
        move on by one. */
    method HandleNext()
      requires Valid()
      modifies this`currentQuestionIndex, this`saveRequests
      ensures Valid()
      ensures questions.None? || old(currentQuestionIndex) >= |questions.value| - 1 ==>
        currentQuestionIndex == old(currentQuestionIndex) && saveRequests == old(saveRequests)
      ensures questions.Some? && old(currentQuestionIndex) < |questions.value| - 1 ==>
        currentQuestionIndex == old(currentQuestionIndex) + 1 &&
        saveRequests == old(saveRequests) + [SaveFor(questions.value[old(currentQuestionIndex)], selectedAnswers)]
    {
      if questions.None? || currentQuestionIndex >= |questions.value| - 1 {
        return;
      }
      SaveCurrentAnswer();
      currentQuestionIndex := currentQuestionIndex + 1;
    }

    /** `handlePrevious`: nothing at the first question; otherwise save,
        then move back by one. */
    method HandlePrevious()
      requires Valid()
      modifies this`currentQuestionIndex, this`saveRequests
      ensures Valid()
      ensures old(currentQuestionIndex) <= 0 ==>
        currentQuestionIndex == old(currentQuestionIndex) && saveRequests == old(saveRequests)
      ensures old(currentQuestionIndex) > 0 ==>
        currentQuestionIndex == old(currentQuestionIndex) - 1 &&
        saveRequests == old(saveRequests) + [SaveFor(questions.value[old(currentQuestionIndex)], selectedAnswers)]
    {
      if currentQuestionIndex <= 0 {
        return;
      }
      SaveCurrentAnswer();
      currentQuestionIndex := currentQuestionIndex - 1;
    }

    /** `handleQuestionSelect`: save, then go to the question with that
        position. The palette only offers 1 to the number of questions. */
    method HandleQuestionSelect(questionNumber: int)
      requires Valid()
      requires questions.Some? && 1 <= questionNumber <= |questions.value|
      modifies this`currentQuestionIndex, this`saveRequests
      ensures Valid()
      ensures currentQuestionIndex == questionNumber - 1
      ensures saveRequests == old(saveRequests) + [SaveFor(questions.value[old(currentQuestionIndex)], selectedAnswers)]
    {
      SaveCurrentAnswer();
      currentQuestionIndex := questionNumber - 1;
    }

    /** The ten-second autosave: a save of the current question once the
        exam has started and the questions are loaded. */
    method AutosaveTick()
      requires Valid()
      modifies this`saveRequests
      ensures !ExamStarted(session) || questions.None? ==> saveRequests == old(saveRequests)
      ensures ExamStarted(session) && questions.Some? ==>
        saveRequests == old(saveRequests) +
          (if Current().Some? then [SaveFor(Current().value, selectedAnswers)] else [])
    {
      if !ExamStarted(session) || questions.None? {
        return;
      }
      SaveCurrentAnswer();
    }

    /** `handleStartExam`: the start request only for a pending session. */
    method HandleStartExam()
      modifies this`startRequests
      ensures startRequests == old(startRequests) +
        (if session.Some? && session.value.status == Pending then 1 else 0)
    {
      if session.Some? && session.value.status == Pending {
        startRequests := startRequests + 1;
      }
    }

    /** `handleSubmit`: with unanswered questions the candidate is asked
        first and `confirmed` is the answer; the submit request goes out
        unless they decline. */
    method HandleSubmit(confirmed: bool) returns (asked: bool)
      requires Valid()
      modifies this`submitRequests
      ensures asked <==>
        (questions.Some? &&
         exists i :: 0 <= i < |questions.value| && questions.value[i].id !in selectedAnswers)
      ensures submitRequests == old(submitRequests) + (if !asked || confirmed then 1 else 0)
    {
      if questions.Some? {
        UnansweredMeansMissing(questions.value, selectedAnswers);
      }
      var unanswered := Unanswered(questions, selectedAnswers);
      asked := unanswered > 0;
      if asked && !confirmed {
        return;
      }
      submitRequests := submitRequests + 1;
    }

    /** `handleTimeUp`: the submit request goes out without asking. */
    method HandleTimeUp()
      modifies this`submitRequests
      ensures submitRequests == old(submitRequests) + 1
    {
      submitRequests := submitRequests + 1;
    }
  }
}
