/**
  The crossword score module: the session state of one play, and the
  operations the host calls on it as answers arrive and at the end.
 */
module ScoreModule {
  import opened Wrappers
  import opened Text
  import opened Questions
  import opened Matching
  import opened Reveal

  /** One labelled line of the results screen. */
  datatype OverviewItem = OverviewItem(message: string, value: real)

  class Crossword {
    // State the base score module supplies.
    var questions: map<string, Question>
    var totalQuestions: int
    var verifiedScore: real
    var calculatedPercent: real

    // State of the crossword scorer itself.
    var pointsLost: real
    var hintDeductions: real
    /** Deduction percentage per question id, filled in by the host when a hint is used. */
    var modifiers: map<string, real>
    /** Score per question id, as last recorded. */
    var scores: map<string, real>
    var questionCounter: int
    var modifierCount: int
    var canInteract: bool

    constructor (questions: map<string, Question>, totalQuestions: int, verifiedScore: real, calculatedPercent: real)
      ensures this.questions == questions && this.totalQuestions == totalQuestions
      ensures this.verifiedScore == verifiedScore && this.calculatedPercent == calculatedPercent
      ensures pointsLost == 0.0 && hintDeductions == 0.0
      ensures modifiers == map[] && scores == map[]
      ensures questionCounter == 0 && modifierCount == 0 && !canInteract
    {
      this.questions := questions;
      this.totalQuestions := totalQuestions;
      this.verifiedScore := verifiedScore;
      this.calculatedPercent := calculatedPercent;
      pointsLost := 0.0;
      hintDeductions := 0.0;
      modifiers := map[];
      scores := map[];
      questionCounter := 0;
      modifierCount := 0;
      canInteract := false;
    }

    /**
      Records one answer: scores it, stores the score under the question id
      (overwriting an earlier one), counts the question and adds the score to
      the verified total. When scoring raises, only `canInteract` has changed.
     */
    method HandleLogQuestionAnswered(log: Log) returns (r: Result<real, Fault>)
      modifies this
      ensures r == AnswerScore(questions, modifiers, log)
      ensures canInteract
      ensures questions == old(questions) && modifiers == old(modifiers)
      ensures calculatedPercent == old(calculatedPercent)
      ensures pointsLost == old(pointsLost) && hintDeductions == old(hintDeductions)
      ensures questionCounter == old(questionCounter) && modifierCount == old(modifierCount)
      ensures r.Success? ==>
        scores == old(scores)[log.itemId := r.value] &&
        totalQuestions == old(totalQuestions) + 1 &&
        verifiedScore == old(verifiedScore) + r.value
      ensures r.Failure? ==>
        scores == old(scores) && totalQuestions == old(totalQuestions) && verifiedScore == old(verifiedScore)
    {
      canInteract := true;
      var itemId := log.itemId;
      var text := Normalize(log.text);
      NormalizeIdempotent(log.text);
      r := CheckAnswer(Log(itemId, text));
      if r.Failure? {
        return;
      }
      scores := scores[itemId := r.value];
      totalQuestions := totalQuestions + 1;
      verifiedScore := verifiedScore + r.value;
    }

    /**
      Counts the guessable positions of the answer and those the padded
      submission fills with the same character. Indexing the answer past its
      end, which happens when the submission is the longer one, raises.
     */
    method CountMatches(answerChars: seq<char>, userChars: seq<Cell>) returns (r: Result<(nat, nat), Fault>)
      requires |answerChars| <= |userChars|
      ensures |userChars| > |answerChars| ==> r == Failure(IndexError)
      ensures |userChars| == |answerChars| ==>
        r == Success((MatchCount(answerChars, userChars), GuessableCount(answerChars)))
    {
      var matchNum, guessable := 0, 0;
      for i := 0 to |userChars|
        invariant i <= |answerChars|
        invariant guessable == GuessableCount(answerChars[..i])
        invariant i <= |userChars| && matchNum == MatchCount(answerChars[..i], userChars[..i])
      {
        if i >= |answerChars| {
          return Failure(IndexError);
        }
        assert answerChars[..i + 1][..i] == answerChars[..i];
        assert userChars[..i + 1][..i] == userChars[..i];
        if IsGuessable(answerChars[i]) {
          guessable := guessable + 1;
          if Char(answerChars[i]) == userChars[i] {
            matchNum := matchNum + 1;
          }
        }
      }
      assert answerChars[..|userChars|] == answerChars;
      assert userChars[..|userChars|] == userChars;
      return Success((matchNum, guessable));
    }

    /** Scores one answer against the first answer of its question. */
    method CheckAnswer(log: Log) returns (r: Result<real, Fault>)
      ensures r == AnswerScore(questions, modifiers, log)
    {
      var itemId := log.itemId;
      if itemId !in questions {
        return Success(0.0);
      }
      var question := questions[itemId];
      if question.answers == [] {
        return Success(0.0);
      }
      var correctText := question.answers[0].text;
      var submittedText := Normalize(log.text);
      NormalizeIdempotent(log.text);

      var answerChars := Normalize(correctText);
      var userChars := Cells(Normalize(submittedText));

      var maxLen := if |answerChars| < |userChars| then |userChars| else |answerChars|;
      userChars := userChars + seq(maxLen - |userChars|, _ => Empty);
      assert |userChars| == maxLen;
      assert maxLen == |answerChars| ==> userChars == Pad(Normalize(log.text), |answerChars|);

      var counts := CountMatches(answerChars, userChars);
      if counts.Failure? {
        return Failure(counts.error);
      }
      var (matchNum, guessable) := counts.value;
      assert matchNum == MatchCount(answerChars, Pad(Normalize(log.text), |answerChars|));
      assert guessable == GuessableCount(answerChars);
      if guessable == 0 {
        return Success(0.0);
      }
      var percentCorrect := matchNum as real / guessable as real;
      var baseScore := InitialScore;
      var score;
      if itemId in modifiers {
        var deduction := modifiers[itemId];
        score := baseScore * percentCorrect * ((100.0 - deduction) / 100.0);
      } else {
        score := baseScore * percentCorrect;
      }
      assert score == Deducted(InitialScore * percentCorrect, modifiers, itemId);
      return Success(score);
    }

    /** The reveal pattern for a submission; raises when the question has no answers. */
    method GetSsAnswer(log: Log, question: Question) returns (r: Result<string, Fault>)
      ensures question.answers == [] ==> r == Failure(IndexError)
      ensures question.answers != [] ==> r == Success(RevealPattern(question.answers[0].text, log.text))
    {
      if question.answers == [] {
        return Failure(IndexError);
      }
      var correctText := question.answers[0].text;
      var answerChars := Normalize(correctText);
      var submittedChars := Normalize(log.text);
      var maxLen := if |answerChars| < |submittedChars| then |submittedChars| else |answerChars|;
      if |submittedChars| < maxLen {
        submittedChars := submittedChars + seq(maxLen - |submittedChars|, _ => ' ');
      }
      ghost var padded := submittedChars;
      assert padded == SpacePadded(Normalize(log.text), |answerChars|);
      for i := 0 to maxLen
        invariant |submittedChars| == maxLen
        invariant forall k :: 0 <= k < i ==> submittedChars[k] == RevealAt(answerChars, padded, k)
        invariant forall k :: i <= k < maxLen ==> submittedChars[k] == padded[k]
      {
        if i < |answerChars| && IsGuessable(answerChars[i]) {
          if i < |submittedChars| && submittedChars[i] == ' ' {
            submittedChars := submittedChars[i := Fill];
          }
        }
      }
      assert submittedChars == RevealPattern(correctText, log.text);
      return Success(submittedChars);
    }

    /**
      The results screen, in fixed order: "Hint Deductions" only when some
      hint deduction was taken (the total is negative), then "Points Lost",
      then "Final Score".
     */
    method GetOverviewItems() returns (overview: seq<OverviewItem>)
      ensures |overview| == if hintDeductions < 0.0 then 3 else 2
      ensures hintDeductions < 0.0 ==> overview[0] == OverviewItem("Hint Deductions", hintDeductions)
      ensures overview[|overview| - 2] == OverviewItem("Points Lost", pointsLost)
      ensures overview[|overview| - 1] == OverviewItem("Final Score", calculatedPercent)
    {
      overview := [];
      if hintDeductions < 0.0 {
        overview := overview + [OverviewItem("Hint Deductions", hintDeductions)];
      }
      overview := overview + [OverviewItem("Points Lost", pointsLost)];
      overview := overview + [OverviewItem("Final Score", calculatedPercent)];
    }
  }
}
