/** Worked examples of the scorer on concrete questions, and a session that answers one question twice. */
module Scenarios {
  import opened Wrappers
  import opened Text
  import opened Questions
  import opened Matching
  import opened ScoreProperties
  import opened ScoreModule

  function SunQuestions(): (q: map<string, Question>)
    ensures "q1" in q && q["q1"].answers != [] && q["q1"].answers[0].text == "Sun"
  {
    map["q1" := Question([Answer("Sun", None)])]
  }

  /** "sun" against "Sun" scores 100; "s n" fills 2 of the 3 letters; a 50 percent hint halves the full score. */
  lemma SunExamples()
    ensures AnswerScore(SunQuestions(), map[], Log("q1", "sun")) == Success(100.0)
    ensures AnswerScore(SunQuestions(), map[], Log("q1", "s n")) == Success(200.0 / 3.0)
    ensures AnswerScore(SunQuestions(), map["q1" := 50.0], Log("q1", "sun")) == Success(50.0)
    ensures AnswerScore(SunQuestions(), map[], Log("q99", "sun")) == Success(0.0)
    ensures AnswerScore(SunQuestions(), map[], Log("q1", "suns")) == Failure(IndexError)
  {
    var a := Normalize("Sun");
    assert a == "sun";
    assert GuessableCount(a) == 3 by {
      assert a[..2] == "su" && a[..2][..1] == "s" && a[..2][..1][..0] == "";
    }
    CorrectAnswerScoresFull(SunQuestions(), map[], Log("q1", "sun"));
    ModifierScalesScore(SunQuestions(), map[], Log("q1", "sun"), 50.0);
    var none: map<string, real> := map[];
    assert none["q1" := 50.0] == map["q1" := 50.0];
    assert none - {"q1"} == none;
    var p := Pad(Normalize("s n"), 3);
    assert p == [Char('s'), Char(' '), Char('n')];
    assert MatchCount(a, p) == 2 by {
      assert a[..2] == "su" && p[..2] == [Char('s'), Char(' ')];
      assert a[..2][..1] == "s" && p[..2][..1] == [Char('s')];
      assert a[..2][..1][..0] == "" && p[..2][..1][..0] == [];
    }
  }

  /**
    Answering the same question twice overwrites its stored score but counts
    the question, and adds its score to the verified total, twice.
   */
  method AnswerTwice(c: Crossword, first: Log, second: Log) returns (r1: Result<real, Fault>, r2: Result<real, Fault>)
    requires first.itemId == second.itemId
    modifies c
    ensures r1.Success? && r2.Success? ==>
      c.scores == old(c.scores)[first.itemId := r2.value] &&
      c.totalQuestions == old(c.totalQuestions) + 2 &&
      c.verifiedScore == old(c.verifiedScore) + r1.value + r2.value
  {
    r1 := c.HandleLogQuestionAnswered(first);
    r2 := c.HandleLogQuestionAnswered(second);
  }
}
