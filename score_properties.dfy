/** What the answer score promises, proved about `Matching.AnswerScore`. */
module ScoreProperties {
  import opened Wrappers
  import opened Text
  import opened Questions
  import opened Matching

  /** The correct answer of a known question with answers, lower-cased. */
  function CorrectChars(questions: map<string, Question>, id: string): seq<char>
    requires id in questions && questions[id].answers != []
  {
    Normalize(questions[id].answers[0].text)
  }

  predicate NoGuessable(s: string)
  {
    forall i :: 0 <= i < |s| ==> !IsGuessable(s[i])
  }

  /** The three guard cases all score 0 (the last one unless the submission is too long). */
  lemma GuardCasesScoreZero(questions: map<string, Question>, modifiers: map<string, real>, log: Log)
    ensures log.itemId !in questions ==> AnswerScore(questions, modifiers, log) == Success(0.0)
    ensures log.itemId in questions && questions[log.itemId].answers == [] ==>
      AnswerScore(questions, modifiers, log) == Success(0.0)
    ensures (log.itemId in questions && questions[log.itemId].answers != [] &&
             |log.text| <= |questions[log.itemId].answers[0].text| &&
             NoGuessable(questions[log.itemId].answers[0].text)) ==>
      AnswerScore(questions, modifiers, log) == Success(0.0)
  {
    if log.itemId in questions && questions[log.itemId].answers != [] {
      var a := CorrectChars(questions, log.itemId);
      GuessableCountIsPositions(a);
      if NoGuessable(questions[log.itemId].answers[0].text) {
        assert GuessablePositions(a) == {};
      }
    }
  }

  /** Scoring raises exactly when the submission is longer than the correct answer. */
  lemma RaisesIffSubmissionLonger(questions: map<string, Question>, modifiers: map<string, real>, log: Log)
    ensures AnswerScore(questions, modifiers, log).Failure? <==>
      log.itemId in questions && questions[log.itemId].answers != [] &&
      |log.text| > |questions[log.itemId].answers[0].text|
  {
  }

  /** A share of matched positions lies between 0 and 1. */
  lemma ShareInUnitInterval(m: nat, g: nat)
    requires m <= g && g > 0
    ensures 0.0 <= m as real / g as real <= 1.0
    ensures m == g ==> m as real / g as real == 1.0
    ensures m < g ==> m as real / g as real < 1.0
  {
  }

  /** A deduction between 0 and 100 percent keeps a raw score in [0, 100] there. */
  lemma DeductedInRange(raw: real, modifiers: map<string, real>, id: string)
    requires 0.0 <= raw <= 100.0
    requires id in modifiers ==> 0.0 <= modifiers[id] <= 100.0
    ensures 0.0 <= Deducted(raw, modifiers, id) <= 100.0
  {
    if id in modifiers {
      var f := (100.0 - modifiers[id]) / 100.0;
      assert 0.0 <= f <= 1.0;
      assert 0.0 <= raw * f <= raw;
    }
  }

  /** Without a deduction, or with one between 0 and 100 percent, the score lies in [0, 100]. */
  lemma ScoreInRange(questions: map<string, Question>, modifiers: map<string, real>, log: Log)
    requires log.itemId in modifiers ==> 0.0 <= modifiers[log.itemId] <= 100.0
    ensures AnswerScore(questions, modifiers, log).Success? ==>
      0.0 <= AnswerScore(questions, modifiers, log).value <= 100.0
  {
    if log.itemId in questions && questions[log.itemId].answers != [] {
      var a := CorrectChars(questions, log.itemId);
      var u := Normalize(log.text);
      if |u| <= |a| && GuessableCount(a) > 0 {
        var m := MatchCount(a, Pad(u, |a|));
        var g := GuessableCount(a);
        ShareInUnitInterval(m, g);
        var raw := InitialScore * (m as real / g as real);
        DeductedInRange(raw, modifiers, log.itemId);
        assert AnswerScore(questions, modifiers, log) == Success(Deducted(raw, modifiers, log.itemId));
      }
    }
  }

  /** A deduction of `d` percent multiplies the undeducted score by (100 - d) / 100, for any `d`. */
  lemma ModifierScalesScore(questions: map<string, Question>, modifiers: map<string, real>, log: Log, d: real)
    ensures
      var with := AnswerScore(questions, modifiers[log.itemId := d], log);
      var without := AnswerScore(questions, modifiers - {log.itemId}, log);
      with.Failure? == without.Failure? &&
      (with.Success? ==> with.value == without.value * ((100.0 - d) / 100.0))
  {
  }

  /** Filling every position with the answer's own character matches every guessable position. */
  lemma SelfMatchIsFull(a: seq<char>)
    ensures MatchCount(a, Pad(a, |a|)) == GuessableCount(a)
  {
    var u := Pad(a, |a|);
    assert MatchedPositions(a, u) == GuessablePositions(a);
    MatchCountIsPositions(a, u);
    GuessableCountIsPositions(a);
  }

  /** Some character is guessable exactly when the guessable count is positive. */
  lemma GuessableCountPositive(a: seq<char>)
    ensures GuessableCount(a) > 0 <==> exists i :: 0 <= i < |a| && IsGuessable(a[i])
  {
  }

  /** A submission equal to the correct answer up to letter case scores 100 when nothing is deducted. */
  lemma CorrectAnswerScoresFull(questions: map<string, Question>, modifiers: map<string, real>, log: Log)
    requires log.itemId in questions && questions[log.itemId].answers != []
    requires log.itemId !in modifiers
    requires EqualIgnoringCase(log.text, questions[log.itemId].answers[0].text)
    requires exists i :: 0 <= i < |log.text| && IsGuessable(log.text[i])
    ensures AnswerScore(questions, modifiers, log) == Success(100.0)
  {
    var a := CorrectChars(questions, log.itemId);
    var u := Normalize(log.text);
    var m := MatchCount(a, Pad(u, |a|));
    var g := GuessableCount(a);
    NormalizeEqualIffEqualIgnoringCase(log.text, questions[log.itemId].answers[0].text);
    assert u == a;
    SelfMatchIsFull(a);
    assert m == g;
    var i :| 0 <= i < |log.text| && IsGuessable(log.text[i]);
    assert IsGuessable(a[i]);
    GuessableCountPositive(a);
    assert g > 0;
    assert AnswerScore(questions, modifiers, log) == Success(InitialScore * (m as real / g as real));
    ShareInUnitInterval(m, g);
  }

  /** The score does not depend on the letter case of the submission. */
  lemma ScoreIgnoresCase(questions: map<string, Question>, modifiers: map<string, real>, id: string, s: string, t: string)
    requires EqualIgnoringCase(s, t)
    ensures AnswerScore(questions, modifiers, Log(id, s)) == AnswerScore(questions, modifiers, Log(id, t))
  {
    NormalizeEqualIffEqualIgnoringCase(s, t);
  }

  /** Matching is position-exact: only whether each guessable position matches counts. */
  lemma MatchCountPositionExact(a: seq<char>, u: seq<Cell>, v: seq<Cell>)
    requires |u| == |a| && |v| == |a|
    requires forall i :: 0 <= i < |a| && IsGuessable(a[i]) ==> (u[i] == Char(a[i]) <==> v[i] == Char(a[i]))
    ensures MatchCount(a, u) == MatchCount(a, v)
  {
  }

  /** A submission that misses every guessable position (transposed letters included) scores 0. */
  lemma DisjointSubmissionScoresZero(questions: map<string, Question>, modifiers: map<string, real>, log: Log)
    requires log.itemId in questions && questions[log.itemId].answers != []
    requires |log.text| <= |questions[log.itemId].answers[0].text|
    requires forall i :: 0 <= i < |log.text| && IsGuessable(questions[log.itemId].answers[0].text[i]) ==>
      Lower(log.text[i]) != Lower(questions[log.itemId].answers[0].text[i])
    ensures AnswerScore(questions, modifiers, log) == Success(0.0)
  {
    var a := CorrectChars(questions, log.itemId);
    var u := Pad(Normalize(log.text), |a|);
    MatchCountIsPositions(a, u);
    assert MatchedPositions(a, u) == {};
  }

  lemma SubsetCardinality(s: set<nat>, t: set<nat>)
    requires s <= t
    ensures |s| <= |t|
    ensures s != t ==> |s| < |t|
  {
    assert t == s + (t - s);
    if s != t {
      var x :| x in t - s;
    }
  }

  /** Pad positions past the end of the submission never match. */
  lemma PaddingNeverMatches(a: seq<char>, u: seq<char>)
    requires |u| <= |a|
    ensures MatchCount(a, Pad(u, |a|)) <= GuessableCount(a[..|u|])
  {
    var p := Pad(u, |a|);
    MatchCountIsPositions(a, p);
    GuessableCountIsPositions(a[..|u|]);
    assert MatchedPositions(a, p) <= GuessablePositions(a[..|u|]);
    SubsetCardinality(MatchedPositions(a, p), GuessablePositions(a[..|u|]));
  }

  /** A guessable position past the end of the submission keeps the match count below the guessable count. */
  lemma ShortSubmissionMissesOne(a: seq<char>, u: seq<char>, j: nat)
    requires |u| <= j < |a| && IsGuessable(a[j])
    ensures MatchCount(a, Pad(u, |a|)) < GuessableCount(a)
  {
    var k := |u|;
    PaddingNeverMatches(a, u);
    GuessableCountIsPositions(a);
    GuessableCountIsPositions(a[..k]);
    assert GuessablePositions(a[..k]) <= GuessablePositions(a);
    assert j in GuessablePositions(a) - GuessablePositions(a[..k]);
    SubsetCardinality(GuessablePositions(a[..k]), GuessablePositions(a));
  }

  /** Pad positions still count as guessable: a guessable position past the submission's end keeps the score below 100. */
  lemma ShortSubmissionNotFull(questions: map<string, Question>, modifiers: map<string, real>, log: Log, j: nat)
    requires log.itemId in questions && questions[log.itemId].answers != []
    requires log.itemId !in modifiers
    requires |log.text| <= j < |questions[log.itemId].answers[0].text|
    requires IsGuessable(questions[log.itemId].answers[0].text[j])
    ensures AnswerScore(questions, modifiers, log).Success?
    ensures AnswerScore(questions, modifiers, log).value < 100.0
  {
    var a := CorrectChars(questions, log.itemId);
    var u := Normalize(log.text);
    ShortSubmissionMissesOne(a, u, j);
    var m := MatchCount(a, Pad(u, |a|));
    var g := GuessableCount(a);
    ShareInUnitInterval(m, g);
    var share := m as real / g as real;
    assert AnswerScore(questions, modifiers, log) == Success(InitialScore * share);
  }
}
