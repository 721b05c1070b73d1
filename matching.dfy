/**
  Character-level answer matching: how many guessable positions of the
  correct answer the submission fills with the same character, and the
  score, with the hint deduction, that follows from those two counts.
 */
module Matching {
  import opened Wrappers
  import opened Text
  import opened Questions

  /** The full score of a question before any deduction. */
  const InitialScore: real := 100.0

  /** One position of the padded submission: a character, or the empty pad string. */
  datatype Cell = Char(c: char) | Empty

  function Cells(u: seq<char>): (r: seq<Cell>)
    ensures |r| == |u| && forall i :: 0 <= i < |u| ==> r[i] == Char(u[i])
  {
    seq(|u|, i requires 0 <= i < |u| => Char(u[i]))
  }

  /** The submission's characters followed by empty pads up to length `n`. */
  function Pad(u: seq<char>, n: nat): (r: seq<Cell>)
    requires |u| <= n
    ensures |r| == n
    ensures forall i :: 0 <= i < n ==> r[i] == if i < |u| then Char(u[i]) else Empty
  {
    Cells(u) + seq(n - |u|, _ => Empty)
  }

  /** Position `i` of the answer is guessable and the submission holds the same character there. */
  predicate MatchesAt(a: seq<char>, u: seq<Cell>, i: nat)
    requires |u| == |a| && i < |a|
  {
    IsGuessable(a[i]) && u[i] == Char(a[i])
  }

  /** The number of guessable characters, counted left to right. */
  function GuessableCount(a: seq<char>): (g: nat)
    ensures g <= |a|
  {
    if a == [] then 0
    else GuessableCount(a[..|a| - 1]) + (if IsGuessable(a[|a| - 1]) then 1 else 0)
  }

  /** The number of guessable positions the submission fills correctly, counted left to right. */
  function MatchCount(a: seq<char>, u: seq<Cell>): (m: nat)
    requires |u| == |a|
    ensures m <= GuessableCount(a)
  {
    if a == [] then 0
    else MatchCount(a[..|a| - 1], u[..|u| - 1]) + (if MatchesAt(a, u, |a| - 1) then 1 else 0)
  }

  /** Reference definitions of the two counts, as sets of positions. */
  function GuessablePositions(a: seq<char>): set<nat>
  {
    set i: nat | i < |a| && IsGuessable(a[i])
  }

  function MatchedPositions(a: seq<char>, u: seq<Cell>): set<nat>
    requires |u| == |a|
  {
    set i: nat | i < |a| && MatchesAt(a, u, i)
  }

  lemma {:induction false} GuessableCountIsPositions(a: seq<char>)
    ensures GuessableCount(a) == |GuessablePositions(a)|
  {
    if a != [] {
      var n := |a| - 1;
      GuessableCountIsPositions(a[..n]);
      assert GuessablePositions(a) ==
        GuessablePositions(a[..n]) + (if IsGuessable(a[n]) then {n} else {});
    }
  }

  lemma {:induction false} MatchCountIsPositions(a: seq<char>, u: seq<Cell>)
    requires |u| == |a|
    ensures MatchCount(a, u) == |MatchedPositions(a, u)|
  {
    if a != [] {
      var n := |a| - 1;
      MatchCountIsPositions(a[..n], u[..n]);
      assert MatchedPositions(a, u) ==
        MatchedPositions(a[..n], u[..n]) + (if MatchesAt(a, u, n) then {n} else {});
    }
  }

  /** The hint deduction: `modifiers[id]` percent off the raw score, not clamped. */
  function Deducted(raw: real, modifiers: map<string, real>, id: string): real
  {
    if id in modifiers then raw * ((100.0 - modifiers[id]) / 100.0) else raw
  }

  /**
    The score of a logged answer. Unknown questions and questions without
    answers score 0; a submission longer than the correct answer raises
    IndexError; an answer without guessable characters scores 0; otherwise
    the share of guessable positions filled correctly, scaled to 100, less the
    question's hint deduction.
   */
  function AnswerScore(questions: map<string, Question>, modifiers: map<string, real>, log: Log): Result<real, Fault>
  {
    if log.itemId !in questions || questions[log.itemId].answers == [] then Success(0.0)
    else
      var a := Normalize(questions[log.itemId].answers[0].text);
      var u := Normalize(log.text);
      if |u| > |a| then Failure(IndexError)
      else
        var guessable := GuessableCount(a);
        if guessable == 0 then Success(0.0)
        else
          var percentCorrect := MatchCount(a, Pad(u, |a|)) as real / guessable as real;
          Success(Deducted(InitialScore * percentCorrect, modifiers, log.itemId))
  }
}
