/** The records the scorer reads: questions with their answers, and answer logs. */
module Questions {
  import opened Wrappers

  /** One accepted answer; `options` is absent when the answer record has no "options" key. */
  datatype Answer = Answer(text: string, options: Option<map<string, string>>)

  /** A question as the host delivers it; only the first answer is scored. */
  datatype Question = Question(answers: seq<Answer>)

  /** A "question answered" log: the question's id and the player's text. */
  datatype Log = Log(itemId: string, text: string)

  /** The exception the scorer can raise: a list indexed past its end. */
  datatype Fault = IndexError

  predicate HasFeedback(a: Answer)
  {
    a.options.Some? && "feedback" in a.options.value
  }

  /** The feedback of the first answer that carries one, if any does. */
  function Feedback(answers: seq<Answer>): (r: Option<string>)
    ensures r.None? <==> forall i :: 0 <= i < |answers| ==> !HasFeedback(answers[i])
    ensures r.Some? ==>
      exists i :: 0 <= i < |answers| && HasFeedback(answers[i]) &&
        r.value == answers[i].options.value["feedback"] &&
        forall j :: 0 <= j < i ==> !HasFeedback(answers[j])
  {
    if answers == [] then None
    else if HasFeedback(answers[0]) then Some(answers[0].options.value["feedback"])
    else
      var r := Feedback(answers[1..]);
      assert forall i :: 1 <= i < |answers| ==> answers[i] == answers[1..][i - 1];
      r
  }
}
