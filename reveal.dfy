/**
  The reveal pattern shown to the player: the lower-cased submission,
  padded with spaces to the answer's length, where every blank sitting over
  a guessable position of the answer is shown as '_'.
 */
module Reveal {
  import opened Text

  /** The fill character for a guessable position left blank. */
  const Fill: char := '_'

  /** `p` padded on the right with spaces to length `n` (unchanged when already that long). */
  function SpacePadded(p: seq<char>, n: nat): (r: seq<char>)
    ensures |r| == if |p| < n then n else |p|
    ensures forall i :: 0 <= i < |r| ==> r[i] == if i < |p| then p[i] else ' '
  {
    if |p| < n then p + seq(n - |p|, _ => ' ') else p
  }

  /** Position `i` of the pattern, for the lower-cased answer `a` and padded submission `p`. */
  function RevealAt(a: seq<char>, p: seq<char>, i: nat): char
    requires i < |p|
  {
    if i < |a| && IsGuessable(a[i]) && p[i] == ' ' then Fill else p[i]
  }

  function RevealPattern(answerText: string, submittedText: string): string
  {
    var a := Normalize(answerText);
    var p := SpacePadded(Normalize(submittedText), |a|);
    seq(|p|, i requires 0 <= i < |p| => RevealAt(a, p, i))
  }

  /**
    The pattern is as long as the longer of answer and submission. Within the
    submission each position shows the lower-cased submitted character, or '_'
    exactly where that character is a space over a guessable answer position;
    past the submission's end each guessable answer position shows '_' and
    every other one a space.
   */
  lemma RevealShape(answerText: string, submittedText: string)
    ensures var r := RevealPattern(answerText, submittedText);
      |r| == (if |submittedText| < |answerText| then |answerText| else |submittedText|) &&
      (forall i :: 0 <= i < |submittedText| ==>
        r[i] == if i < |answerText| && IsGuessable(answerText[i]) && submittedText[i] == ' '
                then Fill else Lower(submittedText[i])) &&
      (forall i :: |submittedText| <= i < |r| ==>
        r[i] == if IsGuessable(answerText[i]) then Fill else ' ')
  {
  }

  /** Every character of a pattern is already lower case. */
  lemma RevealIsLowerCase(answerText: string, submittedText: string)
    ensures Normalize(RevealPattern(answerText, submittedText)) == RevealPattern(answerText, submittedText)
  {
  }

  /** Revealing a pattern against the same answer again changes nothing. */
  lemma RevealIdempotent(answerText: string, submittedText: string)
    ensures var r := RevealPattern(answerText, submittedText);
      RevealPattern(answerText, r) == r
  {
  }

  /** A submission equal to the answer up to letter case shows the lower-cased answer, with no '_'. */
  lemma RevealOfCorrectAnswer(answerText: string, submittedText: string)
    requires EqualIgnoringCase(submittedText, answerText)
    ensures RevealPattern(answerText, submittedText) == Normalize(answerText)
  {
  }
}
