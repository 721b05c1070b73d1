# Crossword answer scorer, in Dafny

This project models the score module of a crossword trivia widget: the
`Crossword` class in `src/_score/score_module.py`. The class holds one play
session's scoring state. Its main job is to score a submitted answer
character by character against the question's first correct answer:

- both texts are lower-cased;
- the submission is padded on the right to the answer's length;
- the scorer counts the answer's guessable positions (letters and digits);
- it also counts how many of those positions the submission fills with the
  same character;
- the score is `100 * matched / guessable`, less the question's hint
  deduction percentage when one exists.

The class also records each answer's score in the session totals, builds the
reveal pattern shown to the player (blanks over letters and digits become `_`), picks an
answer's feedback, and builds the results overview.

Modules:

- `Wrappers`: `Option` and `Result`.
- `Text`: ASCII lower-casing and character classes, and string normalization.
- `Questions`: the question, answer and log records, and the feedback search.
- `Matching`: the counts and the score as functions (`GuessableCount`,
  `MatchCount`, `AnswerScore`), with reference definitions as sets of
  positions.
- `ScoreProperties`: lemmas about the score: guard cases, bounds, modifier
  scaling, identity, case-insensitivity, position-exact matching and padding.
- `Reveal`: the reveal pattern as a function, and lemmas about it.
- `ScoreModule`: the `Crossword` class. Its methods work step by step, as the
  source does:
  - `CountMatches` runs the counting loop.
  - `GetSsAnswer` overwrites blanks in place.
  - `HandleLogQuestionAnswered` updates the fields.
  - `GetOverviewItems` builds the overview by appending.

  `CountMatches`, `CheckAnswer` and `GetSsAnswer` are proved equal to the
  functions above. `HandleLogQuestionAnswered` states the new state in terms
  of the old state and `AnswerScore`. `GetOverviewItems` states the list it
  returns item by item.
- `Scenarios`: the "Sun" worked examples, and a session that answers one
  question twice.

Scores are Dafny `real`s, so `matched / guessable` and the deduction are
exact. A Python exception is a `Failure(IndexError)` result.

Three behaviours of the code are worth knowing:

- A submission longer than the correct answer raises `IndexError`. The loop
  at `src/_score/score_module.py:64-65` reads the answer's character list past
  its end. `AnswerScore` returns `Failure(IndexError)`.
  `HandleLogQuestionAnswered` then leaves the totals and the stored scores
  unchanged; only `canInteract` has become true.
- The reveal pattern (`src/_score/score_module.py:95-107`) is as long as the
  longer of the answer and the submission. Only a space over a letter or
  digit of the answer becomes `_`. A wrong character is shown as submitted.
- A second answer to the same question is not refused. It overwrites the
  stored score and counts again in both totals (`Scenarios.AnswerTwice`).

## Model

| member | source | states |
|---|---|---|
| `Text.Lower` | src/_score/score_module.py:89-90 | an upper-case letter becomes the lower-case letter at the same place in the alphabet; every other character is unchanged; the result is never upper-case and is guessable exactly when the input is |
| `Text.Normalize` | src/_score/score_module.py:89-90 | the character list has the string's length and holds, position by position, the lower-cased characters of the string; it is lower-case throughout and guessable exactly where the string is |
| `Text.IsGuessable` | src/_score/score_module.py:92-93 | no contract of its own: a character is guessable when it is an ASCII letter or digit; `Lower` and `Normalize` state that lower-casing keeps it guessable or not |
| `Text.LowerEqualIffSameUpToCase` | src/_score/score_module.py:90 | two characters lower-case to the same character exactly when they are equal or are one letter in upper and lower case |
| `Text.NormalizeIdempotent` | src/_score/score_module.py:26-30 | lowering the log text before scoring, then again inside scoring, equals lowering once |
| `Text.NormalizeEqualIffEqualIgnoringCase` | src/_score/score_module.py:54-57 | two texts normalize to the same character list exactly when they have the same length and, at each position, equal characters or one letter in upper and lower case |
| `Questions.Feedback` | src/_score/score_module.py:109-113 | returns the feedback of the first answer whose options carry one, and none exactly when no answer carries one |
| `Matching.Pad` | src/_score/score_module.py:59-60 | the padded submission has the answer's length, keeps the submitted characters and holds the empty pad past them |
| `Matching.GuessableCount` | src/_score/score_module.py:62-66 | the guessable count never exceeds the answer's length |
| `Matching.MatchCount` | src/_score/score_module.py:62-68 | the match count never exceeds the guessable count |
| `Matching.Deducted` | src/_score/score_module.py:77-82 | no contract of its own: the raw score times (100 - d) / 100 when the question has a deduction d, else the raw score; `ModifierScalesScore` and `DeductedInRange` state its properties |
| `Matching.AnswerScore` | src/_score/score_module.py:42-85 | no contract of its own: the score of a logged answer, or IndexError; `CheckAnswer` is proved equal to it and the `ScoreProperties` lemmas state its properties |
| `Matching.GuessableCountIsPositions` | src/_score/score_module.py:64-66 | the guessable count is the number of positions holding a letter or digit in the lower-cased answer |
| `Matching.MatchCountIsPositions` | src/_score/score_module.py:64-68 | the match count is the number of guessable positions where the submission holds the same character |
| `ScoreProperties.GuardCasesScoreZero` | src/_score/score_module.py:43-51 | an unknown id scores 0; a question without answers scores 0; an answer without letters or digits scores 0 for any submission not longer than it |
| `ScoreProperties.RaisesIffSubmissionLonger` | src/_score/score_module.py:59-65 | scoring raises IndexError exactly when the question is known, has answers, and the submission is longer than its first answer |
| `ScoreProperties.DeductedInRange` | src/_score/score_module.py:77-82 | a raw score in [0, 100], with no deduction or one between 0 and 100 percent, stays in [0, 100] |
| `ScoreProperties.ScoreInRange` | src/_score/score_module.py:73-82 | with no deduction, or one between 0 and 100 percent, a score lies in [0, 100] |
| `ScoreProperties.ModifierScalesScore` | src/_score/score_module.py:77-82 | a deduction of d percent, for any d and without clamping, multiplies the undeducted score by (100 - d) / 100; both raise or neither does |
| `ScoreProperties.SelfMatchIsFull` | src/_score/score_module.py:64-68 | the answer matched against itself fills every guessable position |
| `ScoreProperties.GuessableCountPositive` | src/_score/score_module.py:63-71 | the guessable count is positive exactly when some character is a letter or digit |
| `ScoreProperties.CorrectAnswerScoresFull` | src/_score/score_module.py:53-82 | with no deduction, a submission equal to the answer in any letter case scores 100 when it has a letter or digit |
| `ScoreProperties.ScoreIgnoresCase` | src/_score/score_module.py:54-57 | two submissions that differ only in letter case get the same score, or both raise |
| `ScoreProperties.MatchCountPositionExact` | src/_score/score_module.py:64-68 | the match count depends only on whether each guessable position holds the answer's own character there |
| `ScoreProperties.DisjointSubmissionScoresZero` | src/_score/score_module.py:64-73 | a submission that misses every guessable position scores 0, with or without a deduction; transposed letters are such misses |
| `ScoreProperties.PaddingNeverMatches` | src/_score/score_module.py:59-68 | pad positions past the submission's end never match: the match count is at most the guessable count of the answer's prefix that the submission covers |
| `ScoreProperties.ShortSubmissionMissesOne` | src/_score/score_module.py:59-68 | a guessable answer position past the submission's end leaves the match count below the guessable count |
| `ScoreProperties.ShortSubmissionNotFull` | src/_score/score_module.py:59-82 | pad positions still count as guessable: a guessable position past the submission's end keeps the score below 100 |
| `Reveal.SpacePadded` | src/_score/score_module.py:100-102 | the submission padded with spaces to the answer's length, unchanged when already as long |
| `Reveal.RevealPattern` | src/_score/score_module.py:95-107 | no contract of its own: the reveal pattern of a submission; `GetSsAnswer` is proved equal to it and `RevealShape` describes it position by position |
| `Reveal.RevealShape` | src/_score/score_module.py:95-107 | the pattern's length is the longer of answer and submission; within the submission '_' appears exactly where a space sits over a guessable answer position, and elsewhere the lower-cased submitted character; past its end guessable positions show '_' and the others a space |
| `Reveal.RevealIsLowerCase` | src/_score/score_module.py:98-107 | a reveal pattern is unchanged by lower-casing |
| `Reveal.RevealIdempotent` | src/_score/score_module.py:95-107 | revealing a pattern against the same answer again gives the same pattern |
| `Reveal.RevealOfCorrectAnswer` | src/_score/score_module.py:95-107 | a submission equal to the answer in any letter case reveals as the lower-cased answer, with no '_' |
| `ScoreModule.Crossword.constructor` | src/_score/score_module.py:7-15 | a new session has no modifiers, no scores, zero points lost and hint deductions, zero counters and cannot interact yet; the base module's state is taken as given |
| `ScoreModule.Crossword.HandleLogQuestionAnswered` | src/_score/score_module.py:20-39 | sets canInteract; the score is AnswerScore of the log; on success the score is stored under the id (no other entry changes), the question count grows by exactly 1 and the verified total by the score; on IndexError nothing else changes |
| `ScoreModule.Crossword.CountMatches` | src/_score/score_module.py:59-68 | the counting loop returns MatchCount and GuessableCount over the padded submission, and raises IndexError when the submission is longer than the answer |
| `ScoreModule.Crossword.CheckAnswer` | src/_score/score_module.py:42-85 | the returned score is AnswerScore of the questions, modifiers and log, so every ScoreProperties lemma holds of it |
| `ScoreModule.Crossword.GetSsAnswer` | src/_score/score_module.py:95-107 | the in-place blank-filling loop returns RevealPattern of the first answer and the submission; a question without answers raises IndexError |
| `ScoreModule.Crossword.GetOverviewItems` | src/_score/score_module.py:115-121 | "Hint Deductions" comes first exactly when the hint deductions are negative (3 items, else 2), then "Points Lost", then "Final Score" with the calculated percentage |
| `Scenarios.SunExamples` | src/_score/score_module.py:42-85 | for answer "Sun": "sun" scores 100, "s n" scores 200/3, "sun" with a 50 percent hint scores 50, unknown id "q99" scores 0, "suns" raises |
| `Scenarios.AnswerTwice` | src/_score/score_module.py:20-39 | answering one question twice leaves the second score stored and adds 2 to the question count and both scores to the verified total |

## Left out

- The base class `ScoreModule` from `scoring.module` is not part of this model.
  The fields it supplies (`questions`, `total_questions`, `verified_score`,
  `calculated_percent`) are constructor inputs. Its percentage calculation
  and its `play_id`, `instance` and `play` arguments are left out.
- The `print` diagnostics are I/O. Only the returned score is modelled.
- Log records are a single `Log(itemId, text)` record. The attribute-or-key
  access to the log is left out. So is the write-back of the lower-cased
  text into the log object, which is visible only to the caller.
- Item ids are strings already; the `str(...)` conversion of the raw id is
  left out.
- `str.lower`, `str.isalpha` and `str.isdigit` are restricted to ASCII.
  Unicode lower-casing, which can change a string's length, is not
  captured. Neither are non-ASCII letters and digits.
- Scores are exact reals, not IEEE floats. Rounding is not modelled.
- Malformed question records are not modelled: every question has an
  answer list and every answer a text, so the KeyErrors of missing keys
  cannot occur. Feedback values are strings.
- Only `IndexError` is modelled among the exceptions.
- `HandleLogQuestionAnswered` returns the score, or the raised `IndexError`.
  The source returns nothing and lets the exception propagate.
- Filling `modifiers` from hint events is left out. `modifiers` is a public
  field that the host assigns. `HINT_INTERACTION` and `modifier_count` are
  declared in `score_module.py`, but nothing in that file uses them.
  `points_lost` and `hint_deductions` are set to 0 in `__init__` and never
  updated in that file, so the model only reads them.
