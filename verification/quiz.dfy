/**
 * The quiz dashboard: a fixed list of questions answered one at a time,
 * a running count of correct answers, and a score with advice at the end.
 * Question and option texts are left out; each question is the list of its
 * options' correctness flags.
 */
module QuizDashboard {
  import opened Wrappers

  const Questions: seq<seq<bool>> := [
    [true, false, false, false],
    [true, false, false, false],
    [false, true, false, false],
    [false, true, false, false]]

  datatype Quiz = Quiz(
    questionIndex: nat,
    selectedOptionIndex: Option<int>,
    showCorrectAnswer: bool,
    correctAnswersCount: nat,
    quizFinished: bool)

  const Initial := Quiz(0, None, false, 0, false)

  const Perfect := "Excellent! You have a perfect understanding of the material."
  const Great := "Great job! Review a few areas to perfect your knowledge."
  const Good := "Good effort! Focus on reviewing the topics you missed."
  const Poor := "Needs improvement. Consider studying the material thoroughly."

  /** The `question` getter: defined while the index is in range. */
  function Question(q: Quiz): (options: seq<bool>)
    requires q.questionIndex < |Questions|
    ensures options in Questions
  {
    Questions[q.questionIndex]
  }

  /** `checkAnswer(option, index)`: record and reveal; a correct option
   *  counts, every time it is chosen. */
  function CheckAnswer(q: Quiz, isCorrect: bool, index: int): (r: Quiz)
    ensures r.selectedOptionIndex == Some(index) && r.showCorrectAnswer
    ensures r.correctAnswersCount == q.correctAnswersCount + (if isCorrect then 1 else 0)
    ensures r.questionIndex == q.questionIndex && r.quizFinished == q.quizFinished
  {
    q.(selectedOptionIndex := Some(index), showCorrectAnswer := true,
       correctAnswersCount := q.correctAnswersCount + (if isCorrect then 1 else 0))
  }

  /** `nextOrFinish`: the next question with a fresh selection, or, on the
   *  last question, the end of the quiz with the index left where it is. */
  function NextOrFinish(q: Quiz): (r: Quiz)
    ensures q.questionIndex < |Questions| ==> r.questionIndex < |Questions|
    ensures r.quizFinished <==> q.quizFinished || q.questionIndex >= |Questions| - 1
    ensures r.correctAnswersCount == q.correctAnswersCount
    ensures !r.quizFinished ==> r.questionIndex == q.questionIndex + 1 && r.selectedOptionIndex.None? && !r.showCorrectAnswer
  {
    if q.questionIndex < |Questions| - 1 then
      q.(questionIndex := q.questionIndex + 1, selectedOptionIndex := None, showCorrectAnswer := false)
    else q.(quizFinished := true)
  }

  /** The score, in percent of the questions. */
  function Score(q: Quiz): (s: real)
    ensures s >= 0.0
    ensures s <= 100.0 <==> q.correctAnswersCount <= |Questions|
    ensures s == 100.0 <==> q.correctAnswersCount == |Questions|
  {
    (q.correctAnswersCount as real / |Questions| as real) * 100.0
  }

  /** The advice for a score: 100, at least 75, at least 50, below. */
  function Advice(score: real): (a: string)
    ensures a == Perfect <==> score == 100.0
    ensures a == Great <==> score != 100.0 && score >= 75.0
    ensures a == Poor <==> score < 50.0
  {
    if score == 100.0 then Perfect
    else if score >= 75.0 then Great
    else if score >= 50.0 then Good
    else Poor
  }

  /** `getResults`. */
  function Results(q: Quiz): (r: (real, string))
    ensures r.1 == Advice(r.0) && r.0 == Score(q)
  {
    (Score(q), Advice(Score(q)))
  }

  /** `restartQuiz`. */
  function Restart(q: Quiz): (r: Quiz)
    ensures r == Initial
  {
    Quiz(0, None, false, 0, false)
  }

  /** How many of the chosen options are correct, question by question. */
  function CorrectChoices(choices: seq<nat>): (n: nat)
    requires |choices| <= |Questions|
    requires forall i | 0 <= i < |choices| :: choices[i] < |Questions[i]|
    ensures n <= |choices|
  {
    if choices == [] then 0
    else
      var k := |choices| - 1;
      CorrectChoices(choices[..k]) + (if Questions[k][choices[k]] then 1 else 0)
  }

  /** A session that answers each question once, choosing `choices[i]` on
   *  question `i`, and moves on after every answer. */
  function Play(choices: seq<nat>): (q: Quiz)
    requires |choices| <= |Questions|
    requires forall i | 0 <= i < |choices| :: choices[i] < |Questions[i]|
    ensures |choices| < |Questions| ==> q.questionIndex == |choices| && !q.quizFinished
    ensures |choices| == |Questions| ==> q.questionIndex == |Questions| - 1 && q.quizFinished
    ensures q.correctAnswersCount == CorrectChoices(choices)
  {
    if choices == [] then Initial
    else
      var k := |choices| - 1;
      var before := Play(choices[..k]);
      NextOrFinish(CheckAnswer(before, Question(before)[choices[k]], choices[k]))
  }

  /** At the end of such a session the score lies between 0 and 100, and
   *  it is perfect exactly when every chosen option was correct. */
  lemma SessionScore(choices: seq<nat>)
    requires |choices| == |Questions|
    requires forall i | 0 <= i < |choices| :: choices[i] < |Questions[i]|
    ensures 0.0 <= Score(Play(choices)) <= 100.0
    ensures Results(Play(choices)).1 == Perfect <==> forall i | 0 <= i < |choices| :: Questions[i][choices[i]]
  {
    AllCorrect(choices);
  }

  lemma {:induction false} AllCorrect(choices: seq<nat>)
    requires |choices| <= |Questions|
    requires forall i | 0 <= i < |choices| :: choices[i] < |Questions[i]|
    ensures CorrectChoices(choices) == |choices| <==> forall i | 0 <= i < |choices| :: Questions[i][choices[i]]
  {
    if choices != [] {
      var k := |choices| - 1;
      AllCorrect(choices[..k]);
      assert forall i | 0 <= i < k :: choices[..k][i] == choices[i];
    }
  }

  /** Nothing stops the same correct option from counting twice: clicking
   *  it five times on the first question scores 125 percent, and the
   *  advice is then not the one for a perfect score. */
  lemma RepeatedChecksCount()
    ensures var q := CheckAnswer(CheckAnswer(CheckAnswer(CheckAnswer(CheckAnswer(Initial, true, 0), true, 0), true, 0), true, 0), true, 0);
            && Score(q) == 125.0 && Results(q).1 == Great
  {
  }
}
