/**
  The scoreboard's data: teams, their per-question results and the total
  that both pages keep beside the questions.
 */
module Scores {

  datatype Option<+T> = None | Some(value: T)

  /** A question's verdict. `NoStatus` is the admin page's "none" and the
      scoreboard's absent status. */
  datatype Status = NoStatus | Pending | Correct | Incorrect

  datatype Question = Question(score: int, isFirstSolve: bool, status: Status)

  /** A team row. The scoreboard's eight `questionsN` keys and the admin
      page's `questions` array are both a sequence here; `previousRank`,
      `isMoving` and `isHighlighting` are the display flags (an absent flag is
      `false`, an absent rank is 0). */
  datatype Team = Team(
    name: string,
    questions: seq<Question>,
    sum: int,
    previousRank: int,
    isMoving: bool,
    isHighlighting: bool)

  /** The sum of the question scores, accumulated left to right as
      `reduce((acc, q) => acc + q.score, 0)` does. */
  function Total(qs: seq<Question>): int
  {
    if |qs| == 0 then 0 else Total(qs[..|qs| - 1]) + qs[|qs| - 1].score
  }

  /** The team's `sum` is the sum of its question scores. */
  predicate SumConsistent(t: Team)
  {
    t.sum == Total(t.questions)
  }

  predicate ScoresNonNegative(qs: seq<Question>)
  {
    forall i :: 0 <= i < |qs| ==> qs[i].score >= 0
  }

  predicate UniqueNames(ts: seq<Team>)
  {
    forall i, j :: 0 <= i < j < |ts| ==> ts[i].name != ts[j].name
  }

  /** Prepending a question adds its score to the total. */
  lemma {:induction false} TotalCons(q: Question, qs: seq<Question>)
    ensures Total([q] + qs) == q.score + Total(qs)
    decreases |qs|
  {
    if |qs| > 0 {
      var n := |qs|;
      assert ([q] + qs)[..n] == [q] + qs[..n - 1];
      TotalCons(q, qs[..n - 1]);
    }
  }

  /** Replacing one question changes the total by exactly the score difference. */
  lemma {:induction false} TotalUpdate(qs: seq<Question>, i: int, q: Question)
    requires 0 <= i < |qs|
    ensures Total(qs[i := q]) == Total(qs) - qs[i].score + q.score
    decreases |qs|
  {
    var n := |qs|;
    if i == n - 1 {
      assert qs[i := q][..n - 1] == qs[..n - 1];
    } else {
      assert qs[i := q][..n - 1] == qs[..n - 1][i := q];
      TotalUpdate(qs[..n - 1], i, q);
    }
  }

  /** A total of non-negative scores is non-negative. */
  lemma {:induction false} TotalNonNegative(qs: seq<Question>)
    requires ScoresNonNegative(qs)
    ensures Total(qs) >= 0
    decreases |qs|
  {
    if |qs| > 0 {
      TotalNonNegative(qs[..|qs| - 1]);
    }
  }
}
