/** Score recomputation and the win rule shared by answer submission and the
    session view: a session's score is recomputed from all of its answers
    rather than kept incrementally. */
module Scoring {
  import opened Wrappers
  import opened Seqs
  import opened Model

  /** Whether the session's earliest answer to `q` is marked correct. */
  predicate AnsweredCorrectly(answers: seq<UserAnswer>, q: Question)
  {
    var a := AnswerFor(answers, q.id);
    a.Some? && a.value.isCorrect
  }

  /** Sum of the scores of `qs`: the total possible score. */
  function TotalScore(qs: seq<Question>): int
  {
    if qs == [] then 0 else qs[0].score + TotalScore(qs[1..])
  }

  /** The score loop: each question adds its score when answered correctly. */
  function EarnedScore(qs: seq<Question>, answers: seq<UserAnswer>): int
  {
    if qs == [] then 0
    else (if AnsweredCorrectly(answers, qs[0]) then qs[0].score else 0) + EarnedScore(qs[1..], answers)
  }

  predicate ScoresNonNegative(qs: seq<Question>)
  {
    forall i :: 0 <= i < |qs| ==> qs[i].score >= 0
  }

  /** The earned score is the total score of the correctly answered questions. */
  lemma {:induction false} EarnedIsScoreOfCorrect(qs: seq<Question>, answers: seq<UserAnswer>)
    ensures EarnedScore(qs, answers) == TotalScore(Filter(qs, (q: Question) => AnsweredCorrectly(answers, q)))
  {
    if qs != [] {
      EarnedIsScoreOfCorrect(qs[1..], answers);
    }
  }

  /** With non-negative question scores, 0 <= earned <= total possible. */
  lemma {:induction false} EarnedBounds(qs: seq<Question>, answers: seq<UserAnswer>)
    requires ScoresNonNegative(qs)
    ensures 0 <= EarnedScore(qs, answers) <= TotalScore(qs)
  {
    if qs != [] {
      EarnedBounds(qs[1..], answers);
    }
  }

  /** `totalPossibleScore > 0 ? (currentScore / totalPossibleScore) * 100 : 0`,
      computed exactly. */
  function ScorePercentage(earned: int, total: int): real
  {
    if total > 0 then (earned as real / total as real) * 100.0 else 0.0
  }

  /** The win rule in integers: at least 80% of a positive total. */
  predicate Wins(earned: int, total: int)
  {
    total > 0 && 100 * earned >= 80 * total
  }

  /** `scorePercentage >= 80` is exactly integer cross-multiplication; a total
      of zero never wins. */
  lemma PercentageThreshold(earned: int, total: int)
    ensures ScorePercentage(earned, total) >= 80.0 <==> Wins(earned, total)
  {
    if total > 0 {
      var e, t := earned as real, total as real;
      var ratio := e / t;
      assert ratio * t == e;
      if ratio * 100.0 >= 80.0 {
        assert ratio >= 0.8;
        assert ratio * t >= 0.8 * t;
      } else {
        assert ratio < 0.8;
        assert ratio * t < 0.8 * t;
      }
    }
  }

  /** Sixteen questions worth ten points each: 14 or 13 correct answers win,
      12 lose. */
  lemma WinExamples()
    ensures ScorePercentage(140, 160) >= 80.0
    ensures ScorePercentage(130, 160) >= 80.0
    ensures ScorePercentage(120, 160) < 80.0
    ensures ScorePercentage(0, 0) < 80.0
  {
    PercentageThreshold(140, 160);
    PercentageThreshold(130, 160);
    PercentageThreshold(120, 160);
  }
}
