/**
  End-of-round reporting: the feedback tier of the final score, the display
  of the restart and review controls, and what the review of mistakes lists.
 */
module Report {
  import opened Wrappers
  import opened Dataset
  import opened Round

  datatype Tier = Perfect | Good | Fair | Poor

  /**
    The feedback tier of a final score out of n, by the literal breakpoints
    of script.js:146-163. The chain has no final else: a score that is not n and
    lies above 9 gets no tier (and no message); with n = 10 that never happens.
   */
  function TierOf(score: nat, n: nat): (t: Option<Tier>) {
    if score == n then Some(Perfect)
    else if 7 <= score <= 9 then Some(Good)
    else if 5 <= score <= 6 then Some(Fair)
    else if score < 5 then Some(Poor)
    else None
  }

  /** The order of the tiers, worst first. */
  function Rank(t: Tier): (rank: nat) {
    match t
    case Poor => 0
    case Fair => 1
    case Good => 2
    case Perfect => 3
  }

  /** What the end of the round reports: the score and the tier of its message and sound. */
  datatype Summary = Summary(score: nat, tier: Option<Tier>)

  /** The report of a round: its score and the tier of that score. */
  function EndOfRound(v: Vocab, r: RoundState): (s: Summary) {
    Summary(r.score, TierOf(r.score, v.Size()))
  }

  /**
    Which of the two controls are on display. They are page elements that
    outlive a round: only the handlers below change them, and a round start
    (renderCards) touches neither.
   */
  datatype Controls = Controls(restart: bool, review: bool)

  /**
    The end of a round (script.js:165-168) shows the restart control and
    shows the review control when the round has mistakes; it never hides
    the review control.
   */
  function AfterEnd(c: Controls, r: RoundState): (d: Controls) {
    Controls(true, c.review || |r.incorrectPairs| > 0)
  }

  /** Opening the review (script.js:176, 201) hides its control and shows the restart control. */
  function AfterReview(c: Controls): (d: Controls) {
    Controls(true, false)
  }

  /** The restart control (script.js:226) hides itself and leaves the review control as it was. */
  function AfterRestart(c: Controls): (d: Controls) {
    Controls(false, c.review)
  }

  /** One pair of cards of the review: a mistaken term and its correct translation. */
  datatype ReviewPair = ReviewPair(english: string, translation: string)

  /** The review of mistakes: each recorded term, in order, beside the dataset's translation of it. */
  function ReviewList(v: Vocab, pairs: seq<IncorrectPair>): (review: seq<ReviewPair>)
    requires forall k :: 0 <= k < |pairs| ==> pairs[k].english in v.table
  {
    seq(|pairs|, k requires 0 <= k < |pairs| => ReviewPair(pairs[k].english, v.table[pairs[k].english]))
  }

  // ------------------------------------------------------------------
  // Properties of the report
  // ------------------------------------------------------------------

  /** For ten pairs every possible score gets exactly the tier of its range. */
  lemma TiersForTen(score: nat)
    requires score <= 10
    ensures TierOf(score, 10).Some?
    ensures TierOf(score, 10) == Some(Perfect) <==> score == 10
    ensures TierOf(score, 10) == Some(Good) <==> 7 <= score <= 9
    ensures TierOf(score, 10) == Some(Fair) <==> 5 <= score <= 6
    ensures TierOf(score, 10) == Some(Poor) <==> score < 5
  {
  }

  /** Perfect is given exactly for a full score, whatever the number of pairs. */
  lemma PerfectIffFullScore(score: nat, n: nat)
    ensures TierOf(score, n) == Some(Perfect) <==> score == n
  {
  }

  /** For ten pairs a higher score never earns a lower tier. */
  lemma TierMonotoneForTen(s1: nat, s2: nat)
    requires s1 <= s2 <= 10
    ensures TierOf(s1, 10).Some? && TierOf(s2, 10).Some?
    ensures Rank(TierOf(s1, 10).value) <= Rank(TierOf(s2, 10).value)
  {
  }

  /**
    The end of a round reveals the review control exactly when the round was
    not perfect, and with ten pairs the score always has a tier. A control
    that was already on display stays on display.
   */
  lemma EndOfRoundRevealsReviewIffImperfect(v: Vocab, r: RoundState, c: Controls)
    requires Inv(v, r) && r.completedPairs == v.Size()
    ensures var s, d := EndOfRound(v, r), AfterEnd(c, r);
      && (v.Size() == 10 ==> s.tier.Some?)
      && d.restart
      && (d.review <==> c.review || s.tier != Some(Perfect))
      && (d.review <==> c.review || r.score < v.Size())
  {
    if v.Size() == 10 {
      TiersForTen(r.score);
    }
  }

  /**
    Once the review has been opened, the end of the next round shows the
    review control again exactly when that round was not perfect.
   */
  lemma ReviewedThenRestartedShowsReviewIffImperfect(v: Vocab, r: RoundState, c: Controls)
    requires Inv(v, r) && r.completedPairs == v.Size()
    ensures AfterEnd(AfterRestart(AfterReview(c)), r).review <==> r.score < v.Size()
  {
  }

  /**
    A round with mistakes whose review is not opened leaves the review
    control on display through a restart, so the end of the next round shows
    it even when that round is perfect and there is nothing to review.
   */
  lemma UnreviewedControlOutlivesRestart(v: Vocab, r1: RoundState, r2: RoundState, c: Controls)
    requires Inv(v, r1) && r1.completedPairs == v.Size() && r1.score < v.Size()
    requires Inv(v, r2) && r2.completedPairs == v.Size() && r2.score == v.Size()
    ensures r2.incorrectPairs == []
    ensures AfterRestart(AfterEnd(c, r1)).review
    ensures AfterEnd(AfterRestart(AfterEnd(c, r1)), r2).review
  {
  }

  /**
    The review lists every mistake in order, each term beside the translation
    that would have matched it, which is never the one the player chose.
   */
  lemma ReviewCorrectsEveryMistake(v: Vocab, r: RoundState)
    requires Inv(v, r)
    ensures var review := ReviewList(v, r.incorrectPairs);
      && |review| == |r.incorrectPairs|
      && forall k :: 0 <= k < |review| ==>
           && review[k].english == r.incorrectPairs[k].english
           && IsMatch(v, review[k].english, review[k].translation)
           && review[k].translation != r.incorrectPairs[k].vietnamese
  {
  }
}
