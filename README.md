# Vocabulary matching game: a verified model of its engine

The game shows ten English terms in one column and their ten Vietnamese
translations in another, each column shuffled. The player clicks one card of
each column to form a pair. Every pair is evaluated at once: both cards are
consumed, and the pair scores if the chosen translation is the term's own.
When all ten terms have been paired, the round ends with a score, a feedback
tier and, if there were mistakes, a review of them.

This project models that engine in Dafny and proves what it promises. The model
has five parts:

- `vocabulary.dfy` (module `Dataset`): the fixed word list as a `Vocab` value
  (term list, translation list, lookup table) and the proof that the game's
  own list is well formed: ten distinct terms, ten distinct translations, the
  i-th term translating to the i-th translation.
- `shuffle.dfy` (module `FisherYates`): the in-place Fisher–Yates shuffle as a
  method on an `array`. The random index of each step is supplied by the
  caller as a sequence `js` with `js[i] <= i`. It is proved against the
  function `Shuffled`, and `Shuffled` is proved to give a permutation, and to
  be able to give every permutation.
- `round.dfy` (module `Round`): the selection and scoring state machine as pure
  functions on a `RoundState` value. `Select` is one click, `Evaluate` is the
  evaluation of a pending pair, and `Initial` is a round start. `Inv` is the
  round invariant, and the lemmas prove that every click keeps it.
- `report.dfy` (module `Report`): the end-of-round tier of the score, the
  display of the restart and review controls as the handlers change it, and
  what the review lists.
- `game.dfy` (module `Engine`): the engine as the page runs it. It is a class
  `Game` whose fields are the round's state and the display of the two
  controls. The decks are arrays of card texts, and the consumed marks are two
  `array<bool>`. A card is an index into its deck. `StartRound`, `Restart`,
  `SelectCard` and `CheckMatch` are proved to change the round's state exactly
  as the matching function of `Round` says. `EndGame` and `ShowIncorrectPairs`
  leave the round's state alone: they are proved to report what `Report` says
  and to change the controls as `AfterEnd` and `AfterReview` say.

`Round` and `Report` are stated for any well-formed word list. The engine
uses the game's own list: its constructor sets the class constant `vocab` to
`Dataset.Vocabulary`.

The review shows each mistaken term beside its correct translation
(script.js:181-193). It never shows the translation the player chose, and
`ReviewList` models that.

The two controls are page elements that outlive a round. The end of a round
shows the review control when the round has mistakes, and only opening the
review hides it again: a restart does not. So after a round with mistakes
whose review is not opened, the control is still on display during the next
round and at its end, even when that round is perfect
(`UnreviewedControlOutlivesRestart`).

## Model

| member | source | states |
|---|---|---|
| Dataset.VocabularyValid | script.js:2-17 | the term list and the translation list are the table's keys and values in declaration order; the i-th term translates to the i-th translation; no term or translation repeats |
| Dataset.VocabularySize | script.js:2-13 | the dataset has ten pairs |
| Dataset.TranslationsAreValues | script.js:16-17 | in a well-formed list the translation list holds exactly the table's values |
| FisherYates.Shuffle | script.js:41-46 | in place, for i from the last index down to 1, swaps a[i] with a[js[i]]; the array afterwards is `Shuffled(old contents, js)` and has the same multiset of elements |
| FisherYates.ShuffledIsPermutation | script.js:41-46 | for any admissible choices (each j in [0, i]) the shuffle keeps the length and the multiset of elements |
| FisherYates.ShuffleReachesEveryPermutation | script.js:41-46 | every ordering of the input is the result of some admissible choice sequence |
| Round.InitialIsFreshRound | script.js:53-62 | a round start clears both pending selections and sets the count, the mistakes and the score to zero or empty; no card is consumed; each deck holds every term, or every translation, exactly once; the invariant holds |
| Round.SelectConsumedIsNoOp | script.js:96 | a click on a consumed card changes nothing and evaluates nothing |
| Round.SelectReplacesPending | script.js:98-110 | a click on an unconsumed card, while the other column has nothing pending, replaces its own column's pending card, leaves every other field alone and evaluates nothing |
| Round.SelectCompletesPair | script.js:108-110 | a click on an unconsumed card, while the other column has a pending card, evaluates that pair and reports whether the table translates its term to its translation |
| Round.EvaluateOutcome | script.js:114-132 | evaluation consumes both cards and clears both selections whatever the outcome, and counts the pair; the score rises by one exactly when the table translates the term to the chosen translation, and the mistakes are then unchanged; otherwise (term, chosen translation) is appended verbatim and the score is unchanged |
| Round.EvaluatePreservesInv | script.js:118-132 | evaluation keeps the round invariant, which includes `completedPairs == score + |incorrectPairs|` and one consumed card per column per evaluated pair |
| Round.SelectPreservesInv | script.js:95-137 | every click keeps the round invariant |
| Round.PlayPreservesInv | script.js:95-137 | any sequence of clicks keeps the round invariant |
| Round.CompletedBounded | script.js:120-132 | under the invariant, `score <= completedPairs <= N` |
| Round.CompleteRoundIgnoresClicks | script.js:96-121 | once all N pairs are evaluated every card is consumed, so every click is ignored |
| Round.RoundCompleteExactlyAtN | script.js:132-135 | a click schedules the end of the round exactly when it brings the count to N |
| Round.RoundEndsAtMostOnce | script.js:132-135 | within one round, any click sequence schedules the end of the round at most once |
| Report.TiersForTen | script.js:146-163 | for ten pairs every score in 0..10 gets exactly one tier: 10 Perfect, 7..9 Good, 5..6 Fair, below 5 Poor |
| Report.PerfectIffFullScore | script.js:146 | Perfect is given exactly for a score equal to the number of pairs |
| Report.TierMonotoneForTen | script.js:146-163 | for ten pairs a higher score never earns a lower tier |
| Report.EndOfRoundRevealsReviewIffImperfect | script.js:146-168 | at the end of a complete round the restart control is shown, and the review control is shown exactly when it already was or the round was imperfect (score below N, equivalently tier not Perfect); with ten pairs the score always has a tier |
| Report.ReviewedThenRestartedShowsReviewIffImperfect | script.js:165-176 | after the review has been opened and the game restarted, the end of the next round shows the review control exactly when that round was imperfect |
| Report.UnreviewedControlOutlivesRestart | script.js:223-227 | after an imperfect round whose review is not opened, the review control stays on display through the restart and at the end of a following perfect round, which has no mistakes to review |
| Report.ReviewCorrectsEveryMistake | script.js:181-193 | the review lists every mistake in order, each term beside the table's translation of it, which never equals the translation the player chose |
| Engine.Game.constructor | script.js:232 | the page load starts a round: the state is `Initial` of the game's list and the invariant holds; the controls keep their display at load |
| Engine.Game.StartRound | script.js:49-62 | the new state is exactly `Initial(vocab, js...)`: fresh shuffled deck arrays, fresh unconsumed marks, everything reset; the invariant holds; the display of the controls is unchanged |
| Engine.Game.Restart | script.js:223-227 | a new round starts exactly as `Initial` says, the restart control is hidden and the review control keeps its display |
| Engine.Game.SelectCard | script.js:95-111 | the new state and the returned event are exactly those of `Round.Select` on the old state; the invariant is kept; the deck and mark arrays stay the same objects; the display of the controls is unchanged |
| Engine.Game.CheckMatch | script.js:114-137 | the new state is exactly `Round.Evaluate` of the old; `matched` is the table lookup; `roundComplete` says the count reached the number of terms; the display of the controls is unchanged |
| Engine.Game.EndGame | script.js:140-169 | leaves the round's state alone; returns `Report.EndOfRound` of the state, that is the score and its tier, which always exists with ten pairs; shows the restart control; after a complete round the review control is shown exactly when it already was or the score is below N, equivalently the tier is not Perfect |
| Engine.Game.ShowIncorrectPairs | script.js:172-202 | builds, pair by pair, exactly `Report.ReviewList` of the recorded mistakes, leaves the round's state alone, hides the review control and shows the restart control |

## Left out

- Rendering: building and clearing the card grid, CSS classes other than the consumed mark (the `correct` class), the `selected` highlight, message texts and colours, and showing or hiding the score display (script.js:25-31, 64-91, 141-145, 173-200). These are presentation only. The display of the restart and review controls is modelled.
- The display of the two controls at page load is set by index.html, which is not part of this model; the constructor takes it as a parameter.
- Report.EndOfRoundRevealsReviewIffImperfect: the iff between the review control and an imperfect round holds only when the control was hidden before the end of the round; a restart does not hide it (only script.js:176 does), so a stale control can be on display at the end of a perfect round.
- Engine.Game.EndGame: the review control is tied to an imperfect round only together with its display before the call, for the same reason; the method never hides the control.
- Engine.Game.ShowIncorrectPairs: opening the review in the middle of a round, through a control left over from an earlier round, clears the card grid (script.js:173) and shows the restart control (script.js:201). The model does not remove the round's cards, so `SelectCard` stays callable afterwards; the page has no cards left to click until a restart.
- Audio playback (script.js:34-38, 122, 149-162): these are calls into the browser. The four tiers stand for the four sounds.
- The confetti effect (script.js:204-220): it is floating-point styling with a timed teardown.
- Timers and event wiring (script.js:135, 214, 223-232): the one-second delay before the end of the round is modelled as the `roundComplete` flag of the evaluation event, and `EndGame` is a separate call. script.js does not guard that delay. The restart control is hidden during a round, but a review control left over from an earlier round opens the review, which shows the restart control (script.js:201); a restart inside the delay would then let the old round's end run on the new round. The model does not capture that interleaving.
- The random draw `Math.floor(Math.random() * (i + 1))` (script.js:43) is not modelled: each step's index is a caller-supplied value in [0, i]. Uniformity of the shuffle is a probabilistic claim and is not stated. The model proves only that every permutation can be reached.
- Tiers for other list sizes: the tier chain is stated for the literal breakpoints of script.js:146-163. For a word list of another size a score above 9 that is not full gets no tier, as in script.js. This never happens with the game's ten pairs (`EndOfRoundRevealsReviewIffImperfect` and `Engine.Game.EndGame` with `VocabularySize`).
- Clicks on cards that do not exist: the click handlers require `card < N`, since clicks come only from rendered cards.
