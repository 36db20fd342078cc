/**
  The selection and scoring state machine of one round, as pure functions on
  a value of the round's state. A card is an index into its deck; a card is
  consumed once it has taken part in an evaluated pair, whether the pair
  matched or not, and a consumed card ignores further clicks.
 */
module Round {
  import opened Wrappers
  import opened Dataset
  import opened FisherYates

  /** The two columns of cards: terms and translations. */
  datatype Kind = WordCard | TranslationCard

  /** A mismatch as recorded: the term and the translation the player chose for it. */
  datatype IncorrectPair = IncorrectPair(english: string, vietnamese: string)

  datatype RoundState = RoundState(
    wordDeck: seq<string>,
    translationDeck: seq<string>,
    wordConsumed: seq<bool>,
    translationConsumed: seq<bool>,
    selectedWord: Option<nat>,
    selectedTranslation: Option<nat>,
    score: nat,
    completedPairs: nat,
    incorrectPairs: seq<IncorrectPair>)

  /**
    What a click did: nothing, a new pending selection, or an evaluation.
    `roundComplete` is the moment the game schedules the end of the round
    (script.js:134); `matched` is the outcome of the lookup, for the caller
    (the page itself treats both outcomes alike: same sound, same mark).
   */
  datatype Event = Ignored | Selected | Evaluated(matched: bool, roundComplete: bool)

  datatype Step = Step(next: RoundState, event: Event)

  /** A click on card `card` of column `kind`. */
  datatype Click = Click(kind: Kind, card: nat)

  /** The number of consumed cards in a column. */
  function Count(s: seq<bool>): (n: nat) {
    if s == [] then 0 else (if s[0] then 1 else 0) + Count(s[1..])
  }

  lemma {:induction false} CountBound(s: seq<bool>)
    ensures Count(s) <= |s|
  {
    if s != [] {
      CountBound(s[1..]);
    }
  }

  /** Consuming a card that was not consumed adds exactly one to the count. */
  lemma {:induction false} CountConsume(s: seq<bool>, i: nat)
    requires i < |s| && !s[i]
    ensures Count(s[i := true]) == Count(s) + 1
  {
    if i == 0 {
      assert s[i := true][1..] == s[1..];
    } else {
      assert s[i := true][1..] == s[1..][i - 1 := true];
      CountConsume(s[1..], i - 1);
    }
  }

  /** A column whose count equals its length has every card consumed. */
  lemma {:induction false} CountFull(s: seq<bool>)
    requires Count(s) == |s|
    ensures forall i :: 0 <= i < |s| ==> s[i]
  {
    if s != [] {
      CountBound(s[1..]);
      CountFull(s[1..]);
      assert forall i :: 1 <= i < |s| ==> s[i] == s[1..][i - 1];
    }
  }

  /** Both decks and both columns of flags have one entry per vocabulary pair; pending cards exist. */
  predicate WellFormed(v: Vocab, r: RoundState) {
    && |r.wordDeck| == v.Size() && |r.translationDeck| == v.Size()
    && |r.wordConsumed| == v.Size() && |r.translationConsumed| == v.Size()
    && (r.selectedWord.Some? ==> r.selectedWord.value < v.Size())
    && (r.selectedTranslation.Some? ==> r.selectedTranslation.value < v.Size())
  }

  /**
    The invariant of a round: the word list is well formed, the decks are orderings of the dataset's terms
    and translations, a pending card is never a consumed one, every evaluated
    pair consumed exactly one card of each column, every evaluated pair either
    scored or was recorded as a mistake, and every recorded mistake is a real
    one about a known term.
   */
  predicate Inv(v: Vocab, r: RoundState) {
    && Valid(v)
    && WellFormed(v, r)
    && multiset(r.wordDeck) == multiset(v.words)
    && multiset(r.translationDeck) == multiset(v.translations)
    && (r.selectedWord.Some? ==> !r.wordConsumed[r.selectedWord.value])
    && (r.selectedTranslation.Some? ==> !r.translationConsumed[r.selectedTranslation.value])
    && r.completedPairs == Count(r.wordConsumed) == Count(r.translationConsumed)
    && r.completedPairs == r.score + |r.incorrectPairs|
    && forall k :: 0 <= k < |r.incorrectPairs| ==>
         r.incorrectPairs[k].english in v.table && v.table[r.incorrectPairs[k].english] != r.incorrectPairs[k].vietnamese
  }

  /** The lookup script.js scores by: an unknown term matches nothing. */
  predicate IsMatch(v: Vocab, word: string, translation: string) {
    word in v.table && v.table[word] == translation
  }

  function AllFalse(n: nat): (s: seq<bool>)
    ensures |s| == n && Count(s) == 0
  {
    if n == 0 then [] else [false] + AllFalse(n - 1)
  }

  /**
    The state at the start of a round: both decks freshly shuffled copies of
    the dataset's keys and values, no card consumed, nothing pending, nothing scored.
   */
  function Initial(v: Vocab, jsWords: seq<nat>, jsTranslations: seq<nat>): (r: RoundState)
    requires ValidChoices(jsWords, |v.words|) && ValidChoices(jsTranslations, |v.translations|)
  {
    RoundState(Shuffled(v.words, jsWords), Shuffled(v.translations, jsTranslations),
               AllFalse(v.Size()), AllFalse(v.Size()), None, None, 0, 0, [])
  }

  /** Whether card `card` of column `kind` is consumed. */
  function IsConsumed(v: Vocab, r: RoundState, kind: Kind, card: nat): (consumed: bool)
    requires WellFormed(v, r) && card < v.Size()
  {
    if kind == WordCard then r.wordConsumed[card] else r.translationConsumed[card]
  }

  /**
    Evaluates the pending pair: consumes both cards, scores the pair or
    records it as a mistake, clears both pending selections and counts the pair.
   */
  function Evaluate(v: Vocab, r: RoundState): (r': RoundState)
    requires WellFormed(v, r) && r.selectedWord.Some? && r.selectedTranslation.Some?
    ensures WellFormed(v, r')
  {
    var w := r.selectedWord.value;
    var t := r.selectedTranslation.value;
    var word := r.wordDeck[w];
    var translation := r.translationDeck[t];
    var matched := IsMatch(v, word, translation);
    r.(wordConsumed := r.wordConsumed[w := true],
       translationConsumed := r.translationConsumed[t := true],
       score := if matched then r.score + 1 else r.score,
       incorrectPairs := if matched then r.incorrectPairs
                         else r.incorrectPairs + [IncorrectPair(word, translation)],
       selectedWord := None,
       selectedTranslation := None,
       completedPairs := r.completedPairs + 1)
  }

  /**
    A click on card `card` of column `kind`: ignored on a consumed card;
    otherwise it becomes the pending card of its column, and the pair is
    evaluated as soon as both columns have a pending card.
   */
  function Select(v: Vocab, r: RoundState, kind: Kind, card: nat): (s: Step)
    requires WellFormed(v, r) && card < v.Size()
    ensures WellFormed(v, s.next)
  {
    if IsConsumed(v, r, kind, card) then Step(r, Ignored)
    else
      var r1 := if kind == WordCard then r.(selectedWord := Some(card))
                else r.(selectedTranslation := Some(card));
      if r1.selectedWord.Some? && r1.selectedTranslation.Some? then
        var matched := IsMatch(v, r1.wordDeck[r1.selectedWord.value],
                               r1.translationDeck[r1.selectedTranslation.value]);
        var r2 := Evaluate(v, r1);
        Step(r2, Evaluated(matched, r2.completedPairs == v.Size()))
      else
        Step(r1, Selected)
  }

  predicate ValidClicks(v: Vocab, clicks: seq<Click>) {
    forall k :: 0 <= k < |clicks| ==> clicks[k].card < v.Size()
  }

  /** The state after a sequence of clicks. */
  function Play(v: Vocab, r: RoundState, clicks: seq<Click>): (r': RoundState)
    requires WellFormed(v, r) && ValidClicks(v, clicks)
    decreases |clicks|
  {
    if clicks == [] then r
    else Play(v, Select(v, r, clicks[0].kind, clicks[0].card).next, clicks[1..])
  }

  /** The events a sequence of clicks produces, in order. */
  function Trace(v: Vocab, r: RoundState, clicks: seq<Click>): (events: seq<Event>)
    requires WellFormed(v, r) && ValidClicks(v, clicks)
    decreases |clicks|
  {
    if clicks == [] then []
    else
      var s := Select(v, r, clicks[0].kind, clicks[0].card);
      [s.event] + Trace(v, s.next, clicks[1..])
  }

  /** How many times an event sequence schedules the end of the round. */
  function RoundEnds(events: seq<Event>): (n: nat) {
    if events == [] then 0
    else (if events[0].Evaluated? && events[0].roundComplete then 1 else 0) + RoundEnds(events[1..])
  }

  // ------------------------------------------------------------------
  // Properties of the state machine
  // ------------------------------------------------------------------

  /** A term in a deck that holds every term once is a key of the dataset. */
  lemma DeckWordIsKey(v: Vocab, r: RoundState, w: nat)
    requires Inv(v, r) && w < v.Size()
    ensures r.wordDeck[w] in v.table
  {
    assert r.wordDeck[w] in multiset(r.wordDeck);
    assert r.wordDeck[w] in multiset(v.words);
  }

  /** In a list without repetitions every element occurs exactly once. */
  lemma {:induction false} DistinctOccursOnce<T>(s: seq<T>, x: T)
    requires Distinct(s)
    ensures multiset(s)[x] == if x in s then 1 else 0
  {
    if s != [] {
      assert s == [s[0]] + s[1..];
      assert Distinct(s[1..]) by {
        forall i, j | 0 <= i < j < |s[1..]| ensures s[1..][i] != s[1..][j] {
          assert s[1..][i] == s[i + 1] && s[1..][j] == s[j + 1];
        }
      }
      DistinctOccursOnce(s[1..], x);
      assert s[0] !in s[1..] by {
        forall k | 0 <= k < |s[1..]| ensures s[1..][k] != s[0] {
          assert s[1..][k] == s[k + 1];
        }
      }
    }
  }

  /**
    A round start resets score, count, mistakes and both pending selections,
    and deals both decks so that each holds every term, or every translation,
    of the dataset exactly once.
   */
  lemma InitialIsFreshRound(v: Vocab, jsWords: seq<nat>, jsTranslations: seq<nat>)
    requires Valid(v) && ValidChoices(jsWords, v.Size()) && ValidChoices(jsTranslations, v.Size())
    ensures var r := Initial(v, jsWords, jsTranslations);
      && Inv(v, r)
      && r.score == 0 && r.completedPairs == 0 && r.incorrectPairs == []
      && r.selectedWord == None && r.selectedTranslation == None
      && (forall i :: 0 <= i < v.Size() ==> !r.wordConsumed[i] && !r.translationConsumed[i])
      && (forall w :: multiset(r.wordDeck)[w] == if w in v.table then 1 else 0)
      && (forall t :: multiset(r.translationDeck)[t] == if t in v.table.Values then 1 else 0)
  {
    var r := Initial(v, jsWords, jsTranslations);
    ShuffledIsPermutation(v.words, jsWords);
    ShuffledIsPermutation(v.translations, jsTranslations);
    assert forall i :: 0 <= i < v.Size() ==> !r.wordConsumed[i] by {
      AllFalseIsAllFalse(v.Size());
    }
    TranslationsAreValues(v);
    forall w ensures multiset(r.wordDeck)[w] == if w in v.table then 1 else 0 {
      DistinctOccursOnce(v.words, w);
    }
    forall t ensures multiset(r.translationDeck)[t] == if t in v.table.Values then 1 else 0 {
      DistinctOccursOnce(v.translations, t);
    }
  }

  lemma {:induction false} AllFalseIsAllFalse(n: nat)
    ensures forall i :: 0 <= i < n ==> !AllFalse(n)[i]
  {
    if n > 0 {
      AllFalseIsAllFalse(n - 1);
      assert forall i :: 1 <= i < n ==> AllFalse(n)[i] == AllFalse(n - 1)[i - 1];
    }
  }

  /**
    Evaluation keeps the invariant. Together with the invariant this gives
    `completedPairs == score + |incorrectPairs|` after every evaluation.
   */
  lemma EvaluatePreservesInv(v: Vocab, r: RoundState)
    requires Inv(v, r) && r.selectedWord.Some? && r.selectedTranslation.Some?
    ensures Inv(v, Evaluate(v, r))
  {
    var w := r.selectedWord.value;
    var t := r.selectedTranslation.value;
    CountConsume(r.wordConsumed, w);
    CountConsume(r.translationConsumed, t);
    DeckWordIsKey(v, r, w);
    var r' := Evaluate(v, r);
    if !IsMatch(v, r.wordDeck[w], r.translationDeck[t]) {
      assert r'.incorrectPairs[|r.incorrectPairs|] == IncorrectPair(r.wordDeck[w], r.translationDeck[t]);
    }
  }

  /** Every click keeps the invariant. */
  lemma SelectPreservesInv(v: Vocab, r: RoundState, kind: Kind, card: nat)
    requires Inv(v, r) && card < v.Size()
    ensures Inv(v, Select(v, r, kind, card).next)
  {
    if !IsConsumed(v, r, kind, card) {
      var r1 := if kind == WordCard then r.(selectedWord := Some(card))
                else r.(selectedTranslation := Some(card));
      assert Inv(v, r1);
      if r1.selectedWord.Some? && r1.selectedTranslation.Some? {
        EvaluatePreservesInv(v, r1);
      }
    }
  }

  /** A click on a consumed card changes nothing and evaluates nothing. */
  lemma SelectConsumedIsNoOp(v: Vocab, r: RoundState, kind: Kind, card: nat)
    requires WellFormed(v, r) && card < v.Size() && IsConsumed(v, r, kind, card)
    ensures Select(v, r, kind, card) == Step(r, Ignored)
  {
  }

  /**
    A click on an unconsumed card while the other column has nothing pending
    replaces the pending card of its own column and changes nothing else.
   */
  lemma SelectReplacesPending(v: Vocab, r: RoundState, kind: Kind, card: nat)
    requires WellFormed(v, r) && card < v.Size() && !IsConsumed(v, r, kind, card)
    requires if kind == WordCard then r.selectedTranslation.None? else r.selectedWord.None?
    ensures Select(v, r, kind, card).event == Selected
    ensures Select(v, r, kind, card).next ==
      if kind == WordCard then r.(selectedWord := Some(card)) else r.(selectedTranslation := Some(card))
  {
  }

  /**
    A click on an unconsumed card while the other column has a pending card
    evaluates the pair of the two, and reports whether it matched.
   */
  lemma SelectCompletesPair(v: Vocab, r: RoundState, kind: Kind, card: nat)
    requires WellFormed(v, r) && card < v.Size() && !IsConsumed(v, r, kind, card)
    requires if kind == WordCard then r.selectedTranslation.Some? else r.selectedWord.Some?
    ensures var r1 := if kind == WordCard then r.(selectedWord := Some(card)) else r.(selectedTranslation := Some(card));
      && Select(v, r, kind, card).event.Evaluated?
      && Select(v, r, kind, card).event.matched ==
           IsMatch(v, r1.wordDeck[r1.selectedWord.value], r1.translationDeck[r1.selectedTranslation.value])
      && Select(v, r, kind, card).next == Evaluate(v, r1)
  {
  }

  /**
    Evaluation consumes both pending cards and clears both selections whatever
    the outcome, leaves the decks and every other card alone, and counts the
    pair. It scores exactly when the chosen translation is the dataset's
    translation of the chosen term; then the mistakes are unchanged; otherwise
    the pair is appended to the mistakes verbatim and the score is unchanged.
   */
  lemma EvaluateOutcome(v: Vocab, r: RoundState)
    requires Inv(v, r) && r.selectedWord.Some? && r.selectedTranslation.Some?
    ensures var w, t := r.selectedWord.value, r.selectedTranslation.value;
      var word, translation := r.wordDeck[w], r.translationDeck[t];
      var r' := Evaluate(v, r);
      && r'.wordConsumed[w] && r'.translationConsumed[t]
      && (forall i :: 0 <= i < v.Size() && i != w ==> r'.wordConsumed[i] == r.wordConsumed[i])
      && (forall i :: 0 <= i < v.Size() && i != t ==> r'.translationConsumed[i] == r.translationConsumed[i])
      && r'.selectedWord == None && r'.selectedTranslation == None
      && r'.wordDeck == r.wordDeck && r'.translationDeck == r.translationDeck
      && r'.completedPairs == r.completedPairs + 1
      && word in v.table
      && (r'.score == r.score + 1 <==> v.table[word] == translation)
      && (v.table[word] == translation ==> r'.incorrectPairs == r.incorrectPairs)
      && (v.table[word] != translation ==>
            r'.score == r.score && r'.incorrectPairs == r.incorrectPairs + [IncorrectPair(word, translation)])
  {
    DeckWordIsKey(v, r, r.selectedWord.value);
  }

  /**
    No more pairs can be evaluated than there are terms, and no more can
    score than were evaluated.
   */
  lemma CompletedBounded(v: Vocab, r: RoundState)
    requires Inv(v, r)
    ensures r.score <= r.completedPairs <= v.Size()
  {
    CountBound(r.wordConsumed);
  }

  /**
    Once every pair is evaluated every card is consumed, so every further
    click is ignored.
   */
  lemma CompleteRoundIgnoresClicks(v: Vocab, r: RoundState, kind: Kind, card: nat)
    requires Inv(v, r) && r.completedPairs == v.Size() && card < v.Size()
    ensures Select(v, r, kind, card) == Step(r, Ignored)
  {
    CountFull(r.wordConsumed);
    CountFull(r.translationConsumed);
  }

  /** The end of the round is scheduled exactly when the count reaches the number of terms. */
  lemma RoundCompleteExactlyAtN(v: Vocab, r: RoundState, kind: Kind, card: nat)
    requires Inv(v, r) && card < v.Size()
    ensures var s := Select(v, r, kind, card);
      (s.event.Evaluated? && s.event.roundComplete) <==>
      (s.next.completedPairs == v.Size() && r.completedPairs < v.Size())
  {
    CompletedBounded(v, r);
    if r.completedPairs == v.Size() {
      CompleteRoundIgnoresClicks(v, r, kind, card);
    }
  }

  /** Any sequence of clicks keeps the invariant. */
  lemma {:induction false} PlayPreservesInv(v: Vocab, r: RoundState, clicks: seq<Click>)
    requires Inv(v, r) && ValidClicks(v, clicks)
    ensures Inv(v, Play(v, r, clicks))
    decreases |clicks|
  {
    if clicks != [] {
      SelectPreservesInv(v, r, clicks[0].kind, clicks[0].card);
      PlayPreservesInv(v, Select(v, r, clicks[0].kind, clicks[0].card).next, clicks[1..]);
    }
  }

  /** After a full round, no click schedules the end again. */
  lemma {:induction false} CompleteRoundNeverEndsAgain(v: Vocab, r: RoundState, clicks: seq<Click>)
    requires Inv(v, r) && r.completedPairs == v.Size() && ValidClicks(v, clicks)
    ensures RoundEnds(Trace(v, r, clicks)) == 0
    decreases |clicks|
  {
    if clicks != [] {
      CompleteRoundIgnoresClicks(v, r, clicks[0].kind, clicks[0].card);
      CompleteRoundNeverEndsAgain(v, r, clicks[1..]);
    }
  }

  /** Within one round the end of the round is scheduled at most once. */
  lemma {:induction false} RoundEndsAtMostOnce(v: Vocab, r: RoundState, clicks: seq<Click>)
    requires Inv(v, r) && ValidClicks(v, clicks)
    ensures RoundEnds(Trace(v, r, clicks)) <= if r.completedPairs == v.Size() then 0 else 1
    decreases |clicks|
  {
    if clicks != [] {
      var s := Select(v, r, clicks[0].kind, clicks[0].card);
      SelectPreservesInv(v, r, clicks[0].kind, clicks[0].card);
      RoundCompleteExactlyAtN(v, r, clicks[0].kind, clicks[0].card);
      if s.event.Evaluated? && s.event.roundComplete {
        CompleteRoundNeverEndsAgain(v, s.next, clicks[1..]);
      } else {
        RoundEndsAtMostOnce(v, s.next, clicks[1..]);
        if r.completedPairs == v.Size() {
          CompleteRoundIgnoresClicks(v, r, clicks[0].kind, clicks[0].card);
        }
      }
    }
  }
}
