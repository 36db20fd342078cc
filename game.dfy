/**
  The game engine as the page runs it: one object whose fields are the
  round's state and the display of the two controls, updated in place by
  the handlers. The two decks are arrays of card texts, a card is an index
  into its deck, and the "consumed" marks of the cards are two arrays of
  flags. The round's methods are proved against the pure state machine of
  module Round, the end-of-round and review methods against module Report.
 */
module Engine {
  import opened Wrappers
  import opened Dataset
  import opened FisherYates
  import opened Round
  import opened Report

  /** A fresh copy of `s` (the `slice` of script.js:58-59), shuffled in place with choices `js`. */
  method ShuffledCopy(s: seq<string>, js: seq<nat>) returns (a: array<string>)
    requires ValidChoices(js, |s|)
    ensures fresh(a) && a[..] == Shuffled(s, js)
  {
    a := new string[|s|](i requires 0 <= i < |s| => s[i]);
    assert a[..] == s;
    Shuffle(a, js);
  }

  /** Fresh marks for n cards, none of them consumed. */
  method UnconsumedMarks(n: nat) returns (a: array<bool>)
    ensures fresh(a) && a[..] == AllFalse(n)
  {
    a := new bool[n](_ => false);
    AllFalseIsAllFalse(n);
  }

  class Game {
    /** The word list the game is played with; the page's own one, set at page load. */
    const vocab: Vocab
    var wordDeck: array<string>
    var translationDeck: array<string>
    var wordConsumed: array<bool>
    var translationConsumed: array<bool>
    var selectedWord: Option<nat>
    var selectedTranslation: Option<nat>
    var score: nat
    var completedPairs: nat
    var incorrectPairs: seq<IncorrectPair>
    /** Whether the restart control and the review control are on display. */
    var restartShown: bool
    var reviewShown: bool

    /** The round's state as a value. */
    ghost function State(): RoundState
      reads this, wordDeck, translationDeck, wordConsumed, translationConsumed
    {
      RoundState(wordDeck[..], translationDeck[..], wordConsumed[..], translationConsumed[..],
                 selectedWord, selectedTranslation, score, completedPairs, incorrectPairs)
    }

    /** The display of the two controls as a value. */
    function ControlState(): Controls
      reads this
    {
      Controls(restartShown, reviewShown)
    }

    /** The two columns of flags are separate arrays and the round invariant holds. */
    ghost predicate Valid()
      reads this, wordDeck, translationDeck, wordConsumed, translationConsumed
    {
      wordConsumed != translationConsumed && Inv(vocab, State())
    }

    /**
      The page load: the first round starts. The display of the two controls
      before any handler runs is set by index.html, which is not part of this
      model, so it is a parameter.
     */
    constructor (jsWords: seq<nat>, jsTranslations: seq<nat>, atLoad: Controls)
      requires ValidChoices(jsWords, |Words|) && ValidChoices(jsTranslations, |Translations|)
      ensures vocab == Vocabulary
      ensures Valid() && State() == Initial(vocab, jsWords, jsTranslations)
      ensures ControlState() == atLoad
    {
      vocab := Vocabulary;
      wordDeck := new string[0];
      translationDeck := new string[0];
      wordConsumed := new bool[0];
      translationConsumed := new bool[0];
      new;
      VocabularyValid();
      StartRound(jsWords, jsTranslations);
      Display(atLoad);
    }

    /** Sets the display of the two controls and nothing else. */
    method Display(c: Controls)
      requires Valid()
      modifies this
      ensures Valid() && State() == old(State())
      ensures ControlState() == c
      ensures wordDeck == old(wordDeck) && translationDeck == old(translationDeck)
      ensures wordConsumed == old(wordConsumed) && translationConsumed == old(translationConsumed)
    {
      restartShown, reviewShown := c.restart, c.review;
    }

    /**
      A round start (the page load and the restart control): clears the
      pending selections, the count, the mistakes and the score, deals two
      freshly shuffled copies of the term list and the translation list, and
      gives every card a fresh, unconsumed mark.
     */
    method StartRound(jsWords: seq<nat>, jsTranslations: seq<nat>)
      requires Dataset.Valid(vocab)
      requires ValidChoices(jsWords, |vocab.words|) && ValidChoices(jsTranslations, |vocab.translations|)
      modifies this
      ensures Valid() && State() == Initial(vocab, jsWords, jsTranslations)
      ensures fresh(wordDeck) && fresh(translationDeck) && fresh(wordConsumed) && fresh(translationConsumed)
      ensures ControlState() == old(ControlState())
    {
      var currentWords := ShuffledCopy(vocab.words, jsWords);
      var currentTranslations := ShuffledCopy(vocab.translations, jsTranslations);
      var wordMarks := UnconsumedMarks(vocab.Size());
      var translationMarks := UnconsumedMarks(vocab.Size());
      Install(currentWords, currentTranslations, wordMarks, translationMarks);
      InitialIsFreshRound(vocab, jsWords, jsTranslations);
    }

    /**
      The restart control (script.js:223-227): a new round starts and the
      restart control hides itself; the review control keeps its display.
     */
    method Restart(jsWords: seq<nat>, jsTranslations: seq<nat>)
      requires Dataset.Valid(vocab)
      requires ValidChoices(jsWords, |vocab.words|) && ValidChoices(jsTranslations, |vocab.translations|)
      modifies this
      ensures Valid() && State() == Initial(vocab, jsWords, jsTranslations)
      ensures ControlState() == AfterRestart(old(ControlState()))
      ensures !restartShown && reviewShown == old(reviewShown)
    {
      score := 0;
      StartRound(jsWords, jsTranslations);
      restartShown := false;
    }

    /** Puts the new decks and marks in place and clears the rest of the round's state. */
    method Install(words: array<string>, translations: array<string>, wordMarks: array<bool>, translationMarks: array<bool>)
      modifies this
      ensures wordDeck == words && translationDeck == translations
      ensures wordConsumed == wordMarks && translationConsumed == translationMarks
      ensures State() == RoundState(words[..], translations[..], wordMarks[..], translationMarks[..], None, None, 0, 0, [])
      ensures ControlState() == old(ControlState())
    {
      selectedWord := None;
      selectedTranslation := None;
      completedPairs := 0;
      incorrectPairs := [];
      score := 0;
      wordDeck, translationDeck := words, translations;
      wordConsumed, translationConsumed := wordMarks, translationMarks;
    }

    /**
      A click on card `card` of column `kind`. The returned event says whether
      the click was ignored, left a pending selection, or evaluated a pair,
      and whether it completed the round (when script.js schedules the end).
     */
    method SelectCard(kind: Kind, card: nat) returns (event: Event)
      requires Valid() && card < vocab.Size()
      modifies this, wordConsumed, translationConsumed
      ensures Valid()
      ensures wordDeck == old(wordDeck) && translationDeck == old(translationDeck)
      ensures wordConsumed == old(wordConsumed) && translationConsumed == old(translationConsumed)
      ensures Step(State(), event) == Select(vocab, old(State()), kind, card)
      ensures ControlState() == old(ControlState())
    {
      ghost var r := State();
      SelectPreservesInv(vocab, r, kind, card);
      var consumed := if kind == WordCard then wordConsumed[card] else translationConsumed[card];
      if consumed {
        return Ignored;
      }
      if kind == WordCard {
        selectedWord := Some(card);
      } else {
        selectedTranslation := Some(card);
      }
      if selectedWord.Some? && selectedTranslation.Some? {
        var matched, roundComplete := CheckMatch();
        event := Evaluated(matched, roundComplete);
      } else {
        event := Selected;
      }
    }

    /**
      Evaluates the pending pair: both cards become consumed, the pair scores
      or is recorded, both selections are cleared and the pair is counted.
      `roundComplete` says that every term has now been paired.
     */
    method CheckMatch() returns (matched: bool, roundComplete: bool)
      requires wordConsumed != translationConsumed
      requires WellFormed(vocab, State()) && selectedWord.Some? && selectedTranslation.Some?
      modifies this, wordConsumed, translationConsumed
      ensures wordDeck == old(wordDeck) && translationDeck == old(translationDeck)
      ensures wordConsumed == old(wordConsumed) && translationConsumed == old(translationConsumed)
      ensures State() == Evaluate(vocab, old(State()))
      ensures ControlState() == old(ControlState())
      ensures matched == IsMatch(vocab, old(wordDeck[selectedWord.value]), old(translationDeck[selectedTranslation.value]))
      ensures roundComplete == (completedPairs == vocab.Size())
    {
      var word := wordDeck[selectedWord.value];
      var translation := translationDeck[selectedTranslation.value];

      wordConsumed[selectedWord.value] := true;
      translationConsumed[selectedTranslation.value] := true;

      matched := word in vocab.table && vocab.table[word] == translation;
      if matched {
        score := score + 1;
      } else {
        incorrectPairs := incorrectPairs + [IncorrectPair(word, translation)];
      }

      selectedWord := None;
      selectedTranslation := None;
      completedPairs := completedPairs + 1;

      roundComplete := completedPairs == vocab.Size();
    }

    /**
      The end of the round: reports the score and its tier, shows the restart
      control, and shows the review control when there are mistakes. The
      round's state is left as it is.
     */
    method EndGame() returns (summary: Summary)
      requires Valid()
      modifies this
      ensures Valid() && State() == old(State())
      ensures summary == EndOfRound(vocab, State())
      ensures summary.score == score
      ensures summary.tier == TierOf(score, vocab.Size())
      ensures vocab.Size() == 10 ==> summary.tier.Some?
      ensures ControlState() == AfterEnd(old(ControlState()), State())
      ensures restartShown
      ensures completedPairs == vocab.Size() ==> (reviewShown <==> old(reviewShown) || summary.score < vocab.Size())
      ensures completedPairs == vocab.Size() ==> (reviewShown <==> old(reviewShown) || summary.tier != Some(Perfect))
    {
      CompletedBounded(vocab, State());
      if vocab.Size() == 10 {
        TiersForTen(score);
      }
      summary := Summary(score, TierOf(score, vocab.Size()));
      restartShown := true;
      if |incorrectPairs| > 0 {
        reviewShown := true;
      }
    }

    /**
      The review of mistakes, built pair by pair in the order they were made.
      Opening it hides the review control and shows the restart control.
     */
    method ShowIncorrectPairs() returns (review: seq<ReviewPair>)
      requires Valid()
      modifies this
      ensures Valid() && State() == old(State())
      ensures ControlState() == AfterReview(old(ControlState()))
      ensures review == ReviewList(vocab, incorrectPairs)
    {
      reviewShown := false;
      review := [];
      var k := 0;
      while k < |incorrectPairs|
        invariant 0 <= k <= |incorrectPairs|
        invariant review == ReviewList(vocab, incorrectPairs[..k])
      {
        var pair := incorrectPairs[k];
        review := review + [ReviewPair(pair.english, vocab.table[pair.english])];
        k := k + 1;
      }
      assert incorrectPairs[..k] == incorrectPairs;
      restartShown := true;
    }
  }
}
