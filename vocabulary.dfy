/**
  The fixed word list of the game: ten English terms and their Vietnamese
  translations, in the order in which the dataset declares them.
  `Words` and `Translations` are the key list and the value list of the
  dataset, in that order; `Table` is the lookup table itself.
 */
module Dataset {

  /**
    A word list: the term list, the translation list (both in declaration
    order) and the term-to-translation table they come from.
   */
  datatype Vocab = Vocab(words: seq<string>, translations: seq<string>, table: map<string, string>) {
    /** The number of pairs in a round. */
    function Size(): (n: nat) {
      |words|
    }
  }

  predicate Distinct<T(==)>(s: seq<T>) {
    forall i, j :: 0 <= i < j < |s| ==> s[i] != s[j]
  }

  /**
    The term list and the translation list describe the table: the same
    length, the i-th term translates to the i-th translation, every key of
    the table is listed, and no term or translation occurs twice.
   */
  predicate Valid(v: Vocab) {
    && |v.translations| == |v.words|
    && (forall i :: 0 <= i < |v.words| ==> v.words[i] in v.table && v.table[v.words[i]] == v.translations[i])
    && (forall w :: w in v.table ==> w in v.words)
    && Distinct(v.words) && Distinct(v.translations)
  }

  const Words: seq<string> :=
    ["father", "mother", "daughter", "son", "twins",
     "clever", "cute", "kind", "polite", "cheerful"]

  const Translations: seq<string> :=
    ["bố", "mẹ", "con gái", "con trai", "anh em sinh đôi",
     "thông minh", "dễ thương", "tốt bụng", "lịch sự", "vui vẻ"]

  const Table: map<string, string> :=
    map["father" := "bố", "mother" := "mẹ", "daughter" := "con gái",
        "son" := "con trai", "twins" := "anh em sinh đôi",
        "clever" := "thông minh", "cute" := "dễ thương", "kind" := "tốt bụng",
        "polite" := "lịch sự", "cheerful" := "vui vẻ"]

  /** The game's own word list. */
  const Vocabulary: Vocab := Vocab(Words, Translations, Table)

  /** Ten pairs, as many translations as terms. */
  lemma VocabularySize()
    ensures Vocabulary.Size() == 10 && |Translations| == 10 && |Table| == 10
  {
  }

  /** The i-th term of the table translates to the i-th translation. */
  lemma KeysTranslateInOrder()
    ensures forall i :: 0 <= i < |Words| ==> Words[i] in Table && Table[Words[i]] == Translations[i]
  {
  }

  /** The term list holds exactly the keys of the table. */
  lemma WordsAreKeys()
    ensures forall w :: w in Table <==> w in Words
  {
  }

  /** No term occurs twice. */
  lemma WordsDistinct()
    ensures Distinct(Words)
  {
  }

  /** No translation occurs twice. */
  lemma TranslationsDistinct()
    ensures Distinct(Translations)
  {
  }

  /** The game's word list is well formed. */
  lemma VocabularyValid()
    ensures Valid(Vocabulary)
  {
    VocabularySize();
    KeysTranslateInOrder();
    WordsAreKeys();
    WordsDistinct();
    TranslationsDistinct();
  }

  /** In a well-formed word list the translation list holds exactly the values of the table. */
  lemma TranslationsAreValues(v: Vocab)
    requires Valid(v)
    ensures forall t :: t in v.table.Values <==> t in v.translations
  {
    forall t | t in v.table.Values ensures t in v.translations {
      var w :| w in v.table && v.table[w] == t;
      var i :| 0 <= i < |v.words| && v.words[i] == w;
    }
    forall t | t in v.translations ensures t in v.table.Values {
      var i :| 0 <= i < |v.translations| && v.translations[i] == t;
      assert v.table[v.words[i]] == t;
    }
  }
}
