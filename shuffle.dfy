/**
  The in-place Fisher-Yates shuffle that orders each deck at the start of a
  round. The loop walks the indices from the last one down to 1 and swaps
  the element at index i with the one at an index j in [0, i]. The random
  draw of j is not modelled: the caller supplies the choices as a sequence
  `js` in which `js[i]` is the index drawn at step i (`js[0]` is never used).
 */
module FisherYates {

  /** `js` supplies one admissible random index for every step of a shuffle of n elements. */
  predicate ValidChoices(js: seq<nat>, n: nat) {
    |js| == n && forall k :: 0 <= k < n ==> js[k] <= k
  }

  /** `s` with the elements at indices i and j exchanged. */
  function Swap<T>(s: seq<T>, i: nat, j: nat): (t: seq<T>)
    requires i < |s| && j < |s|
  {
    s[i := s[j]][j := s[i]]
  }

  /** An exchange keeps the length and the multiset of elements. */
  lemma SwapPermutes<T>(s: seq<T>, i: nat, j: nat)
    requires i < |s| && j < |s|
    ensures |Swap(s, i, j)| == |s| && multiset(Swap(s, i, j)) == multiset(s)
  {
  }

  /**
    An exchange of i with j <= i leaves everything above i alone, puts `s[j]`
    at i and is the same exchange on the prefix up to i.
   */
  lemma SwapBelow<T>(s: seq<T>, i: nat, j: nat)
    requires j <= i < |s|
    ensures Swap(s, i, j)[i] == s[j]
    ensures Swap(s, i, j)[i + 1..] == s[i + 1..]
    ensures Swap(s, i, j)[..i + 1] == Swap(s[..i + 1], i, j)
  {
  }

  /** The sequence after the loop has run its steps i, i - 1, ..., 1, in that order. */
  function Steps<T>(s: seq<T>, js: seq<nat>, i: nat): (t: seq<T>)
    requires i < |s| && ValidChoices(js, |s|)
    decreases i
  {
    if i == 0 then s else Steps(Swap(s, i, js[i]), js, i - 1)
  }

  /** The sequence after the whole shuffle with choices `js`. */
  function Shuffled<T>(s: seq<T>, js: seq<nat>): (t: seq<T>)
    requires ValidChoices(js, |s|)
  {
    if |s| == 0 then s else Steps(s, js, |s| - 1)
  }

  lemma {:induction false} StepsPermutes<T>(s: seq<T>, js: seq<nat>, i: nat)
    requires i < |s| && ValidChoices(js, |s|)
    ensures |Steps(s, js, i)| == |s|
    ensures multiset(Steps(s, js, i)) == multiset(s)
    decreases i
  {
    if i > 0 {
      SwapPermutes(s, i, js[i]);
      StepsPermutes(Swap(s, i, js[i]), js, i - 1);
    }
  }

  /** Whatever the choices, shuffling keeps the length and the multiset of elements. */
  lemma ShuffledIsPermutation<T>(s: seq<T>, js: seq<nat>)
    requires ValidChoices(js, |s|)
    ensures |Shuffled(s, js)| == |s|
    ensures multiset(Shuffled(s, js)) == multiset(s)
  {
    if |s| > 0 {
      StepsPermutes(s, js, |s| - 1);
    }
  }

  /** Steps i, ..., 1 read only the choices at indices 0..i. */
  lemma {:induction false} StepsReadsPrefix<T>(s: seq<T>, js: seq<nat>, js': seq<nat>, i: nat)
    requires i < |s| && ValidChoices(js, |s|) && ValidChoices(js', |s|)
    requires forall k :: 0 <= k <= i ==> js[k] == js'[k]
    ensures Steps(s, js, i) == Steps(s, js', i)
    decreases i
  {
    if i > 0 {
      StepsReadsPrefix(Swap(s, i, js[i]), js, js', i - 1);
    }
  }

  /** Sequences that agree from index 1 on and hold the same first element are equal. */
  lemma SameFirstAndRest<T>(s: seq<T>, t: seq<T>)
    requires |s| == |t| > 0
    requires multiset(s[..1]) == multiset(t[..1]) && s[1..] == t[1..]
    ensures s == t
  {
    assert s[..1] == [s[0]] && t[..1] == [t[0]];
    assert s[0] in multiset(t[..1]);
    assert s == s[..1] + s[1..] && t == t[..1] + t[1..];
  }

  /**
    Exchanging index i with a j <= i that holds `t[i]` fixes index i and leaves
    the prefix below i with the same elements as `t`'s.
   */
  lemma SwapIntoPlace<T>(s: seq<T>, t: seq<T>, i: nat, j: nat)
    requires |s| == |t| && j <= i < |s|
    requires multiset(s[..i + 1]) == multiset(t[..i + 1]) && s[i + 1..] == t[i + 1..]
    requires s[j] == t[i]
    ensures multiset(Swap(s, i, j)[..i]) == multiset(t[..i])
    ensures Swap(s, i, j)[i..] == t[i..]
  {
    var s' := Swap(s, i, j);
    SwapBelow(s, i, j);
    SwapPermutes(s[..i + 1], i, j);
    assert s'[..i + 1] == s'[..i] + [t[i]];
    assert t[..i + 1] == t[..i] + [t[i]];
    calc {
      multiset(s'[..i]) + multiset{t[i]};
      multiset(s'[..i + 1]);
      multiset(s[..i + 1]);
      multiset(t[..i + 1]);
      multiset(t[..i]) + multiset{t[i]};
    }
    assert multiset(s'[..i]) == multiset(s'[..i]) + multiset{t[i]} - multiset{t[i]};
    assert multiset(t[..i]) == multiset(t[..i]) + multiset{t[i]} - multiset{t[i]};
    assert s'[i..] == [t[i]] + s[i + 1..];
    assert t[i..] == [t[i]] + t[i + 1..];
  }

  /**
    Steps i, ..., 1 can turn `s` into any `t` that agrees with `s` above index i
    and holds the same elements at indices 0..i; the lemma returns choices that do so.
   */
  lemma {:induction false} StepsReach<T>(s: seq<T>, t: seq<T>, i: nat) returns (js: seq<nat>)
    requires |s| == |t| && i < |s|
    requires multiset(s[..i + 1]) == multiset(t[..i + 1]) && s[i + 1..] == t[i + 1..]
    ensures ValidChoices(js, |s|) && Steps(s, js, i) == t
    decreases i
  {
    if i == 0 {
      SameFirstAndRest(s, t);
      js := seq(|s|, k => 0);
    } else {
      assert t[..i + 1][i] == t[i];
      assert t[i] in multiset(s[..i + 1]);
      var j :| 0 <= j <= i && s[..i + 1][j] == t[i];
      SwapIntoPlace(s, t, i, j);
      var s' := Swap(s, i, j);
      var js' := StepsReach(s', t, i - 1);
      js := js'[i := j];
      StepsReadsPrefix(s', js, js', i - 1);
    }
  }

  /** Every ordering of `s` is the outcome of some admissible choice sequence. */
  lemma ShuffleReachesEveryPermutation<T>(s: seq<T>, t: seq<T>)
    requires multiset(s) == multiset(t)
    ensures exists js :: ValidChoices(js, |s|) && Shuffled(s, js) == t
  {
    assert |s| == |multiset(s)| == |multiset(t)| == |t|;
    if |s| == 0 {
      assert ValidChoices([], 0) && Shuffled(s, []) == t;
    } else {
      assert s[..|s|] == s && t[..|t|] == t;
      var js := StepsReach(s, t, |s| - 1);
      assert Shuffled(s, js) == t;
    }
  }

  /**
    Shuffles `a` in place, in the order of the loop of script.js: for i from the
    last index down to 1, exchange `a[i]` and `a[js[i]]`.
   */
  method Shuffle<T>(a: array<T>, js: seq<nat>)
    requires ValidChoices(js, a.Length)
    modifies a
    ensures a[..] == Shuffled(old(a[..]), js)
    ensures multiset(a[..]) == multiset(old(a[..]))
  {
    var i: int := a.Length - 1;
    while i > 0
      invariant -1 <= i < a.Length && (a.Length > 0 ==> i >= 0)
      invariant i >= 0 ==> Steps(a[..], js, i) == Shuffled(old(a[..]), js)
      invariant i < 0 ==> a[..] == old(a[..])
    {
      var j := js[i];
      ghost var before := a[..];
      a[i], a[j] := a[j], a[i];
      assert a[..] == Swap(before, i, j);
      i := i - 1;
    }
    ShuffledIsPermutation(old(a[..]), js);
  }
}
