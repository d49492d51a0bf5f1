/** The part of `Embeddings.analogy` that does not depend on the numerics: resolving the
    three query words and walking the ranked indices to collect the answer. */
module Selection {
  import opened Wrappers
  import opened Vocabulary

  /** `[w2i[word] for word in words]`: the first word missing from the dictionary raises
      `KeyError`; otherwise every word is replaced by its index. */
  function Resolve(w2i: map<string, int>, words: seq<string>): (r: Result<seq<int>>)
    ensures r.Ok? <==> (forall k :: 0 <= k < |words| ==> words[k] in w2i)
    ensures r.Ok? ==> |r.value| == |words| && forall k :: 0 <= k < |words| ==> r.value[k] == w2i[words[k]]
    ensures r.Err? ==> exists k :: 0 <= k < |words| && r.error == KeyError(words[k]) && words[k] !in w2i
                                   && forall j :: 0 <= j < k ==> words[j] in w2i
  {
    if words == [] then Ok([])
    else if words[0] !in w2i then Err(KeyError(words[0]))
    else
      match Resolve(w2i, words[1..])
      case Err(e) => Err(e)
      case Ok(rest) => Ok([w2i[words[0]]] + rest)
  }

  /** The three query words of `analogy`, when all are known, resolve to their indices. */
  lemma ResolveThree(w2i: map<string, int>, a: string, b: string, c: string)
    requires a in w2i && b in w2i && c in w2i
    ensures Resolve(w2i, [a, b, c]) == Ok([w2i[a], w2i[b], w2i[c]])
  {
    var query := [a, b, c];
    assert query[0] == a && query[1] == b && query[2] == c;
    assert Resolve(w2i, query).value == [w2i[a], w2i[b], w2i[c]];
  }

  /** The ranked indices with every query index removed, in ranked order. */
  function Filtered(ranking: seq<int>, excluded: seq<int>): (r: seq<int>)
    ensures |r| <= |ranking|
  {
    if ranking == [] then []
    else
      var last := ranking[|ranking| - 1];
      Filtered(ranking[..|ranking| - 1], excluded) + (if last in excluded then [] else [last])
  }

  /** `[i2w[idx] for idx in idxs]`. */
  function Words(i2w: seq<string>, idxs: seq<int>): seq<string>
    requires forall x :: x in idxs ==> 0 <= x < |i2w|
  {
    seq(|idxs|, k requires 0 <= k < |idxs| => assert idxs[k] in idxs; i2w[idxs[k]])
  }

  function Min(a: int, b: int): int {
    if a <= b then a else b
  }

  /** The indices the selection loop keeps: the first `n` eligible ones when `n` is
      positive, and ALL of them when `n <= 0`, since the `len(nn_words) == n` test only
      runs after an append and so never succeeds for such `n`. */
  function TopIndices(ranking: seq<int>, excluded: seq<int>, n: int): (r: seq<int>)
    ensures r <= Filtered(ranking, excluded)
    ensures 1 <= n ==> |r| == Min(n, |Filtered(ranking, excluded)|)
    ensures n <= 0 ==> r == Filtered(ranking, excluded)
  {
    var eligible := Filtered(ranking, excluded);
    if 1 <= n <= |eligible| then eligible[..n] else eligible
  }

  /** The words `analogy` returns for a given ranking and resolved query indices. */
  function NearestWords(i2w: seq<string>, ranking: seq<int>, excluded: seq<int>, n: int): seq<string>
    requires forall x :: x in ranking ==> 0 <= x < |i2w|
  {
    var top := TopIndices(ranking, excluded, n);
    FilteredMembers(ranking, excluded);
    assert forall x :: x in top ==> x in Filtered(ranking, excluded);
    Words(i2w, top)
  }

  /** The loop at core.py:34-40: walk the ranking, skip query indices, append, and stop
      as soon as the list has exactly `n` entries. */
  method SelectNearest(i2w: seq<string>, ranking: seq<int>, excluded: seq<int>, n: int)
    returns (nnWords: seq<string>)
    requires forall x :: x in ranking ==> 0 <= x < |i2w|
    ensures nnWords == NearestWords(i2w, ranking, excluded, n)
  {
    nnWords := [];
    ghost var picked: seq<int> := [];
    var i := 0;
    while i < |ranking|
      invariant 0 <= i <= |ranking|
      invariant picked == Filtered(ranking[..i], excluded)
      invariant forall x :: x in picked ==> 0 <= x < |i2w|
      invariant nnWords == Words(i2w, picked)
      invariant n >= 1 ==> |nnWords| < n
    {
      var idx := ranking[i];
      FilteredStep(ranking, excluded, i);
      i := i + 1;
      if idx in excluded {
        continue;
      }
      assert idx in ranking;
      WordsSnoc(i2w, picked, idx);
      nnWords := nnWords + [i2w[idx]];
      picked := picked + [idx];
      if |nnWords| == n {
        FilteredPrefix(ranking, excluded, i);
        assert TopIndices(ranking, excluded, n) == picked;
        return;
      }
    }
    assert ranking[..i] == ranking;
    assert TopIndices(ranking, excluded, n) == picked;
  }

  /** One more ranked entry extends the filtered prefix by at most that entry. */
  lemma FilteredStep(ranking: seq<int>, excluded: seq<int>, i: int)
    requires 0 <= i < |ranking|
    ensures Filtered(ranking[..i + 1], excluded)
            == Filtered(ranking[..i], excluded) + (if ranking[i] in excluded then [] else [ranking[i]])
  {
    assert ranking[..i + 1][..i] == ranking[..i];
  }

  lemma WordsSnoc(i2w: seq<string>, idxs: seq<int>, x: int)
    requires forall y :: y in idxs ==> 0 <= y < |i2w|
    requires 0 <= x < |i2w|
    ensures Words(i2w, idxs + [x]) == Words(i2w, idxs) + [i2w[x]]
  {
  }

  /** An index survives the filter exactly when it is ranked and is not a query index. */
  lemma {:induction false} FilteredMembers(ranking: seq<int>, excluded: seq<int>)
    ensures forall x :: x in Filtered(ranking, excluded) <==> x in ranking && x !in excluded
  {
    if ranking != [] {
      var init := ranking[..|ranking| - 1];
      assert ranking == init + [ranking[|ranking| - 1]];
      FilteredMembers(init, excluded);
    }
  }

  /** Filtering distributes over concatenation, so it keeps the ranked order. */
  lemma {:induction false} FilteredAppend(r1: seq<int>, r2: seq<int>, excluded: seq<int>)
    ensures Filtered(r1 + r2, excluded) == Filtered(r1, excluded) + Filtered(r2, excluded)
    decreases |r2|
  {
    if r2 == [] {
      assert r1 + r2 == r1;
    } else {
      var init := r2[..|r2| - 1];
      assert (r1 + r2)[..|r1 + r2| - 1] == r1 + init;
      FilteredAppend(r1, init, excluded);
    }
  }

  /** What the loop has collected after `k` ranked entries is a prefix of the full
      filtered ranking. */
  lemma FilteredPrefix(ranking: seq<int>, excluded: seq<int>, k: int)
    requires 0 <= k <= |ranking|
    ensures Filtered(ranking[..k], excluded) <= Filtered(ranking, excluded)
  {
    assert ranking == ranking[..k] + ranking[k..];
    FilteredAppend(ranking[..k], ranking[k..], excluded);
  }

  /** The closed form of `TopIndices`: the answer is the word image of a prefix of the
      filtered ranking, of length `min(n, #eligible)` for positive `n` and `#eligible`
      otherwise; in particular it never exceeds a positive `n`. */
  lemma NearestWordsShape(i2w: seq<string>, ranking: seq<int>, excluded: seq<int>, n: int)
    requires forall x :: x in ranking ==> 0 <= x < |i2w|
    ensures TopIndices(ranking, excluded, n) <= Filtered(ranking, excluded)
    ensures |NearestWords(i2w, ranking, excluded, n)| == |TopIndices(ranking, excluded, n)|
            == if n >= 1 then Min(n, |Filtered(ranking, excluded)|) else |Filtered(ranking, excluded)|
    ensures n >= 1 ==> |NearestWords(i2w, ranking, excluded, n)| <= n
  {
  }

  /** Every returned word is the word at a ranked index that is not a query index; the
      exclusion is by index, so a different index spelled like a query word may appear. */
  lemma NearestExcludesQueryIndices(i2w: seq<string>, ranking: seq<int>, excluded: seq<int>, n: int)
    requires forall x :: x in ranking ==> 0 <= x < |i2w|
    ensures var top := TopIndices(ranking, excluded, n);
            forall k :: 0 <= k < |top| ==>
              top[k] in ranking && top[k] !in excluded && NearestWords(i2w, ranking, excluded, n)[k] == i2w[top[k]]
  {
    var eligible := Filtered(ranking, excluded);
    FilteredMembers(ranking, excluded);
    var top := TopIndices(ranking, excluded, n);
    forall k | 0 <= k < |top|
      ensures top[k] in ranking && top[k] !in excluded
    {
      assert top[k] == eligible[k];
      assert eligible[k] in eligible;
    }
  }

  /** No entry occurs twice. */
  ghost predicate Distinct(s: seq<int>) {
    forall i, j :: 0 <= i < j < |s| ==> s[i] != s[j]
  }

  /** The set of entries of a sequence. */
  ghost function Elements(s: seq<int>): set<int> {
    set x | x in s
  }

  /** `ranking` lists each of `0..N-1` exactly once, as `np.flip(np.argsort(...))` does. */
  ghost predicate IsPermutation(ranking: seq<int>, N: nat) {
    |ranking| == N && Distinct(ranking) && forall x :: x in ranking <==> 0 <= x < N
  }

  lemma {:induction false} FilteredDistinct(ranking: seq<int>, excluded: seq<int>)
    requires Distinct(ranking)
    ensures Distinct(Filtered(ranking, excluded))
  {
    if ranking != [] {
      var init, last := ranking[..|ranking| - 1], ranking[|ranking| - 1];
      assert ranking == init + [last];
      FilteredDistinct(init, excluded);
      FilteredMembers(init, excluded);
      assert last !in init;
    }
  }

  lemma {:induction false} DistinctCard(s: seq<int>)
    requires Distinct(s)
    ensures |Elements(s)| == |s|
  {
    if s != [] {
      var init, last := s[..|s| - 1], s[|s| - 1];
      assert s == init + [last];
      DistinctCard(init);
      assert Elements(s) == Elements(init) + {last};
      assert last !in Elements(init);
    }
  }

  /** With a full ranking of `N` indices, the number of eligible entries is `N` minus the
      number of distinct query indices. */
  lemma EligibleCount(ranking: seq<int>, excluded: seq<int>, N: nat)
    requires IsPermutation(ranking, N)
    requires forall x :: x in excluded ==> 0 <= x < N
    ensures |Filtered(ranking, excluded)| == N - |Elements(excluded)|
  {
    var f := Filtered(ranking, excluded);
    FilteredDistinct(ranking, excluded);
    DistinctCard(f);
    DistinctCard(ranking);
    FilteredMembers(ranking, excluded);
    var all, ex := Elements(ranking), Elements(excluded);
    assert Elements(f) == all - ex;
    assert ex <= all by {
      forall x | x in ex ensures x in all {
        assert x in excluded;
      }
    }
    assert all == (all - ex) + ex;
    assert (all - ex) * ex == {};
  }

  /** The result size of `analogy` for a full ranking: `min(n, N - q)` for positive `n`,
      where `q` is the number of distinct query indices, and `N - q` (every non-query
      word) for `n <= 0`. */
  lemma NearestWordsCount(i2w: seq<string>, ranking: seq<int>, excluded: seq<int>, n: int)
    requires IsPermutation(ranking, |i2w|)
    requires forall x :: x in excluded ==> 0 <= x < |i2w|
    ensures var eligible := |i2w| - |Elements(excluded)|;
            |NearestWords(i2w, ranking, excluded, n)| == if n >= 1 then Min(n, eligible) else eligible
  {
    EligibleCount(ranking, excluded, |i2w|);
    NearestWordsShape(i2w, ranking, excluded, n);
  }

  /** In the vocabulary king, man, woman, queen the three query words are 0, 1 and 2. */
  lemma KingManWomanResolve(w2i: map<string, int>)
    requires IsWordIndex(["king", "man", "woman", "queen"], w2i)
    ensures Resolve(w2i, ["king", "man", "woman"]) == Ok([0, 1, 2])
  {
    var i2w := ["king", "man", "woman", "queen"];
    DistinctWordsInvert(i2w, w2i);
    assert i2w[0] == "king" && i2w[1] == "man" && i2w[2] == "woman";
    ResolveThree(w2i, "king", "man", "woman");
  }

  /** Of any ranking of four indices, only index 3 survives the query indices 0, 1, 2. */
  lemma OnlyQueenIsEligible(ranking: seq<int>)
    requires IsPermutation(ranking, 4)
    ensures Filtered(ranking, [0, 1, 2]) == [3]
  {
    var excluded := [0, 1, 2];
    assert Elements(excluded) == {0, 1, 2};
    EligibleCount(ranking, excluded, 4);
    var eligible := Filtered(ranking, excluded);
    assert |eligible| == 1;
    FilteredMembers(ranking, excluded);
    assert eligible[0] in eligible;
    assert eligible[0] in ranking && eligible[0] !in excluded;
    assert eligible[0] == 3;
  }

  /** "king" - "man" + "woman": the query words resolve to the indices 0, 1 and 2, and
      whatever order the similarity ranking puts the four words in (ties included), the
      only non-query word is "queen", so it is the answer for every `n`. */
  lemma KingQueenAnalogy(w2i: map<string, int>, ranking: seq<int>, n: int)
    requires IsWordIndex(["king", "man", "woman", "queen"], w2i)
    requires IsPermutation(ranking, 4)
    ensures Resolve(w2i, ["king", "man", "woman"]) == Ok([0, 1, 2])
    ensures NearestWords(["king", "man", "woman", "queen"], ranking, [0, 1, 2], n) == ["queen"]
  {
    KingManWomanResolve(w2i);
    OnlyQueenIsEligible(ranking);
  }

  /** `n = 0` does not give an empty answer: it gives every eligible word. */
  lemma ZeroBudgetReturnsAll()
    ensures NearestWords(["cat", "dog", "cow", "owl"], [3, 2, 1, 0], [0, 1, 1], 0) == ["owl", "cow"]
  {
    var ranking := [3, 2, 1, 0];
    assert ranking[..3] == [3, 2, 1] && ranking[..2] == [3, 2] && ranking[..1] == [3];
    assert Filtered([3, 2, 1, 0], [0, 1, 1]) == [3, 2] by {
      assert [3, 2, 1][..2] == [3, 2] && [3, 2][..1] == [3] && [3][..0] == [];
    }
  }

  /** With words `["cat", "dog", "cat"]`, the query `analogy("cat", "dog", "dog")`
      resolves "cat" to index 2, and can still answer "cat", the word at index 0. */
  lemma DuplicateSpellingCanBeReturned(w2i: map<string, int>)
    requires IsWordIndex(["cat", "dog", "cat"], w2i)
    ensures Resolve(w2i, ["cat", "dog", "dog"]) == Ok([2, 1, 1])
    ensures NearestWords(["cat", "dog", "cat"], [0, 1, 2], [2, 1, 1], 5) == ["cat"]
  {
    DuplicateResolvesToLast(w2i);
    ResolveThree(w2i, "cat", "dog", "dog");
    assert [0, 1, 2][..2] == [0, 1] && [0, 1][..1] == [0] && [0][..0] == [];
    assert Filtered([0, 1, 2], [2, 1, 1]) == [0];
  }
}
