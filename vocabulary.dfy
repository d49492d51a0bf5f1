/** The word-to-index dictionary that `Embeddings.__init__` builds from `index2word`. */
module Vocabulary {

  /** `m` is `{w: i for i, w in enumerate(i2w)}`: its keys are exactly the words of `i2w`,
      and because later entries overwrite earlier ones, each word maps to the LAST
      position that holds it. */
  ghost predicate IsWordIndex(i2w: seq<string>, m: map<string, int>) {
    && (forall w :: w in m <==> w in i2w)
    && (forall w :: w in m ==> 0 <= m[w] < |i2w| && i2w[m[w]] == w)
    && (forall w, j :: w in m && m[w] < j < |i2w| ==> i2w[j] != w)
  }

  /** The dictionary comprehension, as the loop over `enumerate(i2w)` it stands for. */
  method BuildWordIndex(i2w: seq<string>) returns (m: map<string, int>)
    ensures IsWordIndex(i2w, m)
  {
    m := map[];
    var i := 0;
    while i < |i2w|
      invariant 0 <= i <= |i2w|
      invariant IsWordIndex(i2w[..i], m)
    {
      assert i2w[..i + 1] == i2w[..i] + [i2w[i]];
      m := m[i2w[i] := i];
      i := i + 1;
    }
    assert i2w[..i] == i2w;
  }

  /** The dictionary is determined by the word list: any two maps meeting the
      description are equal. */
  lemma WordIndexUnique(i2w: seq<string>, m1: map<string, int>, m2: map<string, int>)
    requires IsWordIndex(i2w, m1) && IsWordIndex(i2w, m2)
    ensures m1 == m2
  {
  }

  /** A position is reachable by name exactly when no later position holds the same
      word: an earlier duplicate stays in `i2w` but cannot be looked up. */
  lemma ReachableIffLastOccurrence(i2w: seq<string>, m: map<string, int>, i: int)
    requires IsWordIndex(i2w, m)
    requires 0 <= i < |i2w|
    ensures (i2w[i] in m && m[i2w[i]] == i) <==> (forall j :: i < j < |i2w| ==> i2w[j] != i2w[i])
  {
  }

  /** Without duplicate words the dictionary inverts `i2w` at every position. */
  lemma DistinctWordsInvert(i2w: seq<string>, m: map<string, int>)
    requires IsWordIndex(i2w, m)
    requires forall i, j :: 0 <= i < j < |i2w| ==> i2w[i] != i2w[j]
    ensures forall i :: 0 <= i < |i2w| ==> i2w[i] in m && m[i2w[i]] == i
  {
    forall i | 0 <= i < |i2w|
      ensures i2w[i] in m && m[i2w[i]] == i
    {
      ReachableIffLastOccurrence(i2w, m, i);
    }
  }

  /** The overwrite policy on `["cat", "dog", "cat"]`: "cat" resolves to position 2. */
  lemma DuplicateResolvesToLast(m: map<string, int>)
    requires IsWordIndex(["cat", "dog", "cat"], m)
    ensures m["cat"] == 2 && m["dog"] == 1 && |m.Keys| == 2
  {
    var i2w := ["cat", "dog", "cat"];
    assert i2w[0] == "cat" && i2w[1] == "dog" && i2w[2] == "cat";
    assert "cat" in m && "dog" in m;
    ReachableIffLastOccurrence(i2w, m, 2);
    ReachableIffLastOccurrence(i2w, m, 1);
    assert m.Keys == {"cat", "dog"} by {
      forall w | w in m ensures w == "cat" || w == "dog" {
        assert w in i2w;
      }
    }
  }
}
