/** The `Embeddings` class of embedding_gym/core.py, without its numerics: the vectors are
    values of an opaque type `V`, and the similarity ranking that `analogy` computes with
    numpy is a parameter. */
module Core {
  import opened Wrappers
  import opened Vocabulary
  import opened Selection
  import opened TextLoader

  class Embeddings<V> {
    /** `self.vectors`, `self.i2w` and `self.w2i`; nothing reassigns them after
        construction. */
    const vectors: seq<V>
    const i2w: seq<string>
    const w2i: map<string, int>

    /** One vector per word, and `w2i` is the dictionary built from `i2w`. */
    ghost predicate Valid() {
      |vectors| == |i2w| && IsWordIndex(i2w, w2i)
    }

    /** The body of `__init__` once its assertion has passed. */
    constructor (embeddings: seq<V>, index2word: seq<string>)
      requires |embeddings| == |index2word|
      ensures Valid()
      ensures vectors == embeddings && i2w == index2word
    {
      var m := BuildWordIndex(index2word);
      vectors := embeddings;
      i2w := index2word;
      w2i := m;
    }

    /** `Embeddings(embeddings, index2word)`: raises `AssertionError` exactly when the two
        lists differ in length, and otherwise stores both unchanged. */
    static method Init(embeddings: seq<V>, index2word: seq<string>) returns (r: Result<Embeddings<V>>)
      ensures r.Err? <==> |embeddings| != |index2word|
      ensures r.Err? ==> r.error == AssertionError
      ensures r.Ok? ==> fresh(r.value) && r.value.Valid()
                        && r.value.vectors == embeddings && r.value.i2w == index2word
    {
      if |embeddings| != |index2word| {
        return Err(AssertionError);
      }
      var e := new Embeddings(embeddings, index2word);
      r := Ok(e);
    }

    /** `analogy(a, b, c, n=5)` given the ranking of all indices by descending similarity:
        `KeyError` for the first of `a`, `b`, `c` not in the vocabulary; otherwise the
        words of the ranked indices that are not query indices, `n` of them when `n` is
        positive and there are enough, and all of them when `n <= 0`. The ranking comes
        before `n` so that `n` can keep its default. */
    method Analogy(a: string, b: string, c: string, ranking: seq<int>, n: int := 5) returns (r: Result<seq<string>>)
      requires Valid()
      requires forall x :: x in ranking ==> 0 <= x < |i2w|
      ensures r.Err? <==> a !in w2i || b !in w2i || c !in w2i
      ensures r.Err? ==> r.error == KeyError(if a !in w2i then a else if b !in w2i then b else c)
      ensures r.Ok? ==> r.value == NearestWords(i2w, ranking, [w2i[a], w2i[b], w2i[c]], n)
    {
      var query := [a, b, c];
      assert query[0] == a && query[1] == b && query[2] == c;
      var questionWordIndices := Resolve(w2i, query);
      if questionWordIndices.Err? {
        return Err(questionWordIndices.error);
      }
      assert a in w2i && b in w2i && c in w2i;
      assert questionWordIndices.value == [w2i[a], w2i[b], w2i[c]];
      var nnWords := SelectNearest(i2w, ranking, questionWordIndices.value, n);
      r := Ok(nnWords);
    }
  }

  /** `Embeddings.create_from_txt_file` on the split lines of the file: `IndexError` when a
      line after the header has no tokens; otherwise a store whose words and vectors are
      those of the accepted lines. The constructor's assertion always passes. */
  method CreateFromTxtFile<R>(lines: seq<seq<string>>, parse: string -> Option<R>)
    returns (r: Result<Embeddings<seq<R>>>)
    ensures r.Err? <==> Load(lines, parse).Err?
    ensures r.Err? ==> r.error == IndexError
    ensures r.Ok? ==> fresh(r.value) && r.value.Valid()
                      && r.value.i2w == Load(lines, parse).value.index
                      && r.value.vectors == Load(lines, parse).value.vectors
  {
    var table := ReadTxtLines(lines, parse);
    if table.Err? {
      return Err(table.error);
    }
    r := Embeddings.Init(table.value.vectors, table.value.index);
  }
}
