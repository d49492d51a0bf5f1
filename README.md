# embedding_gym core: vocabulary, analogy selection and text loading

This project models the bookkeeping inside the `Embeddings` class of
`embedding_gym/core.py` and proves properties of it. The class is a word-embedding
store. It holds a table of vectors, the word list `i2w`, and the dictionary `w2i` from
word to index. It answers analogy queries ("a is to b as c is to ?") and can be loaded
from a word2vec text file.

The numerics are not modelled. Vectors are values of an opaque type parameter. The
similarity ranking that `analogy` computes with numpy becomes a parameter: the sequence of
indices in descending score order. Float conversion becomes a parameter
`parse: string -> Option<R>`.

Modules:

- `Wrappers` (wrappers.dfy): `Option`, `Result`, and the exceptions the code raises
  (`AssertionError`, `KeyError`, `IndexError`).
- `Vocabulary` (vocabulary.dfy): the `w2i` dictionary. `IsWordIndex` describes it: its keys
  are the words of `i2w`, and each word maps to its last position. `BuildWordIndex` is the
  loop that builds it.
- `Selection` (selection.dfy): resolving the query words (`Resolve`), the ranked indices
  without the query indices (`Filtered`), the answer as a specification (`NearestWords`),
  and the selection loop itself (`SelectNearest`).
- `TextLoader` (text_loader.dfy): the per-line accept/skip/fail rule as a specification
  (`Load`) and as the loop that appends to two lists (`ReadTxtLines`).
- `Core` (core.dfy): class `Embeddings` with constant fields `vectors`, `i2w` and `w2i`; the
  checked construction `Init`; `Analogy`; and `CreateFromTxtFile`.

Two behaviours of the code are easy to misread, and the model follows the code in both:

- `analogy`'s docstring says it "Looks up n closest words to result" (core.py:21), but
  for `n <= 0` it does NOT return an empty list. `len(nn_words) == n` is checked only
  after an append, so it never holds for such `n`, and every non-query word is returned
  (`ZeroBudgetReturnsAll`, `NearestWordsCount`). This also means the answer's length is not
  bounded by `max(n, 0)`.
- An empty line after the header is not skipped. It raises `IndexError`, which the loader
  does not catch, so no store is produced (`LoadFailsIffBlankLine`).

## Model

| member | source | states |
|---|---|---|
| Vocabulary.BuildWordIndex | embedding_gym/core.py:14 | the dictionary built over `enumerate(i2w)` has exactly the words of `i2w` as keys, and maps each word to a position holding it with no later position holding it (the last occurrence wins) |
| Vocabulary.WordIndexUnique | embedding_gym/core.py:14 | that description fixes the dictionary: two maps meeting it for the same word list are equal |
| Vocabulary.ReachableIffLastOccurrence | embedding_gym/core.py:14 | position `i` is what `w2i[i2w[i]]` gives exactly when no later position has the same word, so earlier duplicates cannot be reached by name |
| Vocabulary.DistinctWordsInvert | embedding_gym/core.py:14 | with no duplicate words, `w2i[i2w[i]] == i` for every position |
| Vocabulary.DuplicateResolvesToLast | embedding_gym/core.py:14 | for `["cat", "dog", "cat"]`, "cat" maps to 2, "dog" to 1, and there are two keys |
| Core.Embeddings.constructor | embedding_gym/core.py:12-14 | stores the vectors and words unchanged, builds `w2i` as described, and establishes one vector per word |
| Core.Embeddings.Init | embedding_gym/core.py:9-14 | construction raises `AssertionError` exactly when the two lists differ in length; otherwise it gives a fresh valid store holding both lists unchanged |
| Selection.Resolve | embedding_gym/core.py:26 | succeeds exactly when every query word is a key, and then gives `w2i[word]` for each word in order; otherwise it raises `KeyError` for the first missing word |
| Selection.Filtered | embedding_gym/core.py:36 | the indices of the ranking that the `continue` does not skip, in ranked order; never more of them than the ranking has |
| Selection.TopIndices | embedding_gym/core.py:34-40 | the indices the loop keeps are a prefix of the surviving indices, `min(n, #surviving)` of them for `n >= 1`, and all of them for `n <= 0` |
| Selection.FilteredMembers | embedding_gym/core.py:35-37 | an index survives the skip exactly when it is in the ranking and is not a query index |
| Selection.FilteredAppend | embedding_gym/core.py:35-37 | skipping distributes over concatenation of rankings, so surviving indices keep their ranked order |
| Selection.FilteredPrefix | embedding_gym/core.py:34-38 | what survives from a prefix of the ranking is a prefix of what survives from the whole ranking |
| Selection.SelectNearest | embedding_gym/core.py:34-40 | the loop with its skip and its break after append returns exactly the words of the first `n` surviving indices when `1 <= n`, and all surviving indices otherwise |
| Selection.NearestWordsShape | embedding_gym/core.py:34-40 | closed form of the selection rule: the answer is the `i2w` image of a prefix of the surviving indices, of length `min(n, #surviving)` for `n >= 1` and `#surviving` for `n <= 0`, so never more than a positive `n` |
| Selection.NearestExcludesQueryIndices | embedding_gym/core.py:35-37 | every returned word is `i2w` at a ranked index that is not a query index |
| Selection.EligibleCount | embedding_gym/core.py:30-37 | when the ranking is a permutation of `0..N-1`, the number of surviving indices is `N` minus the number of distinct query indices |
| Selection.NearestWordsCount | embedding_gym/core.py:30-40 | for such a ranking the answer has `min(n, N - q)` words when `n >= 1` and `N - q` words when `n <= 0`, where `q` is the number of distinct query indices |
| Selection.ResolveThree | embedding_gym/core.py:26 | when `a`, `b` and `c` are all keys, the query resolves to `[w2i[a], w2i[b], w2i[c]]` |
| Selection.KingQueenAnalogy | embedding_gym/core.py:23-40 | for the vocabulary king, man, woman, queen, the query (king, man, woman) resolves through `w2i` to `[0, 1, 2]`, and the answer is `["queen"]` for every ranking order and every `n` |
| Selection.ZeroBudgetReturnsAll | embedding_gym/core.py:38 | with `n = 0` every non-query word is returned, for example `["owl", "cow"]` |
| Selection.DuplicateSpellingCanBeReturned | embedding_gym/core.py:26-37 | exclusion is by index: with words `["cat", "dog", "cat"]`, the query (cat, dog, dog) resolves through `w2i` to `[2, 1, 1]`, and the word "cat" from index 0 is returned |
| Core.Embeddings.Analogy | embedding_gym/core.py:16-40 | with `n` defaulting to 5, raises `KeyError` (naming the first missing of a, b, c) exactly when a query word is not in `w2i`; otherwise, given the ranking, returns `NearestWords` for the resolved query indices |
| TextLoader.ParseAll | embedding_gym/core.py:49 | converting the tokens succeeds exactly when every token parses, and then gives the parsed tokens in order, one per token |
| TextLoader.Load | embedding_gym/core.py:45-51 | a successful load always has as many words as vectors, and the only failure is `IndexError` |
| TextLoader.ReadTxtLines | embedding_gym/core.py:45-51 | the loop that appends to `vectors` and `index` computes `Load` |
| TextLoader.LoadFailsIffBlankLine | embedding_gym/core.py:49-51 | loading fails exactly when some line after the header has no tokens |
| TextLoader.Kept | embedding_gym/core.py:47-51 | the accepted positions are strictly increasing, never the header, and include every line after the header whose word exists and whose numbers all parse |
| TextLoader.LoadIsKeptLines | embedding_gym/core.py:47-51 | entry `k` of a successful load takes its word and its vector from the same line: the `k`-th accepted line in file order |
| TextLoader.SkipsMalformedLine | embedding_gym/core.py:47-51 | header "2 3", line "dog 0.1 0.2 0.3" and line "bad 0.1 xx 0.3" load as the single word "dog" with its three numbers |
| TextLoader.WordWithoutNumbersAndBlankLine | embedding_gym/core.py:49-51 | a line holding only a word is kept with an empty vector; a following empty line makes the load fail with `IndexError` |
| Core.CreateFromTxtFile | embedding_gym/core.py:42-52 | fails exactly when `Load` fails, and then with `IndexError`; otherwise gives a fresh valid store of `Load`'s words and vectors, so the constructor's assertion never fires |

## Left out

- The similarity score at core.py:27-32 is left out. This covers the `a - b + c` vector arithmetic, the `vectors @ result / (norm * norm)` score, `np.argsort` and `np.flip`. It is floating-point linear algebra, and its NaN behaviour on zero-norm vectors and its tie order are numpy's. The model takes the resulting ranking as a parameter. It requires only that every ranked index is a valid position; the permutation that argsort gives is the special case `IsPermutation`.
- Core.Embeddings.Init: does not model running under `python -O`. That flag removes the `assert` at core.py:11, and then construction with unequal lengths succeeds; the model always raises `AssertionError` there.
- Core.Embeddings.constructor: does not model aliasing. Python stores references to the caller's lists at core.py:12-13, so a later change to those lists changes `vectors` and `i2w` while `w2i` stays as built, and the two can stop matching. The model's fields are constant values, so this drift cannot happen in it.
- Core.Embeddings.Analogy: does not model the `ValueError` numpy raises when the stored vectors differ in length. `a - b + c` cannot broadcast vectors of different shapes (core.py:28), and `self.vectors @ result` and `np.linalg.norm(self.vectors, axis=1)` fail on a ragged list (core.py:31). The loader does not prevent such a store: a word-only line is kept with an empty vector, and lines with different numbers of values are all kept. The model assumes the score step produced a ranking, and from there returns `Ok` whenever the three words are keys.
- Core.Embeddings.Analogy: the ranking parameter comes before `n`, so that `n` keeps its default of 5 in last position.
- Core.Embeddings.Analogy: the vectors of the query words (core.py:27) are not looked up. Nothing the method returns depends on them except through the ranking.
- Opening and reading the file (core.py:46-47) is left out, because it is I/O. The model starts from the file's lines, already split on whitespace, and a file that cannot be opened is not modelled.
- Python's `float()` is an uninterpreted parameter `parse: string -> Option<R>`. The strings it accepts ("inf", "nan", exponents) are not modelled.
- The vectors appended before `IndexError` is raised are not observable, since no store is returned. The model keeps the same order of steps but does not expose the partial lists.
