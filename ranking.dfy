/** The ranking step of `search_transcripts` (app.py:57-68): every stored row
    is scored against the query embedding, the indices are argsorted by
    score, `[-top_k:]` keeps the tail under Python's slice rules and `[::-1]`
    turns it so that the best score comes first. Scores, which the source
    computes in floating point, are integers here. */
module Ranking {
  import opened Results
  import opened Ints

  /** One scanned row of the transcripts table: `(id, content, embedding)`. */
  datatype Row<K> = Row(id: K, content: string, embedding: seq<int>)

  /** One search result: `{"id", "content", "score"}`. */
  datatype Hit<K> = Hit(id: K, content: string, score: int)

  /** The vector library refuses to multiply embeddings of different lengths
      (`DimensionMismatch`); the tensor library refuses the slice of the
      argsort (`TensorSliceError`). */
  datatype SearchError = DimensionMismatch | TensorSliceError

  /** The dot product of two vectors of the same length. */
  function Dot(a: seq<int>, b: seq<int>): int
    requires |a| == |b|
  {
    if a == [] then 0 else a[0] * b[0] + Dot(a[1..], b[1..])
  }

  /** Every stored embedding has as many entries as the query's. */
  predicate SameDimension<K>(rows: seq<Row<K>>, query: seq<int>) {
    forall i :: 0 <= i < |rows| ==> |rows[i].embedding| == |query|
  }

  /** `util.dot_score(query_embedding, embeddings)`: one score per row, in row order. */
  function Scores<K>(rows: seq<Row<K>>, query: seq<int>): (scores: seq<int>)
    requires SameDimension(rows, query)
    ensures |scores| == |rows|
    ensures forall i :: 0 <= i < |rows| ==> scores[i] == Dot(query, rows[i].embedding)
  {
    seq(|rows|, i requires 0 <= i < |rows| => Dot(query, rows[i].embedding))
  }

  /** Every entry of `order` is an index of `scores`, and the scores are
      non-decreasing along `order`. */
  predicate Ascending(scores: seq<int>, order: seq<int>) {
    && (forall i :: 0 <= i < |order| ==> 0 <= order[i] < |scores|)
    && (forall i, j :: 0 <= i < j < |order| ==> scores[order[i]] <= scores[order[j]])
  }

  /** No entry occurs twice in `s`. */
  predicate Distinct(s: seq<int>) {
    forall i, j :: 0 <= i < j < |s| ==> s[i] != s[j]
  }

  /** `order` is what `scores.argsort()` may return: every index of `scores`
      exactly once, in non-decreasing order of score. Among equal scores any
      order is allowed. */
  predicate IsArgsort(scores: seq<int>, order: seq<int>) {
    && |order| == |scores|
    && Ascending(scores, order)
    && Distinct(order)
    && (forall x :: 0 <= x < |scores| ==> x in order)
  }

  /** Puts index `x` into the ascending `order` after every index whose score
      is at most that of `x`. */
  function Insert(scores: seq<int>, order: seq<int>, x: int): (r: seq<int>)
    requires 0 <= x < |scores| && Ascending(scores, order)
    ensures |r| == |order| + 1
    ensures forall v :: v in r <==> v in order || v == x
    ensures Ascending(scores, r)
  {
    if order == [] then [x]
    else if scores[x] < scores[order[0]] then [x] + order
    else
      var rest := Insert(scores, order[1..], x);
      var r := [order[0]] + rest;
      forall k | 0 < k < |r| ensures scores[r[0]] <= scores[r[k]] {
        assert r[k] == rest[k - 1] && rest[k - 1] in rest;
        if r[k] != x {
          var p :| 0 <= p < |order[1..]| && order[1..][p] == r[k];
          assert order[p + 1] == r[k];
        }
      }
      r
  }

  /** Inserting an index that is not there yet keeps the entries distinct. */
  lemma {:induction false} InsertDistinct(scores: seq<int>, order: seq<int>, x: int)
    requires 0 <= x < |scores| && Ascending(scores, order)
    requires Distinct(order) && x !in order
    ensures Distinct(Insert(scores, order, x))
  {
    if order != [] && scores[x] >= scores[order[0]] {
      var tail := order[1..];
      InsertDistinct(scores, tail, x);
      assert order[0] !in tail;
    }
  }

  /** An argsort of the first `n` scores, built by insertion. */
  function ArgSortPrefix(scores: seq<int>, n: nat): (r: seq<int>)
    requires n <= |scores|
    ensures |r| == n
    ensures forall v :: v in r <==> 0 <= v < n
    ensures Ascending(scores, r) && Distinct(r)
  {
    if n == 0 then []
    else
      var prefix := ArgSortPrefix(scores, n - 1);
      InsertDistinct(scores, prefix, n - 1);
      Insert(scores, prefix, n - 1)
  }

  /** An argsort of `scores`: one that `scores.argsort()` may return. Equal
      scores come out in index order here, which the results never rely on. */
  function ArgSort(scores: seq<int>): (order: seq<int>)
    ensures IsArgsort(scores, order)
  {
    ArgSortPrefix(scores, |scores|)
  }

  /** Python's `s[start:]`: a negative start counts from the end, and the start
      is clamped into `0..|s|`. In particular `-0` is `0`, the whole list. */
  function SliceFrom<T>(s: seq<T>, start: int): seq<T> {
    var n := |s|;
    var b := if start < 0 then (if n + start < 0 then 0 else n + start)
             else Min(start, n);
    s[b..]
  }

  /** Python's `s[::-1]`. */
  function Reverse<T>(s: seq<T>): (r: seq<T>)
    ensures |r| == |s|
    ensures forall j :: 0 <= j < |s| ==> r[j] == s[|s| - 1 - j]
  {
    if s == [] then [] else Reverse(s[1..]) + [s[0]]
  }

  /** How many results a search over `n` rows returns: `min(top_k, n)` for a
      positive `top_k`; all `n` for `top_k == 0`, because `[-0:]` is the whole
      list; and `n - |top_k|`, at least `0`, for a negative `top_k`, because
      `[-top_k:]` then drops the first `|top_k|` entries. */
  function ResultCount(n: nat, topK: int): nat {
    if topK > 0 then Min(topK, n)
    else if topK == 0 then n
    else if n + topK < 0 then 0
    else n + topK
  }

  /** `order[-top_k:][::-1]`: the last `ResultCount(|order|, top_k)` entries
      of `order`, the last one first. */
  function TopIndices(order: seq<int>, topK: int): (top: seq<int>)
    ensures |top| == ResultCount(|order|, topK)
    ensures forall j :: 0 <= j < |top| ==> top[j] == order[|order| - 1 - j]
  {
    var tail := SliceFrom(order, -topK);
    assert tail == order[|order| - ResultCount(|order|, topK)..];
    Reverse(tail)
  }

  /** The list comprehension of app.py:67: one hit per selected index, pairing
      `ids[i]` with `contents[i]` and `scores[i]`. */
  function Select<K>(rows: seq<Row<K>>, scores: seq<int>, order: seq<int>, topK: int): (hits: seq<Hit<K>>)
    requires |scores| == |rows| && IsArgsort(scores, order)
    ensures var top := TopIndices(order, topK);
      && |hits| == |top|
      && forall j :: 0 <= j < |top| ==> hits[j] == Hit(rows[top[j]].id, rows[top[j]].content, scores[top[j]])
  {
    var top := TopIndices(order, topK);
    seq(|top|, j requires 0 <= j < |top| => Hit(rows[top[j]].id, rows[top[j]].content, scores[top[j]]))
  }

  /** The selected indices of an argsort are indices of `scores`, each once,
      in non-increasing order of score. */
  lemma TopIndicesDescending(scores: seq<int>, order: seq<int>, topK: int)
    requires IsArgsort(scores, order)
    ensures var top := TopIndices(order, topK);
      && (forall j :: 0 <= j < |top| ==> 0 <= top[j] < |scores|)
      && Distinct(top)
      && (forall j, l :: 0 <= j < l < |top| ==> scores[top[j]] >= scores[top[l]])
  {
    var top := TopIndices(order, topK);
    var n := |order|;
    forall j, l | 0 <= j < l < |top| ensures top[j] != top[l] && scores[top[l]] <= scores[top[j]] {
      assert top[j] == order[n - 1 - j] && top[l] == order[n - 1 - l];
    }
  }

  /** No index left out of the selection has a higher score than one kept. */
  lemma TopIndicesDominate(scores: seq<int>, order: seq<int>, topK: int)
    requires IsArgsort(scores, order)
    ensures var top := TopIndices(order, topK);
      forall j, x :: 0 <= j < |top| && 0 <= x < |scores| && x !in top ==> scores[x] <= scores[top[j]]
  {
    ReversedSuffixDominates(scores, order, TopIndices(order, topK));
  }

  /** The last entries of an argsort, read backwards, score at least as high
      as every index that is not among them. */
  lemma ReversedSuffixDominates(scores: seq<int>, order: seq<int>, top: seq<int>)
    requires IsArgsort(scores, order)
    requires |top| <= |order|
    requires forall j :: 0 <= j < |top| ==> top[j] == order[|order| - 1 - j]
    ensures forall j, x :: 0 <= j < |top| && 0 <= x < |scores| && x !in top ==> scores[x] <= scores[top[j]]
  {
    var n, count := |order|, |top|;
    forall q | n - count <= q < n ensures order[q] in top {
      assert top[n - 1 - q] == order[q];
    }
    forall j, x | 0 <= j < count && 0 <= x < n && x !in top ensures scores[x] <= scores[top[j]] {
      assert x in order;
      var p :| 0 <= p < n && order[p] == x;
      assert top[j] == order[n - 1 - j];
    }
  }

  /** The hits of the selection: `ResultCount` of them, each built from one
      row, no row twice, best score first, and no row left out scoring higher
      than a row that was kept. */
  lemma SelectIsTopK<K>(rows: seq<Row<K>>, scores: seq<int>, order: seq<int>, topK: int)
    requires |scores| == |rows| && IsArgsort(scores, order)
    ensures var hits, top := Select(rows, scores, order, topK), TopIndices(order, topK);
      && |hits| == |top| == ResultCount(|rows|, topK)
      && (forall j :: 0 <= j < |top| ==>
            0 <= top[j] < |rows| && hits[j] == Hit(rows[top[j]].id, rows[top[j]].content, scores[top[j]]))
      && Distinct(top)
      && (forall j, l :: 0 <= j < l < |hits| ==> hits[j].score >= hits[l].score)
      && (forall j, x :: 0 <= j < |hits| && 0 <= x < |rows| && x !in top ==> scores[x] <= hits[j].score)
  {
    TopIndicesDescending(scores, order, topK);
    TopIndicesDominate(scores, order, topK);
  }

  /** `search_transcripts` after the scan: rows, the query embedding, `top_k`
      and the argsort the tensor library returns for the scores. An empty
      table answers `[]` before anything is encoded or scored. */
  function Search<K>(rows: seq<Row<K>>, query: seq<int>, topK: int, order: seq<int>): (r: Result<seq<Hit<K>>, SearchError>)
    requires SameDimension(rows, query) ==> IsArgsort(Scores(rows, query), order)
  {
    if |rows| == 0 then Ok([])
    else if !SameDimension(rows, query) then Err(DimensionMismatch)
    else Ok(Select(rows, Scores(rows, query), order, topK))
  }

  /** Searching an empty table gives the empty list, whatever `top_k` is. */
  lemma SearchEmptyTable<K>(query: seq<int>, topK: int, order: seq<int>)
    requires order == []
    ensures Search<K>([], query, topK, order) == Ok([])
  {
  }

  /** A search fails exactly when the table is not empty and some stored
      embedding differs in length from the query's. */
  lemma SearchFailsIffMismatch<K>(rows: seq<Row<K>>, query: seq<int>, topK: int, order: seq<int>)
    requires SameDimension(rows, query) ==> IsArgsort(Scores(rows, query), order)
    ensures Search(rows, query, topK, order).Err? <==>
      |rows| > 0 && exists i :: 0 <= i < |rows| && |rows[i].embedding| != |query|
  {
  }

  /** A successful search of a non-empty table returns `ResultCount` hits in
      non-increasing score order, each the id, content and dot-product score
      of one row, no row twice, and every row left out scores at most as high
      as every hit. */
  lemma SearchIsTopK<K>(rows: seq<Row<K>>, query: seq<int>, topK: int, order: seq<int>)
    requires |rows| > 0 && SameDimension(rows, query)
    requires IsArgsort(Scores(rows, query), order)
    ensures Search(rows, query, topK, order).Ok?
    ensures var hits, top := Search(rows, query, topK, order).value, TopIndices(order, topK);
      && |hits| == |top| == ResultCount(|rows|, topK)
      && (forall j :: 0 <= j < |top| ==>
            0 <= top[j] < |rows|
            && hits[j] == Hit(rows[top[j]].id, rows[top[j]].content, Dot(query, rows[top[j]].embedding)))
      && Distinct(top)
      && (forall j, l :: 0 <= j < l < |hits| ==> hits[j].score >= hits[l].score)
      && (forall j, x :: 0 <= j < |hits| && 0 <= x < |rows| && x !in top ==>
            Dot(query, rows[x].embedding) <= hits[j].score)
  {
    SelectIsTopK(rows, Scores(rows, query), order, topK);
  }

  /** With `top_k == 0` every row comes back, best first: `[-0:]` is the
      whole argsort, not an empty slice. */
  lemma SearchTopZeroReturnsAll<K>(rows: seq<Row<K>>, query: seq<int>, order: seq<int>)
    requires |rows| > 0 && SameDimension(rows, query)
    requires IsArgsort(Scores(rows, query), order)
    ensures Search(rows, query, 0, order).Ok?
    ensures |Search(rows, query, 0, order).value| == |rows|
  {
    SelectIsTopK(rows, Scores(rows, query), order, 0);
  }

  /** `search_transcripts` as written. `scores` is a tensor, and so is its
      argsort. A tensor refuses the step `-1` of `[::-1]` (and a single row
      leaves a 0-dimensional tensor, which refuses even `[-top_k:]`), so
      every table that passes the empty check and the dimension check
      raises. */
  function SearchAsWritten<K>(rows: seq<Row<K>>, query: seq<int>, topK: int): (r: Result<seq<Hit<K>>, SearchError>)
    ensures r.Ok? <==> |rows| == 0
    ensures r.Ok? ==> r.value == []
  {
    if |rows| == 0 then Ok([])
    else if !SameDimension(rows, query) then Err(DimensionMismatch)
    else Err(TensorSliceError)
  }

  /** Wherever the list-semantics search answers a non-empty table, the code
      as written raises, and the two agree everywhere else. */
  lemma SearchAsWrittenRaises<K>(rows: seq<Row<K>>, query: seq<int>, topK: int, order: seq<int>)
    requires SameDimension(rows, query) ==> IsArgsort(Scores(rows, query), order)
    ensures |rows| > 0 && Search(rows, query, topK, order).Ok? ==>
      SearchAsWritten(rows, query, topK) == Err(TensorSliceError)
    ensures |rows| == 0 || !SameDimension(rows, query) ==>
      SearchAsWritten(rows, query, topK) == Search(rows, query, topK, order)
  {
  }

  /** Two rows with one-entry embeddings, for the counterexample below. */
  const TwoRows: seq<Row<int>> := [Row(0, "a", [1]), Row(1, "b", [2])]

  /** Against the query `[1]` the two rows score `1` and `2`. */
  lemma TwoRowsScores()
    ensures SameDimension(TwoRows, [1]) && Scores(TwoRows, [1]) == [1, 2]
  {
    assert Dot([1], [1]) == 1 && Dot([1], [2]) == 2 by {
      assert [1][1..] == [] && [2][1..] == [];
    }
  }

  /** `[0, 1]` is the argsort of the scores `[1, 2]`. */
  lemma TwoRowsArgsort()
    ensures IsArgsort([1, 2], [0, 1])
  {
    assert 0 in [0, 1] && 1 in [0, 1];
  }

  /** `top_k = 5` keeps both entries of `[0, 1]`, the last one first. */
  lemma TwoRowsTop()
    ensures TopIndices([0, 1], 5) == [1, 0]
  {
    var top := TopIndices([0, 1], 5);
    assert |top| == 2 && top[0] == 1 && top[1] == 0;
  }

  /** Selecting the top five of the two rows gives both, best first. */
  lemma TwoRowsSelect()
    ensures IsArgsort([1, 2], [0, 1])
    ensures Select(TwoRows, [1, 2], [0, 1], 5) == [Hit(1, "b", 2), Hit(0, "a", 1)]
  {
    TwoRowsArgsort();
    TwoRowsTop();
    assert TwoRows[1] == Row(1, "b", [2]) && TwoRows[0] == Row(0, "a", [1]);
    var hits := Select(TwoRows, [1, 2], [0, 1], 5);
    assert |hits| == 2;
    assert hits[0] == Hit(1, "b", 2);
    assert hits[1] == Hit(0, "a", 1);
  }

  /** The two rows queried with `[1]` and `top_k = 5`: the intended answer is
      both rows, best first; the code as written raises. */
  lemma TwoRowsCounterexample()
    ensures IsArgsort(Scores(TwoRows, [1]), [0, 1])
    ensures Search(TwoRows, [1], 5, [0, 1]) == Ok([Hit(1, "b", 2), Hit(0, "a", 1)])
    ensures SearchAsWritten(TwoRows, [1], 5) == Err(TensorSliceError)
  {
    TwoRowsScores();
    TwoRowsSelect();
  }
}
