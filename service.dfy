/** The transcript store of app.py: the `transcripts` table keyed by id
    (app.py:18-24), `save_transcript` (app.py:49-55), the ingestion loop of
    `ingest_limitless` (app.py:74-84), the lookup of `summarize_transcript`
    (app.py:91-98) and the scan-then-rank of `search_transcripts` (app.py:57-68).
    The sentence-embedding model is the function `encode`, fixed when the
    service is built. */
module Transcripts {
  import opened Results
  import Text
  import Ranking

  /** `uuid.uuid4()` draws 122 random bits; an id stands for those bits. */
  const UuidSpace: nat := 0x400_0000_0000_0000_0000_0000_0000_0000

  /** The `id TEXT PRIMARY KEY` column. */
  type Id = int

  /** The `content` and `embedding` columns of one row. */
  datatype Record = Record(content: string, embedding: seq<int>)

  /** The transcript id of a summarize request names no stored row (HTTP 404). */
  datatype LookupError = NotFound

  /** The integers `0..n`. */
  ghost function Range(n: nat): (r: set<int>)
    ensures forall i :: i in r <==> 0 <= i < n
    ensures |r| == n
  {
    if n == 0 then {} else Range(n - 1) + {n - 1}
  }

  /** While fewer ids are in use than there are uuids, some uuid is still free. */
  lemma FreshUuidExists(used: set<Id>)
    requires |used| < UuidSpace
    ensures exists tid: Id :: 0 <= tid < UuidSpace && tid !in used
  {
    FreshBelow(used, UuidSpace);
  }

  lemma FreshBelow(used: set<Id>, n: nat)
    requires |used| < n
    ensures exists tid: Id :: 0 <= tid < n && tid !in used
  {
    var all := Range(n);
    assert |all - used| > 0 by {
      assert |all| == |all - used| + |all * used|;
      assert |all * used| <= |used| by {
        assert used == (all * used) + (used - all);
      }
    }
    var tid :| tid in all - used;
  }

  /** The entries of `fetched` that `if t.strip():` keeps, in their order. */
  function NonBlank(fetched: seq<string>): (kept: seq<string>)
    ensures |kept| <= |fetched|
  {
    if fetched == [] then []
    else
      var last := fetched[|fetched| - 1];
      var init := fetched[..|fetched| - 1];
      assert fetched == init + [last];
      NonBlank(init) + (if Text.Strip(last) != "" then [last] else [])
  }

  /** `NonBlank` keeps exactly the entries that do not strip to nothing. */
  lemma {:induction false} NonBlankKeeps(fetched: seq<string>)
    ensures forall t :: t in NonBlank(fetched) <==> t in fetched && Text.Strip(t) != ""
  {
    if fetched != [] {
      var last := fetched[|fetched| - 1];
      var init := fetched[..|fetched| - 1];
      assert fetched == init + [last];
      NonBlankKeeps(init);
    }
  }

  /** Filtering one entry more of `fetched` adds that entry when it is not blank. */
  lemma NonBlankPrefix(fetched: seq<string>, n: nat)
    requires n < |fetched|
    ensures NonBlank(fetched[..n + 1]) ==
      NonBlank(fetched[..n]) + (if Text.Strip(fetched[n]) != "" then [fetched[n]] else [])
  {
    assert fetched[..n + 1][..n] == fetched[..n];
  }

  /** The ids of scanned rows. */
  function RowIds(rows: seq<Ranking.Row<Id>>): set<Id> {
    set i | 0 <= i < |rows| :: rows[i].id
  }

  lemma RowIdsSnoc(rows: seq<Ranking.Row<Id>>, row: Ranking.Row<Id>)
    ensures RowIds(rows + [row]) == RowIds(rows) + {row.id}
  {
    var longer := rows + [row];
    forall x | x in RowIds(rows) ensures x in RowIds(longer) {
      var i :| 0 <= i < |rows| && rows[i].id == x;
      assert longer[i] == rows[i];
    }
    assert longer[|rows|] == row;
  }

  /** A set that is not empty has a member to pick. */
  lemma PickableFrom(s: set<Id>)
    requires s != {}
    ensures exists x :: x in s
  {
    // The solver does not find a member by itself. Naming the case in which
    // no `x` is in `s` makes it apply set extensionality there, which gives
    // `s == {}` against the precondition, so that branch cannot be taken and
    // needs no statements.
    if forall x :: x !in s {
    }
  }

  class TranscriptService {
    /** `embedder.encode`: deterministic, fixed for the life of the service. */
    const encode: string -> seq<int>
    /** The `transcripts` table: id to `(content, embedding)`. */
    var table: map<Id, Record>

    /** Every row's embedding is the encoding of its content. */
    ghost predicate Valid()
      reads this
    {
      forall id :: id in table ==> table[id].embedding == encode(table[id].content)
    }

    /** `after` is `before` with one new row per entry of `kept`, under the
        ids `ids`, in the same order; no other row is added or changed. */
    ghost predicate Ingested(before: map<Id, Record>, after: map<Id, Record>, kept: seq<string>, ids: seq<Id>) {
      && |ids| == |kept|
      && Ranking.Distinct(ids)
      && (forall j :: 0 <= j < |ids| ==>
            ids[j] !in before && ids[j] in after && after[ids[j]] == Record(kept[j], encode(kept[j])))
      && (forall id :: id in before ==> id in after && after[id] == before[id])
      && (forall id :: id in after ==> id in before || id in ids)
    }

    /** Saving one more kept entry `t` under a fresh id extends an ingestion. */
    lemma IngestedSnoc(before: map<Id, Record>, mid: map<Id, Record>, kept: seq<string>, ids: seq<Id>, t: string, tid: Id)
      requires Ingested(before, mid, kept, ids) && tid !in mid
      ensures Ingested(before, mid[tid := Record(t, encode(t))], kept + [t], ids + [tid])
    {
      var after := mid[tid := Record(t, encode(t))];
      var ids', kept' := ids + [tid], kept + [t];
      forall j | 0 <= j < |ids'|
        ensures ids'[j] !in before && ids'[j] in after && after[ids'[j]] == Record(kept'[j], encode(kept'[j]))
      {
        if j < |ids| {
          assert ids'[j] == ids[j] && kept'[j] == kept[j];
        }
      }
      forall i, j | 0 <= i < j < |ids'| ensures ids'[i] != ids'[j] {
        if j < |ids| {
          assert ids'[i] == ids[i] && ids'[j] == ids[j];
        } else {
          assert ids[i] in mid;
        }
      }
    }

    /** The startup of app.py:13-25: the model is loaded and the table exists. */
    constructor(encode: string -> seq<int>)
      ensures this.encode == encode && table == map[]
      ensures Valid()
    {
      this.encode := encode;
      table := map[];
    }

    /** `save_transcript`: encodes `text`, draws a uuid that the PRIMARY KEY
        accepts and inserts the row. */
    method Save(text: string) returns (tid: Id)
      requires Valid() && |table| < UuidSpace
      modifies this
      ensures Valid()
      ensures 0 <= tid < UuidSpace && tid !in old(table)
      ensures table == old(table)[tid := Record(text, encode(text))]
      ensures |table| == |old(table)| + 1
      ensures forall id :: id in old(table) ==> id in table && table[id] == old(table)[id]
    {
      FreshUuidExists(table.Keys);
      tid :| 0 <= tid < UuidSpace && tid !in table;
      table := table[tid := Record(text, encode(text))];
    }

    /** `ingest_limitless`: a failed fetch is reported and stores nothing;
        otherwise every entry that is not blank is saved, in order, and the
        new ids are returned in the same order. */
    method Ingest(fetched: Result<seq<string>, string>) returns (r: Result<seq<Id>, string>)
      requires Valid()
      requires fetched.Ok? ==> |table| + |fetched.value| <= UuidSpace
      modifies this
      ensures Valid()
      ensures fetched.Err? ==> r == Err(fetched.error) && table == old(table)
      ensures fetched.Ok? ==> r.Ok? && Ingested(old(table), table, NonBlank(fetched.value), r.value)
    {
      if fetched.Err? {
        return Err(fetched.error);
      }
      var ids := SaveNonBlank(fetched.value);
      return Ok(ids);
    }

    /** After the first `n` entries of `transcripts`: the table is `before`
        with the kept ones among them saved, in order, under `ids`, and there
        is room for a uuid for each entry still to come. */
    ghost predicate IngestedUpTo(before: map<Id, Record>, transcripts: seq<string>, n: nat, ids: seq<Id>)
      reads this
    {
      && n <= |transcripts|
      && Valid()
      && |table| == |before| + |ids| && |ids| <= n
      && |before| + |transcripts| <= UuidSpace
      && Ingested(before, table, NonBlank(transcripts[..n]), ids)
    }

    /** The loop of `ingest_limitless`: `save_transcript(t)` for every `t`
        with `t.strip()` not empty, collecting the ids. */
    method SaveNonBlank(transcripts: seq<string>) returns (ids: seq<Id>)
      requires Valid() && |table| + |transcripts| <= UuidSpace
      modifies this
      ensures Valid()
      ensures Ingested(old(table), table, NonBlank(transcripts), ids)
    {
      ids := [];
      for n := 0 to |transcripts|
        invariant IngestedUpTo(old(table), transcripts, n, ids)
      {
        ids := IngestNext(old(table), transcripts, n, ids);
      }
      assert transcripts[..|transcripts|] == transcripts;
    }

    /** One turn of that loop: the entry `transcripts[n]` is saved unless it is
        blank, and its id appended. */
    method IngestNext(ghost before: map<Id, Record>, transcripts: seq<string>, n: nat, ids: seq<Id>)
      returns (ids': seq<Id>)
      requires n < |transcripts| && IngestedUpTo(before, transcripts, n, ids)
      modifies this
      ensures IngestedUpTo(before, transcripts, n + 1, ids')
      ensures Text.Strip(transcripts[n]) == "" ==> ids' == ids && table == old(table)
      ensures Text.Strip(transcripts[n]) != "" ==>
        && |ids'| == |ids| + 1 && ids'[..|ids|] == ids && ids'[|ids|] !in old(table)
        && table == old(table)[ids'[|ids|] := Record(transcripts[n], encode(transcripts[n]))]
    {
      var t := transcripts[n];
      NonBlankPrefix(transcripts, n);
      ids' := ids;
      if Text.Strip(t) != "" {
        ghost var mid := table;
        var tid := Save(t);
        IngestedSnoc(before, mid, NonBlank(transcripts[..n]), ids, t, tid);
        ids' := ids + [tid];
      }
    }

    /** The lookup of `summarize_transcript`: the summary of the content stored
        under `tid`, or not found. */
    method Summarize(tid: Id) returns (r: Result<string, LookupError>)
      ensures tid in table ==> r == Ok(Text.SummarizeText(table[tid].content))
      ensures tid !in table <==> r == Err(NotFound)
    {
      if tid !in table {
        return Err(NotFound);
      }
      return Ok(Text.SummarizeText(table[tid].content));
    }

    /** `rows` holds, once each, exactly the rows whose ids are not `pending`. */
    ghost predicate ScannedBut(rows: seq<Ranking.Row<Id>>, pending: set<Id>)
      reads this
    {
      && pending <= table.Keys
      && |rows| + |pending| == |table|
      && (forall i :: 0 <= i < |rows| ==>
            rows[i].id in table && rows[i].id !in pending
            && rows[i] == Ranking.Row(rows[i].id, table[rows[i].id].content, table[rows[i].id].embedding))
      && (forall i, j :: 0 <= i < j < |rows| ==> rows[i].id != rows[j].id)
      && RowIds(rows) == table.Keys - pending
    }

    lemma ScanStep(rows: seq<Ranking.Row<Id>>, pending: set<Id>, key: Id)
      requires ScannedBut(rows, pending) && key in pending
      ensures ScannedBut(rows + [Ranking.Row(key, table[key].content, table[key].embedding)], pending - {key})
    {
      var row := Ranking.Row(key, table[key].content, table[key].embedding);
      var longer, left := rows + [row], pending - {key};
      RowIdsSnoc(rows, row);
      forall i | 0 <= i < |longer|
        ensures longer[i].id in table && longer[i].id !in left
        ensures longer[i] == Ranking.Row(longer[i].id, table[longer[i].id].content, table[longer[i].id].embedding)
      {
        if i < |rows| {
          assert longer[i] == rows[i];
        }
      }
      forall i, j | 0 <= i < j < |longer| ensures longer[i].id != longer[j].id {
        assert longer[i] == rows[i];
        if j < |rows| {
          assert longer[j] == rows[j];
        }
      }
    }

    /** `SELECT id, content, embedding FROM transcripts`: every row once, in
        an order the database chooses. */
    method ScanAll() returns (rows: seq<Ranking.Row<Id>>)
      ensures |rows| == |table|
      ensures forall i :: 0 <= i < |rows| ==>
        rows[i].id in table && rows[i] == Ranking.Row(rows[i].id, table[rows[i].id].content, table[rows[i].id].embedding)
      ensures forall i, j :: 0 <= i < j < |rows| ==> rows[i].id != rows[j].id
      ensures RowIds(rows) == table.Keys
    {
      rows := [];
      var pending := table.Keys;
      while pending != {}
        invariant ScannedBut(rows, pending)
        decreases |pending|
      {
        PickableFrom(pending);
        var key :| key in pending;
        ScanStep(rows, pending, key);
        rows := rows + [Ranking.Row(key, table[key].content, table[key].embedding)];
        pending := pending - {key};
      }
    }

    /** The dot-product score of the row stored under `id` against `query`. */
    ghost function Score(query: seq<int>, id: Id): int
      reads this
      requires id in table && |table[id].embedding| == |query|
    {
      Ranking.Dot(query, table[id].embedding)
    }

    /** Every stored embedding has as many entries as `query`, so that the
        dot products of the search are defined. */
    ghost predicate Fits(query: seq<int>)
      reads this
    {
      forall id :: id in table ==> |table[id].embedding| == |query|
    }

    /** `hits` answers a query with embedding `query` and `top_k` `topK`:
        `ResultCount` hits, each the id, content and score of one stored row,
        no id twice, best score first, and every stored row that was left out
        scores at most as high as every hit. */
    ghost predicate TopK(query: seq<int>, topK: int, hits: seq<Ranking.Hit<Id>>)
      reads this
    {
      && Fits(query)
      && |hits| == Ranking.ResultCount(|table|, topK)
      && (forall j :: 0 <= j < |hits| ==>
            hits[j].id in table
            && hits[j].content == table[hits[j].id].content
            && hits[j].score == Score(query, hits[j].id))
      && (forall j, l :: 0 <= j < l < |hits| ==> hits[j].id != hits[l].id)
      && (forall j, l :: 0 <= j < l < |hits| ==> hits[j].score >= hits[l].score)
      && (forall id, j :: id in table && 0 <= j < |hits| && (forall l :: 0 <= l < |hits| ==> hits[l].id != id) ==>
            Score(query, id) <= hits[j].score)
    }

    /** Ranking a full scan of the table that passes the dimension check
        answers with the top-`top_k` rows. */
    lemma RankedScanIsTopK(rows: seq<Ranking.Row<Id>>, query: seq<int>, topK: int, order: seq<int>)
      requires ScannedBut(rows, {})
      requires |rows| > 0 && Ranking.SameDimension(rows, query)
      requires Ranking.IsArgsort(Ranking.Scores(rows, query), order)
      ensures Fits(query)
      ensures Ranking.Search(rows, query, topK, order).Ok?
      ensures TopK(query, topK, Ranking.Search(rows, query, topK, order).value)
    {
      forall id | id in table ensures |table[id].embedding| == |query| {
        assert id in RowIds(rows);
        var x :| 0 <= x < |rows| && rows[x].id == id;
      }
      Ranking.SearchIsTopK(rows, query, topK, order);
      var hits, top := Ranking.Search(rows, query, topK, order).value, Ranking.TopIndices(order, topK);
      forall id, j | id in table && 0 <= j < |hits| && (forall l :: 0 <= l < |hits| ==> hits[l].id != id)
        ensures Score(query, id) <= hits[j].score
      {
        assert id in RowIds(rows);
        var x :| 0 <= x < |rows| && rows[x].id == id;
        assert x !in top;
      }
      forall j, l | 0 <= j < l < |hits| ensures hits[j].id != hits[l].id {
        assert top[j] != top[l];
      }
    }

    /** Ranking the scan of an empty table answers `[]`. */
    lemma EmptyScan(rows: seq<Ranking.Row<Id>>, query: seq<int>, topK: int, order: seq<int>)
      requires ScannedBut(rows, {}) && |rows| == 0
      requires Ranking.SameDimension(rows, query) ==> Ranking.IsArgsort(Ranking.Scores(rows, query), order)
      ensures |table| == 0 && Fits(query)
      ensures Ranking.Search(rows, query, topK, order) == Ok([])
      ensures TopK(query, topK, [])
    {
      assert |table| == 0;
      EmptyTableAnswers(query, topK);
    }

    /** An empty table fits every query and is answered by `[]`. */
    lemma EmptyTableAnswers(query: seq<int>, topK: int)
      requires |table| == 0
      ensures Fits(query) && TopK(query, topK, [])
    {
      assert table.Keys == {};
    }

    /** Ranking the scan of a table holding an embedding of another length
        than the query's fails. */
    lemma MismatchedScan(rows: seq<Ranking.Row<Id>>, query: seq<int>, topK: int, order: seq<int>)
      requires ScannedBut(rows, {}) && |rows| > 0 && !Ranking.SameDimension(rows, query)
      ensures Ranking.Search(rows, query, topK, order) == Err(Ranking.DimensionMismatch)
      ensures !Fits(query)
    {
      var i :| 0 <= i < |rows| && |rows[i].embedding| != |query|;
      assert rows[i].id in table;
    }

    /** Each hit's score is the dot product of `query` with the encoding of
        the hit's content: the similarity of the question to that text. */
    ghost predicate ScoredByContent(query: seq<int>, hits: seq<Ranking.Hit<Id>>) {
      forall j :: 0 <= j < |hits| ==>
        |encode(hits[j].content)| == |query| && hits[j].score == Ranking.Dot(query, encode(hits[j].content))
    }

    /** In a valid table every stored embedding is the encoding of its content,
        so the hits of a top-k answer are scored by their content. */
    lemma ScoresAreSimilarity(query: seq<int>, topK: int, hits: seq<Ranking.Hit<Id>>)
      requires Valid() && TopK(query, topK, hits)
      ensures ScoredByContent(query, hits)
    {
      forall j | 0 <= j < |hits|
        ensures |encode(hits[j].content)| == |query| && hits[j].score == Ranking.Dot(query, encode(hits[j].content))
      {
        var id := hits[j].id;
        assert table[id].embedding == encode(hits[j].content);
      }
    }

    /** Ranking a full scan of a valid table answers the query: an empty table
        gives `[]`; a table holding an embedding of another length than the
        query's fails; otherwise the top-`top_k` rows, each scored by the
        similarity of the query to its content. */
    lemma ScanAnswers(rows: seq<Ranking.Row<Id>>, query: seq<int>, topK: int, order: seq<int>)
      requires Valid() && ScannedBut(rows, {})
      requires Ranking.SameDimension(rows, query) ==> Ranking.IsArgsort(Ranking.Scores(rows, query), order)
      ensures |table| == 0 ==> Ranking.Search(rows, query, topK, order) == Ok([])
      ensures Ranking.Search(rows, query, topK, order).Err? <==> !Fits(query)
      ensures Ranking.Search(rows, query, topK, order).Ok? ==> TopK(query, topK, Ranking.Search(rows, query, topK, order).value)
      ensures Ranking.Search(rows, query, topK, order).Ok? ==> ScoredByContent(query, Ranking.Search(rows, query, topK, order).value)
    {
      if |rows| == 0 {
        EmptyScan(rows, query, topK, order);
      } else if Ranking.SameDimension(rows, query) {
        RankedScanIsTopK(rows, query, topK, order);
        ScoresAreSimilarity(query, topK, Ranking.Search(rows, query, topK, order).value);
      } else {
        MismatchedScan(rows, query, topK, order);
      }
    }

    /** `search_transcripts` behind `/query`: an empty table gives `[]`; a
        table holding an embedding of another length than the question's
        fails; otherwise the top-`top_k` rows by dot-product score. */
    method Query(question: string, topK: int) returns (r: Result<seq<Ranking.Hit<Id>>, Ranking.SearchError>)
      requires Valid()
      ensures |table| == 0 ==> r == Ok([])
      ensures r.Err? <==> !Fits(encode(question))
      ensures r.Ok? ==> TopK(encode(question), topK, r.value)
      ensures r.Ok? ==> ScoredByContent(encode(question), r.value)
    {
      var rows := ScanAll();
      var query := encode(question);
      var order := if Ranking.SameDimension(rows, query) then Ranking.ArgSort(Ranking.Scores(rows, query)) else [];
      r := Ranking.Search(rows, query, topK, order);
      ScanAnswers(rows, query, topK, order);
    }
  }
}
