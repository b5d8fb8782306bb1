/**
 * The in-memory vector index of utils/vector_db.py: two parallel lists of
 * vectors and chunk records plus a dimension fixed by the first insertion,
 * a cosine-similarity top-k search, and save/load through a file store.
 */
module VectorDb {
  import opened Wrappers

  // ---------------------------------------------------------------------------
  // Chunk records (Python dicts, which keep insertion order)
  // ---------------------------------------------------------------------------

  /** The values a chunk record holds: strings, integers, floats, the embedding list, and None. */
  datatype Value = Str(s: string) | Int(i: int) | Real(r: real) | Reals(v: seq<real>) | Null

  datatype Field = Field(key: string, value: Value)

  /** A dict, as its fields in insertion order. */
  type Record = seq<Field>

  /** `d.get(key)`: the value of the first field named `key`. */
  function Lookup(rec: Record, key: string): Option<Value> {
    if rec == [] then None
    else if rec[0].key == key then Some(rec[0].value)
    else Lookup(rec[1..], key)
  }

  /**
   * `d[key] = v`: overwrites the field in place when the key is present and
   * appends a new field otherwise; every other key keeps its value.
   */
  function Put(rec: Record, key: string, v: Value): (r: Record)
    ensures Lookup(r, key) == Some(v)
    ensures forall k :: k != key ==> Lookup(r, k) == Lookup(rec, k)
    ensures |r| == if Lookup(rec, key).None? then |rec| + 1 else |rec|
  {
    if rec == [] then [Field(key, v)]
    else if rec[0].key == key then [Field(key, v)] + rec[1..]
    else [rec[0]] + Put(rec[1..], key, v)
  }

  const ScoreKey: string := "similarity_score"
  const RankKey: string := "rank"

  /** A search hit: a copy of the stored record with its score and its rank added. */
  function Annotated(rec: Record, score: real, rank: int): (r: Record)
    ensures Lookup(r, ScoreKey) == Some(Real(score))
    ensures Lookup(r, RankKey) == Some(Int(rank))
    ensures forall k :: k != ScoreKey && k != RankKey ==> Lookup(r, k) == Lookup(rec, k)
  {
    Put(Put(rec, ScoreKey, Real(score)), RankKey, Int(rank))
  }

  // ---------------------------------------------------------------------------
  // Index state and insertion
  // ---------------------------------------------------------------------------

  /** The errors the index raises. */
  datatype IndexError =
    | LengthMismatch
    | DimensionMismatch(dimension: nat)
    | QueryDimension(expected: Option<nat>)
    | ZeroQuery
    | MissingMetadata(index: nat)
    | FileNotFound(path: string)
    | Unreadable(path: string)

  /** The three attributes of an index; also what `save` writes out. */
  datatype Snapshot = Snapshot(embeddings: seq<seq<real>>, metadata: seq<Record>, dimension: Option<nat>)

  /** Every vector in `vectors` has length `dim`. */
  predicate HasDimension(vectors: seq<seq<real>>, dim: nat) {
    forall i :: 0 <= i < |vectors| ==> |vectors[i]| == dim
  }

  /** The lists are parallel, and every stored vector has the index's dimension. */
  predicate Consistent(s: Snapshot) {
    && |s.embeddings| == |s.metadata|
    && (s.embeddings != [] ==> s.dimension.Some?)
    && (s.dimension.Some? ==> HasDimension(s.embeddings, s.dimension.value))
  }

  /**
   * `add_embeddings` as a function of the old state: the new state and
   * whether the call raised. A first non-empty call fixes the dimension before
   * the vectors are checked, so a failing call can still set it.
   */
  function Added(s: Snapshot, vectors: seq<seq<real>>, records: seq<Record>): (Snapshot, Outcome<IndexError>) {
    if |vectors| != |records| then (s, Fail(LengthMismatch))
    else if vectors == [] then (s, Pass)
    else
      var dim := if s.dimension.None? then |vectors[0]| else s.dimension.value;
      if !HasDimension(vectors, dim) then (s.(dimension := Some(dim)), Fail(DimensionMismatch(dim)))
      else (Snapshot(s.embeddings + vectors, s.metadata + records, Some(dim)), Pass)
  }

  /**
   * What an insertion promises: a length mismatch changes nothing, empty
   * lists change nothing, a non-empty call fixes the dimension from the first
   * vector unless one was set, a failing call appends nothing, and a
   * succeeding one appends both lists in order.
   */
  lemma AddedSpec(s: Snapshot, vectors: seq<seq<real>>, records: seq<Record>)
    ensures var (t, out) := Added(s, vectors, records);
      && (|vectors| != |records| ==> t == s && out == Fail(LengthMismatch))
      && (vectors == [] ==> t == s)
      && (|vectors| == |records| && vectors != [] ==>
            t.dimension == Some(if s.dimension.None? then |vectors[0]| else s.dimension.value))
      && (out.Fail? ==> t.embeddings == s.embeddings && t.metadata == s.metadata)
      && (out.Pass? <==> |vectors| == |records| && (vectors == [] || HasDimension(vectors, t.dimension.value)))
      && (out.Pass? ==> t.embeddings == s.embeddings + vectors && t.metadata == s.metadata + records)
  {
  }

  /** Insertion keeps the index consistent, whether it succeeds or raises. */
  lemma AddedConsistent(s: Snapshot, vectors: seq<seq<real>>, records: seq<Record>)
    requires Consistent(s)
    ensures Consistent(Added(s, vectors, records).0)
  {
    var (t, out) := Added(s, vectors, records);
    if out.Pass? && vectors != [] {
      var dim := t.dimension.value;
      forall i | 0 <= i < |t.embeddings|
        ensures |t.embeddings[i]| == dim
      {
        if i >= |s.embeddings| {
          assert t.embeddings[i] == vectors[i - |s.embeddings|];
        }
      }
    }
  }

  // ---------------------------------------------------------------------------
  // Search
  // ---------------------------------------------------------------------------

  /** Cosine similarity of two non-zero vectors; its numeric value is not modelled. */
  type Cosine = (seq<real>, seq<real>) -> real

  /** The vector has norm zero. */
  predicate IsZero(v: seq<real>) {
    forall i :: 0 <= i < |v| ==> v[i] == 0.0
  }

  /** The score of one stored vector: 0.0 for a zero vector, the cosine otherwise. */
  function Similarity(query: seq<real>, e: seq<real>, cosine: Cosine): real {
    if IsZero(e) then 0.0 else cosine(query, e)
  }

  /** The score list of the search loop, one score per stored vector. */
  function Similarities(query: seq<real>, es: seq<seq<real>>, cosine: Cosine): (r: seq<real>)
    ensures |r| == |es|
  {
    seq(|es|, i requires 0 <= i < |es| => Similarity(query, es[i], cosine))
  }

  /** Inserts index `i` before the first index whose score is lower than its own. */
  function Insert(order: seq<nat>, i: nat, scores: seq<real>): (r: seq<nat>)
    requires i < |scores|
    requires forall k :: 0 <= k < |order| ==> order[k] < |scores|
    ensures |r| == |order| + 1
    ensures forall x :: x in r <==> x in order || x == i
    ensures forall k :: 0 <= k < |r| ==> r[k] < |scores|
  {
    if order == [] then [i]
    else if scores[order[0]] < scores[i] then [i] + order
    else [order[0]] + Insert(order[1..], i, scores)
  }

  /**
   * `np.argsort(scores)[::-1]` for the first `n` scores: the indices by
   * non-increasing score. Among equal scores the source's order is not fixed;
   * this one keeps the lower index first.
   */
  function Ranking(scores: seq<real>, n: nat): (order: seq<nat>)
    requires n <= |scores|
    ensures |order| == n
    ensures forall k :: 0 <= k < |order| ==> order[k] < n
  {
    if n == 0 then []
    else
      var prev := Ranking(scores, n - 1);
      var r := Insert(prev, n - 1, scores);
      assert forall k :: 0 <= k < |r| ==> r[k] in prev || r[k] == n - 1;
      r
  }

  /** The indices are pairwise different. */
  predicate Distinct(order: seq<nat>) {
    forall a, b :: 0 <= a < b < |order| ==> order[a] != order[b]
  }

  /** The indices are listed by non-increasing score. */
  predicate ByScore(order: seq<nat>, scores: seq<real>)
    requires forall k :: 0 <= k < |order| ==> order[k] < |scores|
  {
    forall a, b :: 0 <= a < b < |order| ==> scores[order[a]] >= scores[order[b]]
  }

  lemma {:induction false} InsertDistinct(order: seq<nat>, i: nat, scores: seq<real>)
    requires i < |scores|
    requires forall k :: 0 <= k < |order| ==> order[k] < |scores|
    requires Distinct(order) && i !in order
    ensures Distinct(Insert(order, i, scores))
    decreases |order|
  {
    if order != [] && scores[order[0]] >= scores[i] {
      var tail := Insert(order[1..], i, scores);
      assert order == [order[0]] + order[1..];
      InsertDistinct(order[1..], i, scores);
      var r := [order[0]] + tail;
      forall a, b | 0 <= a < b < |r|
        ensures r[a] != r[b]
      {
        if a == 0 {
          assert r[b] in tail;
        } else {
          assert r[a] == tail[a - 1] && r[b] == tail[b - 1];
        }
      }
    }
  }

  lemma {:induction false} InsertByScore(order: seq<nat>, i: nat, scores: seq<real>)
    requires i < |scores|
    requires forall k :: 0 <= k < |order| ==> order[k] < |scores|
    requires ByScore(order, scores)
    ensures ByScore(Insert(order, i, scores), scores)
    decreases |order|
  {
    if order != [] {
      HeadScoresMost(order, scores);
      if scores[order[0]] >= scores[i] {
        var tail := Insert(order[1..], i, scores);
        InsertByScore(order[1..], i, scores);
        ConsByScore(order[0], tail, scores);
      } else {
        ConsByScore(i, order, scores);
      }
    }
  }

  /** The first index of a ranked list scores at least as high as every index in it. */
  lemma HeadScoresMost(order: seq<nat>, scores: seq<real>)
    requires order != [] && forall k :: 0 <= k < |order| ==> order[k] < |scores|
    requires ByScore(order, scores)
    ensures forall x :: x in order ==> scores[x] <= scores[order[0]]
    ensures forall x :: x in order[1..] ==> scores[x] <= scores[order[0]]
  {
    forall x | x in order ensures scores[x] <= scores[order[0]] {
      var p :| 0 <= p < |order| && order[p] == x;
    }
    forall x | x in order[1..] ensures x in order {
    }
  }

  /** An index scoring at least as high as every index of a ranked list may head it. */
  lemma ConsByScore(h: nat, order: seq<nat>, scores: seq<real>)
    requires h < |scores| && forall k :: 0 <= k < |order| ==> order[k] < |scores|
    requires ByScore(order, scores)
    requires forall x :: x in order ==> scores[x] <= scores[h]
    ensures ByScore([h] + order, scores)
  {
    var r := [h] + order;
    forall a, b | 0 <= a < b < |r|
      ensures scores[r[a]] >= scores[r[b]]
    {
      if a == 0 {
        assert r[b] in order;
      } else {
        assert r[a] == order[a - 1] && r[b] == order[b - 1];
      }
    }
  }

  /** The ranking lists every index exactly once, by non-increasing score. */
  lemma {:induction false} RankingSpec(scores: seq<real>, n: nat)
    requires n <= |scores|
    ensures var order := Ranking(scores, n);
      && Distinct(order)
      && (forall j :: 0 <= j < n ==> j in order)
      && ByScore(order, scores)
  {
    if n > 0 {
      var prev := Ranking(scores, n - 1);
      RankingSpec(scores, n - 1);
      InsertDistinct(prev, n - 1, scores);
      InsertByScore(prev, n - 1, scores);
    }
  }

  /** The length of Python's slice `xs[:k]` on a list of length `n`, for any integer `k`. */
  function TakeCount(n: nat, k: int): (m: nat)
    ensures m <= n
    ensures k >= 0 ==> m == if k <= n then k else n
    ensures k < 0 ==> m == if n + k > 0 then n + k else 0
  {
    if k >= 0 then (if k <= n then k else n)
    else if n + k > 0 then n + k
    else 0
  }

  /**
   * The result loop for the first `|top|` selected indices: record `k` is the
   * stored record at `top[k]` with its score and rank `k + 1`; an index with no
   * stored record raises.
   */
  function Annotate(metadata: seq<Record>, scores: seq<real>, top: seq<nat>): Result<seq<Record>, IndexError>
    requires forall k :: 0 <= k < |top| ==> top[k] < |scores|
    decreases |top|
  {
    if top == [] then Success([])
    else
      match Annotate(metadata, scores, top[..|top| - 1])
      case Failure(e) => Failure(e)
      case Success(rs) =>
        var idx := top[|top| - 1];
        if idx < |metadata| then Success(rs + [Annotated(metadata[idx], scores[idx], |top|)])
        else Failure(MissingMetadata(idx))
  }

  /** With a record for every selected index, the loop builds one hit per index, in order. */
  lemma {:induction false} AnnotateSpec(metadata: seq<Record>, scores: seq<real>, top: seq<nat>)
    requires forall k :: 0 <= k < |top| ==> top[k] < |scores|
    requires forall k :: 0 <= k < |top| ==> top[k] < |metadata|
    ensures var r := Annotate(metadata, scores, top);
      && r.Success? && |r.value| == |top|
      && forall k :: 0 <= k < |top| ==> r.value[k] == Annotated(metadata[top[k]], scores[top[k]], k + 1)
    decreases |top|
  {
    if top != [] {
      var n := |top| - 1;
      var init := top[..n];
      AnnotateSpec(metadata, scores, init);
      var rs := Annotate(metadata, scores, init).value;
      var all := rs + [Annotated(metadata[top[n]], scores[top[n]], n + 1)];
      assert Annotate(metadata, scores, top) == Success(all);
      forall k | 0 <= k < |top| ensures all[k] == Annotated(metadata[top[k]], scores[top[k]], k + 1) {
        if k < n {
          assert all[k] == rs[k] && init[k] == top[k];
        }
      }
    }
  }

  /** Once the loop has raised, the rest of the indices do not matter. */
  lemma {:induction false} AnnotateFailed(metadata: seq<Record>, scores: seq<real>, top: seq<nat>, n: nat)
    requires n <= |top|
    requires forall k :: 0 <= k < |top| ==> top[k] < |scores|
    requires Annotate(metadata, scores, top[..n]).Failure?
    ensures Annotate(metadata, scores, top) == Annotate(metadata, scores, top[..n])
    decreases |top| - n
  {
    if n < |top| {
      assert top[..n + 1][..n] == top[..n];
      AnnotateFailed(metadata, scores, top, n + 1);
    } else {
      assert top[..n] == top;
    }
  }

  /** The indices `search` keeps: the first `top_k` of the ranking, as Python's slice takes them. */
  function TopIndices(scores: seq<real>, topK: int): (top: seq<nat>)
    ensures |top| == TakeCount(|scores|, topK)
    ensures forall k :: 0 <= k < |top| ==> top[k] < |scores|
  {
    Ranking(scores, |scores|)[..TakeCount(|scores|, topK)]
  }

  /** `search` as a function of the index state and its arguments. */
  function SearchOf(s: Snapshot, query: seq<real>, topK: int, cosine: Cosine): Result<seq<Record>, IndexError> {
    if s.embeddings == [] then Success([])
    else if s.dimension != Some(|query|) then Failure(QueryDimension(s.dimension))
    else if IsZero(query) then Failure(ZeroQuery)
    else
      var scores := Similarities(query, s.embeddings, cosine);
      Annotate(s.metadata, scores, TopIndices(scores, topK))
  }

  /**
   * The indices kept are distinct and ranked by non-increasing score, and no
   * index left out scores above one that was kept.
   */
  lemma TopIndicesSpec(scores: seq<real>, topK: int)
    ensures var top := TopIndices(scores, topK);
      && Distinct(top)
      && ByScore(top, scores)
      && (forall j, k :: 0 <= j < |scores| && j !in top && 0 <= k < |top| ==> scores[j] <= scores[top[k]])
  {
    var order := Ranking(scores, |scores|);
    var m := TakeCount(|scores|, topK);
    var top := TopIndices(scores, topK);
    RankingSpec(scores, |scores|);
    assert top == order[..m];
    forall j | 0 <= j < |scores| && j !in top
      ensures forall k :: 0 <= k < |top| ==> scores[j] <= scores[top[k]]
    {
      RankedBelow(order, scores, m, j);
    }
  }

  /** An index ranked after the first `m` scores no higher than any of them. */
  lemma RankedBelow(order: seq<nat>, scores: seq<real>, m: nat, j: nat)
    requires forall k :: 0 <= k < |order| ==> order[k] < |scores|
    requires ByScore(order, scores) && m <= |order|
    requires j in order && j !in order[..m]
    ensures forall k :: 0 <= k < m ==> scores[j] <= scores[order[..m][k]]
  {
    var p :| 0 <= p < |order| && order[p] == j;
    assert p >= m;
  }

  /** An empty index answers `[]` whatever the query; a query of the wrong length or of norm zero raises. */
  lemma SearchRejects(s: Snapshot, query: seq<real>, topK: int, cosine: Cosine)
    ensures var r := SearchOf(s, query, topK, cosine);
      && (s.embeddings == [] ==> r == Success([]))
      && (s.embeddings != [] && s.dimension != Some(|query|) ==> r == Failure(QueryDimension(s.dimension)))
      && (s.embeddings != [] && s.dimension == Some(|query|) && IsZero(query) ==> r == Failure(ZeroQuery))
      && (Consistent(s) ==> (r.Failure? <==> s.embeddings != [] && (s.dimension != Some(|query|) || IsZero(query))))
  {
    if Consistent(s) && s.embeddings != [] && s.dimension == Some(|query|) && !IsZero(query) {
      var scores := Similarities(query, s.embeddings, cosine);
      AnnotateSpec(s.metadata, scores, TopIndices(scores, topK));
    }
  }

  /**
   * A search that gets past its checks holds `min(top_k, N)` hits for
   * distinct stored records, ranked 1, 2, ... by non-increasing score, each a
   * copy of its record with the score and rank added, a stored zero vector
   * scoring 0.0, and no record left out scoring above one that was kept.
   */
  lemma SearchFinds(s: Snapshot, query: seq<real>, topK: int, cosine: Cosine)
    requires Consistent(s) && s.embeddings != [] && s.dimension == Some(|query|) && !IsZero(query)
    ensures var r := SearchOf(s, query, topK, cosine);
      var scores := Similarities(query, s.embeddings, cosine);
      var top := TopIndices(scores, topK);
      && r.Success?
      && |r.value| == TakeCount(|s.embeddings|, topK)
      && Distinct(top)
      && (forall k :: 0 <= k < |top| ==>
            && r.value[k] == Annotated(s.metadata[top[k]], scores[top[k]], k + 1)
            && Lookup(r.value[k], RankKey) == Some(Int(k + 1))
            && Lookup(r.value[k], ScoreKey) == Some(Real(scores[top[k]])))
      && (forall k :: 0 <= k < |top| && IsZero(s.embeddings[top[k]]) ==> scores[top[k]] == 0.0)
      && (forall a, b :: 0 <= a < b < |top| ==> scores[top[a]] >= scores[top[b]])
      && (forall j, k :: 0 <= j < |scores| && j !in top && 0 <= k < |top| ==> scores[j] <= scores[top[k]])
  {
    var scores := Similarities(query, s.embeddings, cosine);
    var top := TopIndices(scores, topK);
    assert SearchOf(s, query, topK, cosine) == Annotate(s.metadata, scores, top);
    TopIndicesSpec(scores, topK);
    AnnotateSpec(s.metadata, scores, top);
    var hits := Annotate(s.metadata, scores, top).value;
    forall k | 0 <= k < |top|
      ensures Lookup(hits[k], RankKey) == Some(Int(k + 1)) && Lookup(hits[k], ScoreKey) == Some(Real(scores[top[k]]))
    {
      assert hits[k] == Annotated(s.metadata[top[k]], scores[top[k]], k + 1);
    }
  }

  /** The scoring loop of `search`: one similarity per stored vector, in order. */
  method ScoreAll(query: seq<real>, embeddings: seq<seq<real>>, cosine: Cosine) returns (similarities: seq<real>)
    ensures similarities == Similarities(query, embeddings, cosine)
  {
    similarities := [];
    for i := 0 to |embeddings|
      invariant |similarities| == i
      invariant forall j :: 0 <= j < i ==> similarities[j] == Similarity(query, embeddings[j], cosine)
    {
      var e := embeddings[i];
      var similarity := if IsZero(e) then 0.0 else cosine(query, e);
      similarities := similarities + [similarity];
    }
  }

  /** The result loop of `search`: a copy of each selected record with its score and rank. */
  method AnnotateAll(metadata: seq<Record>, similarities: seq<real>, top: seq<nat>)
    returns (r: Result<seq<Record>, IndexError>)
    requires forall k :: 0 <= k < |top| ==> top[k] < |similarities|
    ensures r == Annotate(metadata, similarities, top)
  {
    var results := [];
    for k := 0 to |top|
      invariant Annotate(metadata, similarities, top[..k]) == Success(results)
    {
      assert top[..k + 1][..k] == top[..k];
      var idx := top[k];
      if idx >= |metadata| {
        AnnotateFailed(metadata, similarities, top, k + 1);
        return Failure(MissingMetadata(idx));
      }
      results := results + [Annotated(metadata[idx], similarities[idx], k + 1)];
    }
    assert top[..|top|] == top;
    return Success(results);
  }

  // ---------------------------------------------------------------------------
  // Persistence
  // ---------------------------------------------------------------------------

  /** The serialised form of a snapshot: a flat token stream with length-prefixed lists. */
  datatype Token = TList(n: nat) | TText(s: string) | TInt(i: int) | TReal(r: real) | TNull

  /** A file store: path to contents. */
  type Files = map<string, seq<Token>>

  /** A reader of one item: the item and the tokens after it, or nothing. */
  type Reader<T> = seq<Token> -> Option<(T, seq<Token>)>

  /** The items of a list, one after the other. */
  function EncodeList<T>(xs: seq<T>, enc: T -> seq<Token>): seq<Token>
    decreases |xs|
  {
    if xs == [] then [] else enc(xs[0]) + EncodeList(xs[1..], enc)
  }

  /** Reads `n` items in a row. */
  function DecodeList<T>(n: nat, ts: seq<Token>, dec: Reader<T>): Option<(seq<T>, seq<Token>)>
    decreases n
  {
    if n == 0 then Some(([], ts))
    else match dec(ts)
      case None => None
      case Some((x, rest)) =>
        match DecodeList(n - 1, rest, dec)
        case None => None
        case Some((xs, rest')) => Some(([x] + xs, rest'))
  }

  /** `dec` reads back every item `enc` writes, whatever follows it. */
  ghost predicate Inverts<T(!new)>(enc: T -> seq<Token>, dec: Reader<T>) {
    forall x, rest :: dec(enc(x) + rest) == Some((x, rest))
  }

  lemma {:induction false} ListRoundTrip<T(!new)>(xs: seq<T>, enc: T -> seq<Token>, dec: Reader<T>, rest: seq<Token>)
    requires Inverts(enc, dec)
    ensures DecodeList(|xs|, EncodeList(xs, enc) + rest, dec) == Some((xs, rest))
    decreases |xs|
  {
    if xs == [] {
      assert EncodeList(xs, enc) + rest == rest;
    } else {
      var tail := EncodeList(xs[1..], enc) + rest;
      assert EncodeList(xs, enc) + rest == enc(xs[0]) + tail;
      assert dec(enc(xs[0]) + tail) == Some((xs[0], tail));
      ListRoundTrip(xs[1..], enc, dec, rest);
      assert [xs[0]] + xs[1..] == xs;
    }
  }

  /** A list as its length followed by its items. */
  function EncodePrefixed<T>(xs: seq<T>, enc: T -> seq<Token>): seq<Token> {
    [TList(|xs|)] + EncodeList(xs, enc)
  }

  function DecodePrefixed<T>(ts: seq<Token>, dec: Reader<T>): Option<(seq<T>, seq<Token>)> {
    if ts != [] && ts[0].TList? then DecodeList(ts[0].n, ts[1..], dec) else None
  }

  lemma PrefixedRoundTrip<T(!new)>(xs: seq<T>, enc: T -> seq<Token>, dec: Reader<T>, rest: seq<Token>)
    requires Inverts(enc, dec)
    ensures DecodePrefixed(EncodePrefixed(xs, enc) + rest, dec) == Some((xs, rest))
  {
    var ts := EncodePrefixed(xs, enc) + rest;
    assert ts[1..] == EncodeList(xs, enc) + rest;
    ListRoundTrip(xs, enc, dec, rest);
  }

  function EncodeReal(x: real): seq<Token> {
    [TReal(x)]
  }

  function DecodeReal(ts: seq<Token>): Option<(real, seq<Token>)> {
    if ts != [] && ts[0].TReal? then Some((ts[0].r, ts[1..])) else None
  }

  /** A list of floats: its length, then the floats. */
  function EncodeReals(xs: seq<real>): seq<Token> {
    EncodePrefixed(xs, EncodeReal)
  }

  function DecodeReals(ts: seq<Token>): Option<(seq<real>, seq<Token>)> {
    DecodePrefixed(ts, DecodeReal)
  }

  function EncodeValue(v: Value): seq<Token> {
    match v
    case Str(s) => [TText(s)]
    case Int(i) => [TInt(i)]
    case Real(r) => [TReal(r)]
    case Reals(xs) => EncodeReals(xs)
    case Null => [TNull]
  }

  function DecodeValue(ts: seq<Token>): Option<(Value, seq<Token>)> {
    if ts == [] then None
    else match ts[0]
      case TText(s) => Some((Str(s), ts[1..]))
      case TInt(i) => Some((Int(i), ts[1..]))
      case TReal(x) => Some((Real(x), ts[1..]))
      case TNull => Some((Null, ts[1..]))
      case TList(_) =>
        match DecodeReals(ts)
        case None => None
        case Some((xs, rest)) => Some((Reals(xs), rest))
  }

  /** A field: its key, then its value. */
  function EncodeField(f: Field): seq<Token> {
    [TText(f.key)] + EncodeValue(f.value)
  }

  function DecodeField(ts: seq<Token>): Option<(Field, seq<Token>)> {
    if ts == [] || !ts[0].TText? then None
    else match DecodeValue(ts[1..])
      case None => None
      case Some((v, rest)) => Some((Field(ts[0].s, v), rest))
  }

  /** A record: its number of fields, then the fields in order. */
  function EncodeRecord(r: Record): seq<Token> {
    EncodePrefixed(r, EncodeField)
  }

  function DecodeRecord(ts: seq<Token>): Option<(Record, seq<Token>)> {
    DecodePrefixed(ts, DecodeField)
  }

  function EncodeDimension(d: Option<nat>): Token {
    match d
    case None => TNull
    case Some(n) => TInt(n)
  }

  function DecodeDimension(t: Token): Option<Option<nat>> {
    match t
    case TNull => Some(None)
    case TInt(i) => if i >= 0 then Some(Some(i)) else None
    case _ => None
  }

  /** `save`'s payload: the embeddings, the metadata and the dimension, in that order. */
  function Encode(s: Snapshot): seq<Token> {
    EncodePrefixed(s.embeddings, EncodeReals)
      + (EncodePrefixed(s.metadata, EncodeRecord) + [EncodeDimension(s.dimension)])
  }

  /** `load`'s reading of a file: a snapshot, or nothing when the contents do not parse as one. */
  function Decode(ts: seq<Token>): Option<Snapshot> {
    match DecodePrefixed(ts, DecodeReals)
    case None => None
    case Some((es, rest)) =>
      match DecodePrefixed(rest, DecodeRecord)
      case None => None
      case Some((ms, rest')) =>
        if rest' == [] then None
        else match DecodeDimension(rest'[0])
          case None => None
          case Some(d) => Some(Snapshot(es, ms, d))
  }

  lemma RealInverts()
    ensures Inverts(EncodeReal, DecodeReal)
  {
    forall x: real, rest: seq<Token>
      ensures DecodeReal(EncodeReal(x) + rest) == Some((x, rest))
    {
      assert (EncodeReal(x) + rest)[1..] == rest;
    }
  }

  lemma RealsInverts()
    ensures Inverts(EncodeReals, DecodeReals)
  {
    RealInverts();
    forall xs: seq<real>, rest: seq<Token>
      ensures DecodeReals(EncodeReals(xs) + rest) == Some((xs, rest))
    {
      PrefixedRoundTrip(xs, EncodeReal, DecodeReal, rest);
    }
  }

  lemma ValueRoundTrip(v: Value, rest: seq<Token>)
    ensures DecodeValue(EncodeValue(v) + rest) == Some((v, rest))
  {
    var ts := EncodeValue(v) + rest;
    if v.Reals? {
      RealsInverts();
      assert DecodeReals(EncodeReals(v.v) + rest) == Some((v.v, rest));
    } else {
      assert ts[1..] == rest;
    }
  }

  lemma FieldInverts()
    ensures Inverts(EncodeField, DecodeField)
  {
    forall f: Field, rest: seq<Token>
      ensures DecodeField(EncodeField(f) + rest) == Some((f, rest))
    {
      var ts := EncodeField(f) + rest;
      assert ts[1..] == EncodeValue(f.value) + rest;
      ValueRoundTrip(f.value, rest);
    }
  }

  lemma RecordInverts()
    ensures Inverts(EncodeRecord, DecodeRecord)
  {
    FieldInverts();
    forall r: Record, rest: seq<Token>
      ensures DecodeRecord(EncodeRecord(r) + rest) == Some((r, rest))
    {
      PrefixedRoundTrip(r, EncodeField, DecodeField, rest);
    }
  }

  lemma EmbeddingsRoundTrip(es: seq<seq<real>>, rest: seq<Token>)
    ensures DecodePrefixed(EncodePrefixed(es, EncodeReals) + rest, DecodeReals) == Some((es, rest))
  {
    RealsInverts();
    PrefixedRoundTrip(es, EncodeReals, DecodeReals, rest);
  }

  lemma MetadataRoundTrip(ms: seq<Record>, rest: seq<Token>)
    ensures DecodePrefixed(EncodePrefixed(ms, EncodeRecord) + rest, DecodeRecord) == Some((ms, rest))
  {
    RecordInverts();
    PrefixedRoundTrip(ms, EncodeRecord, DecodeRecord, rest);
  }

  /** Loading what was saved gives back the same embeddings, metadata and dimension. */
  lemma DecodeEncode(s: Snapshot)
    ensures Decode(Encode(s)) == Some(s)
  {
    var dim := [EncodeDimension(s.dimension)];
    EmbeddingsRoundTrip(s.embeddings, EncodePrefixed(s.metadata, EncodeRecord) + dim);
    MetadataRoundTrip(s.metadata, dim);
  }

  // ---------------------------------------------------------------------------
  // The index object
  // ---------------------------------------------------------------------------

  /** `SimpleVectorIndex`: the stored vectors, their records and the dimension. */
  class VectorIndex {
    var embeddings: seq<seq<real>>
    var metadata: seq<Record>
    var dimension: Option<nat>

    function State(): Snapshot
      reads this
    {
      Snapshot(embeddings, metadata, dimension)
    }

    /** A new index holds nothing and has no dimension yet. */
    constructor ()
      ensures State() == Snapshot([], [], None)
    {
      embeddings := [];
      metadata := [];
      dimension := None;
    }

    /** `add_embeddings`: checks the lengths and the dimension, then extends both lists. */
    method AddEmbeddings(vectors: seq<seq<real>>, records: seq<Record>) returns (outcome: Outcome<IndexError>)
      modifies this
      ensures (State(), outcome) == Added(old(State()), vectors, records)
    {
      if |vectors| != |records| {
        return Fail(LengthMismatch);
      }
      if vectors == [] {
        return Pass;
      }
      if dimension.None? {
        dimension := Some(|vectors[0]|);
      }
      var dim := dimension.value;
      for i := 0 to |vectors|
        invariant forall j :: 0 <= j < i ==> |vectors[j]| == dim
      {
        if |vectors[i]| != dim {
          return Fail(DimensionMismatch(dim));
        }
      }
      embeddings := embeddings + vectors;
      metadata := metadata + records;
      return Pass;
    }

    /** `search`: scores every stored vector, ranks them and annotates the best `top_k` records. */
    method Search(query: seq<real>, topK: int, cosine: Cosine) returns (r: Result<seq<Record>, IndexError>)
      ensures r == SearchOf(State(), query, topK, cosine)
    {
      if embeddings == [] {
        return Success([]);
      }
      if dimension != Some(|query|) {
        return Failure(QueryDimension(dimension));
      }
      if IsZero(query) {
        return Failure(ZeroQuery);
      }
      var similarities := ScoreAll(query, embeddings, cosine);
      var top := TopIndices(similarities, topK);
      r := AnnotateAll(metadata, similarities, top);
    }

    /** `save`: writes the snapshot to `path`, replacing any earlier contents. */
    method Save(path: string, files: Files) returns (files': Files)
      ensures files' == files[path := Encode(State())]
      ensures Decode(files'[path]) == Some(State())
    {
      files' := files[path := Encode(State())];
      DecodeEncode(State());
    }

    /** `load`: a fresh index holding the snapshot stored at `path`. */
    static method Load(path: string, files: Files) returns (r: Result<VectorIndex, IndexError>)
      ensures path !in files ==> r == Failure(FileNotFound(path))
      ensures path in files && Decode(files[path]).None? ==> r == Failure(Unreadable(path))
      ensures path in files && Decode(files[path]).Some? ==> r.Success? && r.value.State() == Decode(files[path]).value
      ensures r.Success? ==> path in files && fresh(r.value) && Decode(files[path]) == Some(r.value.State())
    {
      if path !in files {
        return Failure(FileNotFound(path));
      }
      var data := Decode(files[path]);
      if data.None? {
        return Failure(Unreadable(path));
      }
      var index := new VectorIndex();
      index.embeddings := data.value.embeddings;
      index.metadata := data.value.metadata;
      index.dimension := data.value.dimension;
      return Success(index);
    }
  }

  /** `create_vector_index`: an empty index followed by one insertion, which may raise. */
  method CreateVectorIndex(vectors: seq<seq<real>>, records: seq<Record>) returns (r: Result<VectorIndex, IndexError>)
    ensures var (s, out) := Added(Snapshot([], [], None), vectors, records);
      && (r.Success? <==> out.Pass?)
      && (r.Failure? ==> r == Failure(out.error))
      && (r.Success? ==> fresh(r.value) && r.value.State() == s && Consistent(s))
  {
    var index := new VectorIndex();
    var outcome := index.AddEmbeddings(vectors, records);
    AddedConsistent(Snapshot([], [], None), vectors, records);
    if outcome.Fail? {
      return Failure(outcome.error);
    }
    return Success(index);
  }

  /** `load_vector_index`: the loaded index together with its metadata list. */
  method LoadVectorIndex(path: string, files: Files) returns (r: Result<(VectorIndex, seq<Record>), IndexError>)
    ensures path !in files ==> r == Failure(FileNotFound(path))
    ensures path in files && Decode(files[path]).None? ==> r == Failure(Unreadable(path))
    ensures path in files && Decode(files[path]).Some? ==> r.Success? && r.value.0.State() == Decode(files[path]).value
    ensures r.Success? ==>
      && path in files && fresh(r.value.0) && r.value.1 == r.value.0.metadata
      && Decode(files[path]) == Some(r.value.0.State())
  {
    var loaded := VectorIndex.Load(path, files);
    if loaded.Failure? {
      return Failure(loaded.error);
    }
    return Success((loaded.value, loaded.value.metadata));
  }

  /** `search_vector_index`: the index's own search. */
  method SearchVectorIndex(query: seq<real>, index: VectorIndex, topK: int, cosine: Cosine)
    returns (r: Result<seq<Record>, IndexError>)
    ensures r == SearchOf(index.State(), query, topK, cosine)
  {
    r := index.Search(query, topK, cosine);
  }

  /** An index saved and loaded again answers every search as the original does. */
  lemma SaveLoadSearch(s: Snapshot, query: seq<real>, topK: int, cosine: Cosine)
    ensures var loaded := Decode(Encode(s));
      loaded.Some? && SearchOf(loaded.value, query, topK, cosine) == SearchOf(s, query, topK, cosine)
  {
    DecodeEncode(s);
  }
}
