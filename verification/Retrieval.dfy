/** Retrieval over all collections: each collection's best hits are merged and cut again.

    Scores are reals, so they are totally ordered; the dot product of two embeddings is any
    function of them. A row's embedding may fail to decode. */
module Retrieval {
  import opened Prelude
  import opened Sorting

  type Vector = seq<real>

  datatype Row = Row(id: string, text: string, embedding: Option<Vector>)

  datatype Hit = Hit(id: string, text: string, score: real)

  datatype Query = Query(vector: Vector, dot: (Vector, Vector) -> real, minScore: real)

  /** Ranking: the higher score first. */
  predicate Ahead(x: Hit, y: Hit) {
    x.score >= y.score
  }

  /** The row counts as a hit: its vector has the query's dimension and scores high enough. */
  predicate Qualifies(q: Query, row: Row) {
    && row.embedding.Some?
    && |row.embedding.value| == |q.vector|
    && q.dot(q.vector, row.embedding.value) >= q.minScore
  }

  function HitOf(q: Query, row: Row): Hit
    requires row.embedding.Some?
  {
    Hit(row.id, row.text, q.dot(q.vector, row.embedding.value))
  }

  /** The hits among the first `n` rows, in row order. */
  function Hits(q: Query, rows: seq<Row>, n: nat): seq<Hit>
    requires n <= |rows|
  {
    if n == 0 then []
    else
      var before := Hits(q, rows, n - 1);
      if Qualifies(q, rows[n - 1]) then before + [HitOf(q, rows[n - 1])] else before
  }

  /** Every embedding of the collection can be decoded. */
  ghost predicate Readable(rows: seq<Row>) {
    forall i :: 0 <= i < |rows| ==> rows[i].embedding.Some?
  }

  function Ranked(hits: seq<Hit>, topK: nat): seq<Hit> {
    Take(StableSort(Ahead, hits), topK)
  }

  /** Every hit of the first `n` collections that can be read, in the order of the collections. */
  ghost function AllHits(q: Query, collections: seq<seq<Row>>, n: nat): seq<Hit>
    requires n <= |collections|
  {
    if n == 0 then []
    else
      var rows := collections[n - 1];
      var before := AllHits(q, collections, n - 1);
      if Readable(rows) then before + Hits(q, rows, |rows|) else before
  }

  /** What the merge starts from: the best `topK` hits of each collection. */
  ghost function TopHits(q: Query, collections: seq<seq<Row>>, n: nat, topK: nat): seq<Hit>
    requires n <= |collections|
  {
    if n == 0 then []
    else
      var rows := collections[n - 1];
      var before := TopHits(q, collections, n - 1, topK);
      if Readable(rows) then before + Ranked(Hits(q, rows, |rows|), topK) else before
  }

  lemma AheadIsOrder()
    ensures TotalPreorder(Ahead)
  {
  }

  lemma RankedIsFixed(hits: seq<Hit>, topK: nat)
    ensures StableSort(Ahead, Ranked(hits, topK)) == Ranked(hits, topK)
  {
    AheadIsOrder();
    StableSortIsStable(Ahead, hits);
    SortedIsFixed(Ahead, Ranked(hits, topK));
  }

  /** Replacing what precedes by something of the same rank, and what follows by its best part. */
  lemma RankedOfConcat(x: seq<Hit>, x': seq<Hit>, y: seq<Hit>, topK: nat)
    requires Ranked(x, topK) == Ranked(x', topK)
    ensures Ranked(x + Ranked(y, topK), topK) == Ranked(x' + y, topK)
  {
    AheadIsOrder();
    var top := Ranked(y, topK);
    SortOfConcat(Ahead, x, top);
    SortOfConcat(Ahead, x', y);
    RankedIsFixed(y, topK);
    TakeOfMerge(Ahead, StableSort(Ahead, x), top, topK, topK, topK);
    TakeOfMerge(Ahead, StableSort(Ahead, x'), StableSort(Ahead, y), topK, topK, topK);
    assert Take(top, topK) == top;
  }

  /** Ranking the best hits of each collection is ranking all hits. */
  lemma {:induction false} MergedTopIsGlobalTop(q: Query, collections: seq<seq<Row>>, n: nat, topK: nat)
    requires n <= |collections|
    ensures Ranked(TopHits(q, collections, n, topK), topK) == Ranked(AllHits(q, collections, n), topK)
  {
    if n > 0 {
      MergedTopIsGlobalTop(q, collections, n - 1, topK);
      var rows := collections[n - 1];
      RankedOfConcat(TopHits(q, collections, n - 1, topK), AllHits(q, collections, n - 1),
                     Hits(q, rows, |rows|), topK);
    }
  }

  /** A ranking's first `topK`: as many as there are up to `topK`, best first, none left out that
      is better than one taken, and nothing else. */
  lemma RankedIsBest(hits: seq<Hit>, topK: nat)
    ensures var r, rest := Ranked(hits, topK), StableSort(Ahead, hits)[|Ranked(hits, topK)|..];
      && |r| == Min(topK, |hits|)
      && Sorted(Ahead, r)
      && multiset(r) + multiset(rest) == multiset(hits)
      && forall i, j :: 0 <= i < |r| && 0 <= j < |rest| ==> Ahead(r[i], rest[j])
  {
    hide StableSort;
    var all, r := StableSort(Ahead, hits), Ranked(hits, topK);
    assert Sorted(Ahead, all) && |all| == |hits| && multiset(all) == multiset(hits) by {
      AheadIsOrder();
      StableSortIsStable(Ahead, hits);
    }
    var n := |r|;
    assert r == all[..n] && all == all[..n] + all[n..];
    assert forall i, j :: 0 <= i < n <= j < |all| ==> Ahead(all[i], all[j]);
  }

  // ---- the best hits, in terms of rows and scores ----

  /** A place in the store: a collection and a row of it. */
  datatype Place = Place(c: nat, r: nat) {
    predicate In(collections: seq<seq<Row>>) {
      c < |collections| && r < |collections[c]|
    }

    /** Collection by collection, row by row. */
    predicate Before(other: Place) {
      c < other.c || (c == other.c && r < other.r)
    }
  }

  /** The row at the place is to be found: its collection has no embedding that cannot be decoded, and
      its own vector has the query's dimension and scores at least the minimum. */
  ghost predicate Wanted(q: Query, collections: seq<seq<Row>>, p: Place) {
    && p.In(collections)
    && (forall i :: 0 <= i < |collections[p.c]| ==> collections[p.c][i].embedding.Some?)
    && |collections[p.c][p.r].embedding.value| == |q.vector|
    && q.dot(q.vector, collections[p.c][p.r].embedding.value) >= q.minScore
  }

  /** The hit tells the row's id, text and score. */
  ghost predicate Tells(q: Query, collections: seq<seq<Row>>, p: Place, hit: Hit)
    requires Wanted(q, collections, p)
  {
    var row := collections[p.c][p.r];
    && hit.id == row.id && hit.text == row.text
    && hit.score == q.dot(q.vector, row.embedding.value)
  }

  ghost function Score(q: Query, collections: seq<seq<Row>>, p: Place): real
    requires Wanted(q, collections, p)
  {
    q.dot(q.vector, collections[p.c][p.r].embedding.value)
  }

  /** One place scores higher than the other, or the same and comes first. */
  ghost predicate Beats(q: Query, collections: seq<seq<Row>>, p: Place, p': Place)
    requires Wanted(q, collections, p) && Wanted(q, collections, p')
  {
    var x, y := Score(q, collections, p), Score(q, collections, p');
    x > y || (x == y && p.Before(p'))
  }

  /** The hits tell of these places. */
  ghost predicate AllTold(q: Query, collections: seq<seq<Row>>, places: seq<Place>, hits: seq<Hit>) {
    && |hits| == |places|
    && forall i :: 0 <= i < |places| ==> Wanted(q, collections, places[i]) && Tells(q, collections, places[i], hits[i])
  }

  ghost predicate AreBest(q: Query, collections: seq<seq<Row>>, limit: nat, places: seq<Place>)
    requires forall i :: 0 <= i < |places| ==> Wanted(q, collections, places[i])
  {
    && |places| <= limit
    && (forall i, j :: 0 <= i < j < |places| ==> Beats(q, collections, places[i], places[j]))
    && (forall p :: Wanted(q, collections, p) && p !in places ==>
          |places| == limit && forall i :: 0 <= i < |places| ==> Beats(q, collections, places[i], p))
  }

  /** The hits are the best: those of wanted places in order of score, equals in store order, up to the
      limit; a wanted place is left out only beyond the limit and when every hit beats it. */
  ghost predicate Best(q: Query, collections: seq<seq<Row>>, limit: nat, hits: seq<Hit>) {
    exists places :: AllTold(q, collections, places, hits) && AreBest(q, collections, limit, places)
  }

  /** The places of the hits among the first `n` rows of collection `c`. */
  ghost function Places(q: Query, rows: seq<Row>, c: nat, n: nat): seq<Place>
    requires n <= |rows|
  {
    if n == 0 then []
    else
      var before := Places(q, rows, c, n - 1);
      if Qualifies(q, rows[n - 1]) then before + [Place(c, n - 1)] else before
  }

  ghost function AllPlaces(q: Query, collections: seq<seq<Row>>, n: nat): seq<Place>
    requires n <= |collections|
  {
    if n == 0 then []
    else
      var rows := collections[n - 1];
      var before := AllPlaces(q, collections, n - 1);
      if Readable(rows) then before + Places(q, rows, n - 1, |rows|) else before
  }

  /** The places go upwards. */
  ghost predicate InStoreOrder(places: seq<Place>) {
    forall i, j :: 0 <= i < j < |places| ==> places[i].Before(places[j])
  }

  lemma {:induction false} PlacesOfHits(q: Query, collections: seq<seq<Row>>, c: nat, n: nat)
    requires c < |collections| && Readable(collections[c]) && n <= |collections[c]|
    ensures var places := Places(q, collections[c], c, n);
      && AllTold(q, collections, places, Hits(q, collections[c], n))
      && InStoreOrder(places) && (forall p :: p in places ==> p.c == c && p.r < n)
      && (forall p :: Wanted(q, collections, p) && p.c == c && p.r < n ==> p in places)
  {
    if n > 0 {
      PlacesOfHits(q, collections, c, n - 1);
      var before := Places(q, collections[c], c, n - 1);
      var p := Place(c, n - 1);
      assert forall i :: 0 <= i < |before| ==> before[i] in before;
      assert Qualifies(q, collections[c][n - 1]) <==> Wanted(q, collections, p);
    }
  }

  /** Every wanted place of the collections up to `n` is among these. */
  ghost predicate HasAll(q: Query, collections: seq<seq<Row>>, places: seq<Place>, n: nat) {
    forall p :: Wanted(q, collections, p) && p.c < n ==> p in places
  }

  ghost predicate Below(places: seq<Place>, n: nat) {
    forall i :: 0 <= i < |places| ==> places[i].c < n
  }

  lemma InOrderConcat(x: seq<Place>, y: seq<Place>, c: nat)
    requires InStoreOrder(x) && InStoreOrder(y) && Below(x, c)
    requires forall p :: p in y ==> p.c == c
    ensures InStoreOrder(x + y) && Below(x + y, c + 1)
  {
    assert forall i :: 0 <= i < |y| ==> y[i] in y;
  }

  lemma ToldConcat(q: Query, collections: seq<seq<Row>>, x: seq<Place>, hx: seq<Hit>, y: seq<Place>, hy: seq<Hit>)
    requires AllTold(q, collections, x, hx) && AllTold(q, collections, y, hy)
    ensures AllTold(q, collections, x + y, hx + hy)
  {
  }

  lemma {:induction false} PlacesOfAllHits(q: Query, collections: seq<seq<Row>>, n: nat)
    requires n <= |collections|
    ensures var places := AllPlaces(q, collections, n);
      && AllTold(q, collections, places, AllHits(q, collections, n))
      && InStoreOrder(places) && Below(places, n) && HasAll(q, collections, places, n)
  {
    if n > 0 {
      var rows := collections[n - 1];
      PlacesOfAllHits(q, collections, n - 1);
      if Readable(rows) {
        var before, last := AllPlaces(q, collections, n - 1), Places(q, rows, n - 1, |rows|);
        var hits := AllHits(q, collections, n - 1);
        PlacesOfHits(q, collections, n - 1, |rows|);
        InOrderConcat(before, last, n - 1);
        ToldConcat(q, collections, before, hits, last, Hits(q, rows, |rows|));
        assert AllPlaces(q, collections, n) == before + last;
        assert HasAll(q, collections, before + last, n);
      }
    }
  }

  lemma SortedBeats(q: Query, collections: seq<seq<Row>>, all: seq<Place>, hits: seq<Hit>, order: seq<nat>,
                    i: nat, j: nat)
    requires AllTold(q, collections, all, hits) && InStoreOrder(all)
    requires IsOrder(Ahead, hits, order) && i < j < |order|
    ensures Beats(q, collections, all[order[i]], all[order[j]])
  {
    assert GoesFirst(Ahead, hits, order[i], order[j]);
    assert Tells(q, collections, all[order[i]], hits[order[i]]);
    assert Tells(q, collections, all[order[j]], hits[order[j]]);
  }

  /** A wanted place that is not among the first `n` comes later in the order. */
  lemma ComesLater(all: seq<Place>, order: seq<nat>, n: nat, p: Place) returns (j: nat)
    requires p in all && n <= |order| == |all|
    requires forall i :: 0 <= i < |order| ==> order[i] < |all|
    requires forall k :: 0 <= k < |all| ==> k in order
    requires forall i :: 0 <= i < n ==> all[order[i]] != p
    ensures n <= j < |order| && all[order[j]] == p
  {
    var k :| 0 <= k < |all| && all[k] == p;
    assert k in order;
    j :| 0 <= j < |order| && order[j] == k;
  }

  /** The hits at the first positions of the sorted order are the best. */
  lemma TakenAreBest(q: Query, collections: seq<seq<Row>>, all: seq<Place>, hits: seq<Hit>, order: seq<nat>, limit: nat)
    returns (places: seq<Place>)
    requires AllTold(q, collections, all, hits) && InStoreOrder(all)
    requires forall p :: Wanted(q, collections, p) ==> p in all
    requires IsOrder(Ahead, hits, order) && Reordered(hits, order, StableSort(Ahead, hits))
    ensures AllTold(q, collections, places, Ranked(hits, limit)) && AreBest(q, collections, limit, places)
  {
    var n := Min(limit, |hits|);
    places := seq(n, i requires 0 <= i < n => all[order[i]]);
    assert forall i :: 0 <= i < n ==> places[i] in places && places[i] == all[order[i]];
    forall i, j | 0 <= i < j < n
      ensures Beats(q, collections, places[i], places[j])
    {
      SortedBeats(q, collections, all, hits, order, i, j);
    }
    forall p | Wanted(q, collections, p) && p !in places
      ensures |places| == limit && forall i :: 0 <= i < |places| ==> Beats(q, collections, places[i], p)
    {
      var j := ComesLater(all, order, n, p);
      forall i | 0 <= i < n
        ensures Beats(q, collections, places[i], p)
      {
        SortedBeats(q, collections, all, hits, order, i, j);
      }
    }
  }

  lemma RankedAreBest(q: Query, collections: seq<seq<Row>>, limit: nat)
    ensures Best(q, collections, limit, Ranked(AllHits(q, collections, |collections|), limit))
  {
    var hits, all := AllHits(q, collections, |collections|), AllPlaces(q, collections, |collections|);
    PlacesOfAllHits(q, collections, |collections|);
    AheadIsOrder();
    var order := StableSortOrder(Ahead, hits);
    var places := TakenAreBest(q, collections, all, hits, order, limit);
  }

  /** The search of one collection. */
  lemma SearchIsBest(q: Query, rows: seq<Row>, limit: nat)
    requires Readable(rows)
    ensures Best(q, [rows], limit, Ranked(Hits(q, rows, |rows|), limit))
  {
    var hits := Hits(q, rows, |rows|);
    assert AllHits(q, [rows], |[rows]|) == AllHits(q, [rows], 0) + hits == hits;
    RankedAreBest(q, [rows], limit);
  }

  /** One collection's search. */
  method Search(q: Query, rows: seq<Row>, topK: nat) returns (r: Result<seq<Hit>, string>)
    ensures r.Ok? <==> Readable(rows)
    ensures r.Ok? ==> r.value == Ranked(Hits(q, rows, |rows|), topK) && Best(q, [rows], topK, r.value)
  {
    var scored: seq<Hit> := [];
    for i := 0 to |rows|
      invariant Readable(rows[..i])
      invariant scored == Hits(q, rows, i)
    {
      match rows[i].embedding {
        case None =>
          return Err("bad embedding");
        case Some(emb) =>
          if |emb| == |q.vector| {
            var score := q.dot(q.vector, emb);
            if score >= q.minScore {
              scored := scored + [Hit(rows[i].id, rows[i].text, score)];
            }
          }
      }
      assert rows[..i + 1] == rows[..i] + [rows[i]];
    }
    assert rows[..|rows|] == rows;
    scored := StableSort(Ahead, scored);
    if topK < |scored| {
      scored := scored[..topK];
    }
    r := Ok(scored);
    SearchIsBest(q, rows, topK);
  }

  /** Search every collection, merge, rank and cut: exactly the first hits of ranking everything
      that any readable collection holds. A collection that fails is skipped. */
  method RetrieveAllCollections(q: Query, collections: seq<seq<Row>>, requested: nat)
    returns (all: seq<Hit>)
    ensures all == Ranked(AllHits(q, collections, |collections|), Max(requested, 1))
    ensures Best(q, collections, if requested == 0 then 1 else requested, all)
  {
    var topK := Max(requested, 1);
    all := [];
    MergedTopIsGlobalTop(q, collections, |collections|, topK);
    RankedAreBest(q, collections, topK);
    if collections == [] {
      return;
    }
    for i := 0 to |collections|
      invariant all == TopHits(q, collections, i, topK)
    {
      var r := Search(q, collections[i], topK);
      match r {
        case Ok(hits) => all := all + hits;
        case Err(_) =>
      }
    }
    all := StableSort(Ahead, all);
    if topK < |all| {
      all := all[..topK];
    }
  }
}
