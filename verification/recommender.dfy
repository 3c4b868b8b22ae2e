/**
 The recommendation engine: construction (fit the scale on the candidate
 catalog, transform both catalogs with it), the query (resolve the pair in the
 frontend catalog, score every candidate against it on the eight feature
 columns, rank, drop the first-ranked, keep the next n). The listing of
 selectable songs is Catalog.AvailableSongs of the frontend. The similarity
 measure is a parameter: ranking and selection are proved for any measure.
 */
module Recommender {
  import opened Options
  import opened Songs
  import opened Normalizer
  import opened Catalog
  import opened Ranking

  /** One engine instance: both catalogs already scaled, and the parameters fitted on the candidate catalog. */
  datatype Engine = Engine(catalog: seq<Row>, frontend: seq<Row>, scaler: Scaler)

  /** Fitting rejects a candidate catalog without rows; transforming rejects a frontend without rows. */
  datatype InitError = EmptyCatalog | EmptyFrontend

  /** The number of recommendations a query asks for when the caller gives none. */
  const DefaultCount: int := 10

  /** A score for a query vector against a candidate vector (cosine similarity in the running system). */
  type Similarity = (seq<real>, seq<real>) -> real

  const NotFoundMessage: string := "Song not found in the dataset."

  /** What a query returns: the recommended (track, artist) pairs, or a message. */
  datatype Answer = Recommendations(songs: seq<TrackArtist>) | Message(text: string)

  /**
   Builds an engine from the two parsed catalogs. The scale is fitted on the
   candidate catalog only; the frontend is transformed with those parameters.
   Either step fails on a catalog without rows, the fit first.
   */
  function Init(rawCatalog: seq<Row>, rawFrontend: seq<Row>): (r: Result<Engine, InitError>)
    ensures r.Failure? <==> |rawCatalog| == 0 || |rawFrontend| == 0
    ensures r.Failure? ==> (r.error == EmptyCatalog <==> |rawCatalog| == 0)
    ensures r.Success? ==> FittedOn(r.value.scaler, rawCatalog)
    ensures r.Success? ==> |r.value.catalog| == |rawCatalog| && |r.value.frontend| == |rawFrontend|
    ensures r.Success? ==> forall i :: 0 <= i < |rawCatalog| ==> r.value.catalog[i] == TransformRow(r.value.scaler, rawCatalog[i])
    ensures r.Success? ==> forall i :: 0 <= i < |rawFrontend| ==> r.value.frontend[i] == TransformRow(r.value.scaler, rawFrontend[i])
  {
    match Fit(rawCatalog)
    case Failure(_) => Failure(EmptyCatalog)
    case Success(sc) =>
      if |rawFrontend| == 0 then Failure(EmptyFrontend)
      else Success(Engine(Transform(sc, rawCatalog), Transform(sc, rawFrontend), sc))
  }

  /**
   Every defined cell of the scaled candidate catalog lies in [0, 1], and
   exactly the cells that parsed are defined.
   */
  lemma InitCatalogInUnitRange(rawCatalog: seq<Row>, rawFrontend: seq<Row>)
    requires |rawCatalog| > 0 && |rawFrontend| > 0
    ensures Init(rawCatalog, rawFrontend).Success?
    ensures var e := Init(rawCatalog, rawFrontend).value;
            forall i, c :: 0 <= i < |e.catalog| ==>
              && (Get(e.catalog[i], c).Some? <==> Get(rawCatalog[i], c).Some?)
              && (Get(e.catalog[i], c).Some? ==> 0.0 <= Get(e.catalog[i], c).value <= 1.0)
  {
    FittedCatalogInUnitRange(rawCatalog);
  }

  /**
   A frontend value that also occurs in the candidate catalog's column
   scales to the same number as the catalog's, because the frontend is
   transformed, not refitted.
   */
  lemma InitFrontendSharesScale(rawCatalog: seq<Row>, rawFrontend: seq<Row>, f: nat, i: nat, c: Column)
    requires f < |rawFrontend| && i < |rawCatalog|
    requires Get(rawFrontend[f], c).Some? && Get(rawFrontend[f], c) == Get(rawCatalog[i], c)
    ensures Init(rawCatalog, rawFrontend).Success?
    ensures var e := Init(rawCatalog, rawFrontend).value;
            && Get(e.frontend[f], c) == Get(e.catalog[i], c)
            && 0.0 <= Get(e.frontend[f], c).value <= 1.0
  {
    FrontendUsesCatalogScale(rawCatalog, rawFrontend[f], c, i);
  }

  predicate CatalogReady(rows: seq<Row>) {
    forall i :: 0 <= i < |rows| ==> FeaturesDefined(rows[i])
  }

  /** The similarity of the query vector to every candidate, in catalog order. */
  function Scores(sim: Similarity, q: seq<real>, rows: seq<Row>): (s: seq<real>)
    requires CatalogReady(rows)
    ensures |s| == |rows|
    ensures forall i :: 0 <= i < |rows| ==> s[i] == sim(q, Features(rows[i]))
  {
    seq(|rows|, i requires 0 <= i < |rows| => sim(q, Features(rows[i])))
  }

  /** The inputs a query needs defined: if the pair resolves, its row's features and every candidate's. */
  predicate QueryReady(e: Engine, title: string, artist: string) {
    match FirstMatch(e.frontend, title, artist)
    case None => true
    case Some(i) => FeaturesDefined(e.frontend[i]) && CatalogReady(e.catalog)
  }

  /** The scores of every candidate against the query row frontend[i]. */
  function QueryScores(e: Engine, i: nat, sim: Similarity): (s: seq<real>)
    requires i < |e.frontend| && FeaturesDefined(e.frontend[i]) && CatalogReady(e.catalog)
    ensures |s| == |e.catalog|
  {
    Scores(sim, Features(e.frontend[i]), e.catalog)
  }

  /** The catalog indices recommended for the query row frontend[i]. */
  function RecommendedIndices(e: Engine, i: nat, n: int, sim: Similarity): seq<nat>
    requires i < |e.frontend| && FeaturesDefined(e.frontend[i]) && CatalogReady(e.catalog)
  {
    TopAfterFirst(Rank(QueryScores(e, i, sim)), n)
  }

  function Project(rows: seq<Row>, idx: seq<nat>): (songs: seq<TrackArtist>)
    requires InRange(idx, |rows|)
    ensures |songs| == |idx|
    ensures forall k :: 0 <= k < |idx| ==> songs[k] == Id(rows[idx[k]])
  {
    seq(|idx|, k requires 0 <= k < |idx| => Id(rows[idx[k]]))
  }

  /**
   get_recommendations: the not-found message when no frontend row matches
   the pair; otherwise the (track, artist) pairs of the recommended catalog rows.
   */
  function GetRecommendations(e: Engine, title: string, artist: string, n: int, sim: Similarity): (r: Answer)
    requires QueryReady(e, title, artist)
    ensures r.Message? <==> forall j :: 0 <= j < |e.frontend| ==> !Matches(e.frontend[j], title, artist)
    ensures r.Message? ==> r.text == NotFoundMessage
    ensures r.Recommendations? && n >= 0 ==> |r.songs| == MinInt(n, MaxInt(0, |e.catalog| - 1))
    ensures r.Recommendations? ==> |r.songs| <= |e.catalog|
  {
    match FirstMatch(e.frontend, title, artist)
    case None => Message(NotFoundMessage)
    case Some(i) =>
      var order := Rank(QueryScores(e, i, sim));
      TopAfterFirstShape(order, n);
      TopAfterFirstOrdered(QueryScores(e, i, sim), order, n);
      Recommendations(Project(e.catalog, RecommendedIndices(e, i, n, sim)))
  }

  /**
   What a resolved query answers: the (track, artist) pairs of distinct
   catalog rows, in non-increasing similarity to the query row, never the
   first-ranked row, and with no other row left out that is more similar
   than one of them; nothing when the candidate catalog is empty.
   */
  lemma RecommendationsContent(e: Engine, title: string, artist: string, n: int, sim: Similarity)
    requires QueryReady(e, title, artist)
    requires FirstMatch(e.frontend, title, artist).Some?
    ensures var i := FirstMatch(e.frontend, title, artist).value;
            var s := QueryScores(e, i, sim);
            var r := GetRecommendations(e, title, artist, n, sim);
            && r.Recommendations?
            && (|e.catalog| == 0 ==> r.songs == [])
            && (|e.catalog| > 0 ==>
                  exists idx: seq<nat> ::
                    && InRange(idx, |e.catalog|)
                    && r.songs == Project(e.catalog, idx)
                    && SelectedAfter(s, Rank(s)[0], idx))
  {
    var i := FirstMatch(e.frontend, title, artist).value;
    var s := QueryScores(e, i, sim);
    if |e.catalog| > 0 {
      TopAfterFirstSelects(s, Rank(s), n);
    }
  }

  /** The recommended rows are distinct catalog rows in non-increasing score order. */
  lemma RecommendedIndicesOrdered(e: Engine, i: nat, n: int, sim: Similarity)
    requires i < |e.frontend| && FeaturesDefined(e.frontend[i]) && CatalogReady(e.catalog)
    ensures var idx := RecommendedIndices(e, i, n, sim);
            InRange(idx, |e.catalog|) && Distinct(idx) && Descending(QueryScores(e, i, sim), idx)
  {
    TopAfterFirstOrdered(QueryScores(e, i, sim), Rank(QueryScores(e, i, sim)), n);
  }

  /**
   The first-ranked candidate is dropped, whether or not it is the query's own
   row, and no recommended row scores above it.
   */
  lemma RecommendedIndicesDropFirstRanked(e: Engine, i: nat, n: int, sim: Similarity)
    requires i < |e.frontend| && FeaturesDefined(e.frontend[i]) && CatalogReady(e.catalog)
    requires |e.catalog| > 0
    ensures var s := QueryScores(e, i, sim);
            var top := Rank(s)[0];
            var idx := RecommendedIndices(e, i, n, sim);
            && top !in idx
            && forall k :: 0 <= k < |idx| ==> s[idx[k]] <= s[top]
  {
    TopAfterFirstDropsFirst(QueryScores(e, i, sim), Rank(QueryScores(e, i, sim)), n);
  }

  /** No candidate left out, other than the dropped first-ranked one, scores above a recommended row. */
  lemma RecommendedIndicesKeepBest(e: Engine, i: nat, n: int, sim: Similarity, k: nat, j: nat)
    requires i < |e.frontend| && FeaturesDefined(e.frontend[i]) && CatalogReady(e.catalog)
    requires k < |RecommendedIndices(e, i, n, sim)|
    requires j < |e.catalog| && j !in RecommendedIndices(e, i, n, sim) && j != Rank(QueryScores(e, i, sim))[0]
    ensures QueryScores(e, i, sim)[j] <= QueryScores(e, i, sim)[RecommendedIndices(e, i, n, sim)[k]]
  {
    TopAfterFirstKeepsBest(QueryScores(e, i, sim), Rank(QueryScores(e, i, sim)), n, k, j);
  }

  /**
   If the query's own row is a candidate that scores strictly above every other
   candidate, it is never recommended to itself.
   */
  lemma QueryExcludedWhenUniqueBest(e: Engine, i: nat, n: int, sim: Similarity, q: nat)
    requires i < |e.frontend| && FeaturesDefined(e.frontend[i]) && CatalogReady(e.catalog)
    requires q < |e.catalog|
    requires var s := QueryScores(e, i, sim);
             forall j :: 0 <= j < |e.catalog| && j != q ==> s[j] < s[q]
    ensures q !in RecommendedIndices(e, i, n, sim)
  {
    var s := QueryScores(e, i, sim);
    UniqueBestNotReturned(s, Rank(s), n, q);
  }

  /**
   Dropping the first-ranked candidate is not exclusion by identity: when the
   query row and a duplicate of it are the only two best-scoring candidates and
   n >= 1, the first recommendation is one of them.
   */
  lemma DuplicateOfQueryRecommended(e: Engine, i: nat, n: int, sim: Similarity, p: nat, q: nat)
    requires i < |e.frontend| && FeaturesDefined(e.frontend[i]) && CatalogReady(e.catalog)
    requires p < |e.catalog| && q < |e.catalog| && p != q && n >= 1
    requires var s := QueryScores(e, i, sim);
             s[p] == s[q] && forall j :: 0 <= j < |e.catalog| && j != p && j != q ==> s[j] < s[p]
    ensures |RecommendedIndices(e, i, n, sim)| >= 1
    ensures RecommendedIndices(e, i, n, sim)[0] in {p, q}
  {
    var s := QueryScores(e, i, sim);
    TiedBestReturned(s, Rank(s), n, p, q);
  }

  /** Two catalogs that differ at most in the streams column. */
  predicate SameButStreams(a: seq<Row>, b: seq<Row>) {
    && |a| == |b|
    && (forall i :: 0 <= i < |a| ==> Id(a[i]) == Id(b[i]))
    && (forall i, c :: 0 <= i < |a| && c != Streams ==> Get(a[i], c) == Get(b[i], c))
  }

  /** Scores read only the feature columns, so streams cannot change them. */
  lemma ScoresIgnoreStreams(sim: Similarity, q: seq<real>, a: seq<Row>, b: seq<Row>)
    requires SameButStreams(a, b) && CatalogReady(a)
    ensures CatalogReady(b) && Scores(sim, q, a) == Scores(sim, q, b)
  {
    forall j | 0 <= j < |a|
      ensures FeaturesDefined(b[j]) && Features(a[j]) == Features(b[j])
    {
      FeaturesIgnoreStreams(a[j], b[j]);
    }
  }

  /** Lookup reads only the names, so catalogs with the same names resolve a pair to the same row. */
  lemma FirstMatchIgnoresStreams(a: seq<Row>, b: seq<Row>, title: string, artist: string)
    requires SameButStreams(a, b)
    ensures FirstMatch(a, title, artist) == FirstMatch(b, title, artist)
  {
    assert forall j :: 0 <= j < |a| ==> (Matches(a[j], title, artist) <==> Matches(b[j], title, artist)) by {
      forall j | 0 <= j < |a| ensures Matches(a[j], title, artist) <==> Matches(b[j], title, artist) {
        assert Id(a[j]) == Id(b[j]);
      }
    }
  }

  /** The streams column is scaled but never affects a recommendation. */
  lemma StreamsIgnored(e1: Engine, e2: Engine, title: string, artist: string, n: int, sim: Similarity)
    requires SameButStreams(e1.catalog, e2.catalog) && SameButStreams(e1.frontend, e2.frontend)
    requires QueryReady(e1, title, artist)
    ensures QueryReady(e2, title, artist)
    ensures GetRecommendations(e1, title, artist, n, sim) == GetRecommendations(e2, title, artist, n, sim)
  {
    FirstMatchIgnoresStreams(e1.frontend, e2.frontend, title, artist);
    match FirstMatch(e1.frontend, title, artist)
    case None =>
    case Some(i) =>
      FeaturesIgnoreStreams(e1.frontend[i], e2.frontend[i]);
      ScoresIgnoreStreams(sim, Features(e1.frontend[i]), e1.catalog, e2.catalog);
      assert QueryScores(e1, i, sim) == QueryScores(e2, i, sim);
      assert RecommendedIndices(e1, i, n, sim) == RecommendedIndices(e2, i, n, sim);
      var idx := RecommendedIndices(e1, i, n, sim);
      RecommendedIndicesOrdered(e1, i, n, sim);
      assert Project(e1.catalog, idx) == Project(e2.catalog, idx);
  }
}
