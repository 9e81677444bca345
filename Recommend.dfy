/**
 * `recommend` of app.py: find the first row with the query title (an empty
 * list when there is none), rank that row of the similarity matrix, and
 * build one record per candidate that indexes the catalog, skipping any
 * that does not, in rank order.
 */
module Recommend {
  import opened Common
  import opened Ranking
  import opened Catalog
  import opened Poster

  /** The dictionary appended for each recommended movie. */
  datatype Recommendation = Recommendation(
    title: string, poster: string, cast: Value, crew: Value, overview: string)

  /** The `title` column. */
  function TitlesOf(movies: seq<Movie>): (titles: seq<string>)
    ensures |titles| == |movies|
    ensures forall k :: 0 <= k < |movies| ==> titles[k] == movies[k].title
  {
    seq(|movies|, k requires 0 <= k < |movies| => movies[k].title)
  }

  /** The record of one movie row: its own fields and its fetched poster. */
  function RecordFor(m: Movie, net: Transport): (rec: Recommendation)
    ensures rec.title == m.title && rec.cast == m.cast && rec.crew == m.crew && rec.overview == m.overview
    ensures rec.poster == PosterUrl(net, m.movieId)
    ensures rec.poster == NoImage || rec.poster == NoPoster || IsImageUrl(rec.poster)
  {
    Recommendation(m.title, PosterUrl(net, m.movieId), m.cast, m.crew, m.overview)
  }

  /** The candidates that pass `p[0] < len(movies)`, in their order. */
  function InBounds(cands: seq<nat>, n: nat): (r: seq<nat>)
    ensures forall x :: x in r <==> x in cands && x < n
    ensures forall k :: 0 <= k < |r| ==> r[k] < n
    ensures SubsequenceOf(r, cands)
    ensures |r| <= |cands|
  {
    if cands == [] then []
    else
      var init, c := cands[..|cands| - 1], cands[|cands| - 1];
      var r := InBounds(init, n);
      assert forall x :: x in cands <==> x in init || x == c by {
        assert cands == init + [c];
      }
      if c < n then
        assert (r + [c])[..|r|] == r;
        r + [c]
      else r
  }

  /** Nothing is skipped when every candidate indexes the catalog. */
  lemma {:induction false} InBoundsAll(cands: seq<nat>, n: nat)
    requires forall k :: 0 <= k < |cands| ==> cands[k] < n
    ensures InBounds(cands, n) == cands
    decreases |cands|
  {
    if cands != [] {
      InBoundsAll(cands[..|cands| - 1], n);
    }
  }

  /** Skipping keeps the rank order of what is left. */
  lemma {:induction false} InBoundsRankOrdered(row: seq<real>, cands: seq<nat>, n: nat)
    requires RankOrdered(row, cands)
    ensures RankOrdered(row, InBounds(cands, n))
    decreases |cands|
  {
    if cands != [] {
      var init, c := cands[..|cands| - 1], cands[|cands| - 1];
      assert RankOrdered(row, init);
      InBoundsRankOrdered(row, init, n);
      var r := InBounds(init, n);
      forall a | 0 <= a < |r| ensures Precedes(row, r[a], c) {
        assert r[a] in init;
        var p :| 0 <= p < |init| && init[p] == r[a];
        assert cands[p] == r[a];
      }
    }
  }

  function RecordsFor(movies: seq<Movie>, shown: seq<nat>, net: Transport): (recs: seq<Recommendation>)
    requires forall k :: 0 <= k < |shown| ==> shown[k] < |movies|
    ensures |recs| == |shown|
  {
    seq(|shown|, k requires 0 <= k < |shown| => RecordFor(movies[shown[k]], net))
  }

  /** What `recommend` returns, or the exception it raises: indexing a
      similarity matrix with fewer rows than the catalog is not caught. */
  function Recommendations(movies: seq<Movie>, similarity: seq<seq<real>>, title: string, net: Transport)
    : (r: Result<seq<Recommendation>, Crash>)
    ensures r.Err? ==> r == Err(SimilarityRowMissing)
    ensures title !in TitlesOf(movies) ==> r == Ok([])
    ensures r.Ok? ==> |r.value| <= 5
  {
    match FirstIndex(TitlesOf(movies), title)
    case None => Ok([])
    case Some(q) =>
      if q >= |similarity| then Err(SimilarityRowMissing)
      else Ok(RecordsFor(movies, InBounds(Candidates(similarity[q]), |movies|), net))
  }

  /** The body of app.py's `recommend`. */
  method Recommend(movies: seq<Movie>, similarity: seq<seq<real>>, title: string, net: Transport)
    returns (r: Result<seq<Recommendation>, Crash>)
    ensures r == Recommendations(movies, similarity, title, net)
    ensures title !in TitlesOf(movies) ==> r == Ok([])
  {
    var found := FirstIndex(TitlesOf(movies), title);
    if found.None? {
      return Ok([]);
    }
    var movieIndex := found.value;
    if movieIndex >= |similarity| {
      return Err(SimilarityRowMissing);
    }
    var distances := similarity[movieIndex];
    var movieList := Candidates(distances);
    var recommendations: seq<Recommendation> := [];
    for i := 0 to |movieList|
      invariant recommendations == RecordsFor(movies, InBounds(movieList[..i], |movies|), net)
    {
      var p := movieList[i];
      assert movieList[..i + 1][..i] == movieList[..i];
      if p < |movies| {
        var movieData := movies[p];
        var poster, _ := FetchPoster(net, movieData.movieId);
        recommendations := recommendations + [Recommendation(
          movieData.title, poster, movieData.cast, movieData.crew, movieData.overview)];
      }
    }
    assert movieList[..|movieList|] == movieList;
    return Ok(recommendations);
  }

  /** For a title in the catalog, whose first row has a similarity row: the
      result holds one record per candidate that indexes the catalog, at most
      five, in rank order, each carrying that row's title, cast, crew and
      overview and its fetched poster; when the row is no longer than the
      catalog nothing is skipped. */
  lemma RecommendationsInRankOrder(
    movies: seq<Movie>, similarity: seq<seq<real>>, title: string, net: Transport, q: nat)
    requires FirstIndex(TitlesOf(movies), title) == Some(q) && q < |similarity|
    ensures var row, r := similarity[q], Recommendations(movies, similarity, title, net);
      var shown := InBounds(Candidates(row), |movies|);
      && r.Ok?
      && |r.value| == |shown| <= 5
      && RankOrdered(row, shown)
      && (forall j :: j in shown <==> j in Candidates(row) && j < |movies|)
      && (forall k :: 0 <= k < |shown| ==>
            && shown[k] < |movies|
            && r.value[k].title == movies[shown[k]].title
            && r.value[k].cast == movies[shown[k]].cast
            && r.value[k].crew == movies[shown[k]].crew
            && r.value[k].overview == movies[shown[k]].overview
            && r.value[k].poster == PosterUrl(net, movies[shown[k]].movieId))
      && (|row| <= |movies| ==> shown == Candidates(row))
  {
    var row := similarity[q];
    var c := Candidates(row);
    var shown := InBounds(c, |movies|);
    if |row| > 0 {
      CandidatesAreNextBest(row);
    } else {
      assert c == [];
    }
    InBoundsRankOrdered(row, c, |movies|);
    if |row| <= |movies| {
      InBoundsAll(c, |movies|);
    }
  }

  /** The worked example: seven movies, the query in row 0 with strictly
      falling scores (1.0, 0.9, ..., 0.4); the result is rows 1 to 5 in that order. */
  lemma FallingScoresRecommendRowsOneToFive(
    movies: seq<Movie>, similarity: seq<seq<real>>, net: Transport)
    requires |movies| == 7 && |similarity| >= 1 && |similarity[0]| == 7
    requires forall i, j :: 0 <= i < j < 7 ==> similarity[0][i] > similarity[0][j]
    ensures Recommendations(movies, similarity, movies[0].title, net)
      == Ok([RecordFor(movies[1], net), RecordFor(movies[2], net), RecordFor(movies[3], net),
             RecordFor(movies[4], net), RecordFor(movies[5], net)])
  {
    var titles := TitlesOf(movies);
    assert titles[0] == movies[0].title;
    assert FirstIndex(titles, movies[0].title) == Some(0);
    FallingScoresExample(similarity[0]);
    var shown: seq<nat> := [1, 2, 3, 4, 5];
    assert Candidates(similarity[0]) == shown;
    InBoundsAll(shown, 7);
    var recs := RecordsFor(movies, shown, net);
    assert recs == [RecordFor(movies[1], net), RecordFor(movies[2], net), RecordFor(movies[3], net),
                    RecordFor(movies[4], net), RecordFor(movies[5], net)];
    assert Recommendations(movies, similarity, movies[0].title, net) == Ok(recs);
  }
}
