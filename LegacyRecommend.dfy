/**
 * `recommend` of App.py, the earlier version, and the five-column display
 * that consumes it. Nothing is caught here: an unknown title, a missing
 * similarity row, a candidate index past the catalog and a poster answer
 * without a path all end the call with an exception.
 */
module LegacyRecommend {
  import opened Common
  import opened Ranking
  import opened Poster
  import opened LegacyPoster

  /** A row of App.py's catalog: only `movie_id` and `title` are read. */
  datatype Film = Film(movieId: int, title: string)

  function FilmTitles(films: seq<Film>): (titles: seq<string>)
    ensures |titles| == |films|
    ensures forall k :: 0 <= k < |films| ==> titles[k] == films[k].title
  {
    seq(|films|, k requires 0 <= k < |films| => films[k].title)
  }

  /** Candidate `p` survives its loop iteration: `movies.iloc[p]` exists and
      its poster fetch raises nothing. */
  predicate Fetchable(films: seq<Film>, p: nat, net: Transport)
  {
    p < |films| && LegacyPosterUrl(net, films[p].movieId).Ok?
  }

  /** The parallel lists the loop over `cands` builds, or the exception that
      ends it. */
  function Gather(films: seq<Film>, cands: seq<nat>, net: Transport)
    : (r: Result<(seq<string>, seq<string>), Crash>)
    ensures r.Ok? <==> forall k :: 0 <= k < |cands| ==> Fetchable(films, cands[k], net)
    ensures r.Ok? ==>
      var (names, posters) := r.value;
      && |names| == |cands| && |posters| == |cands|
      && forall k :: 0 <= k < |cands| ==>
           && names[k] == films[cands[k]].title
           && posters[k] == LegacyPosterUrl(net, films[cands[k]].movieId).value
    decreases |cands|
  {
    if cands == [] then Ok(([], []))
    else
      var init, p := cands[..|cands| - 1], cands[|cands| - 1];
      assert forall k :: 0 <= k < |init| ==> init[k] == cands[k];
      match Gather(films, init, net)
      case Err(e) => Err(e)
      case Ok((names, posters)) =>
        if p >= |films| then Err(RowOutOfBounds)
        else match LegacyPosterUrl(net, films[p].movieId)
          case Err(e) => Err(e)
          case Ok(url) => Ok((names + [films[p].title], posters + [url]))
  }

  /** Once a prefix of the candidates raises, the whole loop raises the same. */
  lemma {:induction false} GatherStopsAtError(films: seq<Film>, cands: seq<nat>, k: nat, net: Transport)
    requires k <= |cands| && Gather(films, cands[..k], net).Err?
    ensures Gather(films, cands, net) == Gather(films, cands[..k], net)
    decreases |cands|
  {
    if k < |cands| {
      var init := cands[..|cands| - 1];
      assert init[..k] == cands[..k];
      GatherStopsAtError(films, init, k, net);
    } else {
      assert cands[..k] == cands;
    }
  }

  /** The exception is the one of the first candidate that is not fetchable. */
  lemma GatherFailsAtFirstBad(films: seq<Film>, cands: seq<nat>, k: nat, net: Transport)
    requires k < |cands| && !Fetchable(films, cands[k], net)
    requires forall j :: 0 <= j < k ==> Fetchable(films, cands[j], net)
    ensures Gather(films, cands, net) ==
      if cands[k] >= |films| then Err(RowOutOfBounds)
      else Err(LegacyPosterUrl(net, films[cands[k]].movieId).error)
  {
    var pre := cands[..k + 1];
    assert pre[..k] == cands[..k];
    assert Gather(films, cands[..k], net).Ok?;
    GatherStopsAtError(films, cands, k + 1, net);
  }

  /** What App.py's `recommend` returns, or the exception it raises. */
  function LegacyRecommendations(films: seq<Film>, similarity: seq<seq<real>>, title: string, net: Transport)
    : (r: Result<(seq<string>, seq<string>), Crash>)
    ensures title !in FilmTitles(films) ==> r == Err(TitleNotFound)
    ensures r.Ok? ==> |r.value.0| == |r.value.1| <= 5
  {
    match FirstIndex(FilmTitles(films), title)
    case None => Err(TitleNotFound)
    case Some(q) =>
      if q >= |similarity| then Err(SimilarityRowMissing)
      else Gather(films, Candidates(similarity[q]), net)
  }

  /** The body of App.py's `recommend`. */
  method LegacyRecommend(films: seq<Film>, similarity: seq<seq<real>>, title: string, net: Transport)
    returns (r: Result<(seq<string>, seq<string>), Crash>)
    ensures r == LegacyRecommendations(films, similarity, title, net)
    ensures title !in FilmTitles(films) ==> r == Err(TitleNotFound)
  {
    var found := FirstIndex(FilmTitles(films), title);
    if found.None? {
      return Err(TitleNotFound);
    }
    var movieIndex := found.value;
    if movieIndex >= |similarity| {
      return Err(SimilarityRowMissing);
    }
    var distances := similarity[movieIndex];
    var movieList := Candidates(distances);
    var recommendedMovies: seq<string> := [];
    var recommendedPosters: seq<string> := [];
    for i := 0 to |movieList|
      invariant Gather(films, movieList[..i], net) == Ok((recommendedMovies, recommendedPosters))
    {
      var p := movieList[i];
      assert movieList[..i + 1][..i] == movieList[..i];
      if p >= |films| {
        GatherStopsAtError(films, movieList, i + 1, net);
        return Err(RowOutOfBounds);
      }
      var movieId := films[p].movieId;
      recommendedMovies := recommendedMovies + [films[p].title];
      var poster, _ := LegacyFetchPoster(net, movieId);
      if poster.Err? {
        GatherStopsAtError(films, movieList, i + 1, net);
        return Err(poster.error);
      }
      recommendedPosters := recommendedPosters + [poster.value];
    }
    assert movieList[..|movieList|] == movieList;
    return Ok((recommendedMovies, recommendedPosters));
  }

  /** The display reads `names[0..4]` and `posters[0..4]`. */
  predicate DisplayOk(names: seq<string>, posters: seq<string>)
  {
    5 <= |names| && 5 <= |posters|
  }

  /** A successful call yields two lists of the same length, min(5, N-1) for
      a row of N scores, so the five-column display works exactly when the
      row has at least six scores. */
  lemma LegacyDisplayNeedsSixScores(
    films: seq<Film>, similarity: seq<seq<real>>, title: string, net: Transport, q: nat)
    requires FirstIndex(FilmTitles(films), title) == Some(q) && q < |similarity|
    ensures var r := LegacyRecommendations(films, similarity, title, net);
      r.Ok? ==>
        var (names, posters) := r.value;
        && |names| == |posters|
        && (DisplayOk(names, posters) <==> |similarity[q]| >= 6)
  {
  }

  /** When every candidate indexes the catalog, the loop can only raise
      through a poster fetch. */
  lemma {:induction false} GatherInBoundsFailsOnlyOnPosters(films: seq<Film>, cands: seq<nat>, net: Transport)
    requires forall k :: 0 <= k < |cands| ==> cands[k] < |films|
    ensures Gather(films, cands, net).Err? ==> Gather(films, cands, net) == Err(PosterPathUnusable)
    decreases |cands|
  {
    if cands != [] {
      var init := cands[..|cands| - 1];
      GatherInBoundsFailsOnlyOnPosters(films, init, net);
    }
  }

  /** With a similarity row no longer than the catalog, every candidate
      indexes it, so the call fails only through a poster fetch. */
  lemma LegacyAlignedFailsOnlyOnPosters(
    films: seq<Film>, similarity: seq<seq<real>>, title: string, net: Transport, q: nat)
    requires FirstIndex(FilmTitles(films), title) == Some(q) && q < |similarity|
    requires |similarity[q]| <= |films|
    ensures LegacyRecommendations(films, similarity, title, net).Err? ==>
      LegacyRecommendations(films, similarity, title, net) == Err(PosterPathUnusable)
  {
    var c := Candidates(similarity[q]);
    if |similarity[q]| > 0 {
      CandidatesAreNextBest(similarity[q]);
    }
    GatherInBoundsFailsOnlyOnPosters(films, c, net);
  }
}
