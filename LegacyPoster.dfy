/**
 * `fetch_poster` of App.py, the earlier version: up to three requests; the
 * first one that raises no RequestException decides the result, and a
 * response without a usable `poster_path` raises out of the function
 * instead of being retried. The status code is never checked.
 */
module LegacyPoster {
  import opened Common
  import opened Poster

  const LegacyNoImage: string := "https://via.placeholder.com/500x750?text=No+Image"

  /** What App.py's `fetch_poster` returns for one movie, or the exception it raises. */
  function LegacyPosterUrl(net: Transport, movieId: int): (r: Result<string, Crash>)
    ensures r.Err? ==> r.error == PosterPathUnusable
    ensures r.Ok? ==> r.value == LegacyNoImage || IsImageUrl(r.value)
  {
    match FirstAnswer(Legacy, net, movieId, 0)
    case None => Ok(LegacyNoImage)
    case Some(i) =>
      match net(movieId, i).body.posterPath
      case Some(p) => ImageUrlOf(p); Ok(ImageBase + p)
      case None => Err(PosterPathUnusable)
  }

  /** The loop of App.py's `fetch_poster`. `attempts` is the number of requests issued. */
  method LegacyFetchPoster(net: Transport, movieId: int) returns (r: Result<string, Crash>, attempts: nat)
    ensures r == LegacyPosterUrl(net, movieId)
    ensures 1 <= attempts <= MaxAttempts
    ensures forall j :: 0 <= j < attempts - 1 ==> Retried(Legacy, net(movieId, j))
    ensures attempts < MaxAttempts ==> !Retried(Legacy, net(movieId, attempts - 1))
  {
    for i := 0 to MaxAttempts
      invariant forall j :: 0 <= j < i ==> Retried(Legacy, net(movieId, j))
    {
      var response := net(movieId, i);
      if response.Reply? && response.body.Json? {
        attempts := i + 1;
        FirstAnswerIsAnsweredAt(Legacy, net, movieId, i);
        match response.body.posterPath {
          case Some(p) => r := Ok(ImageBase + p);
          case None => r := Err(PosterPathUnusable);
        }
        return;
      }
    }
    r, attempts := Ok(LegacyNoImage), MaxAttempts;
  }

  /** The outcomes of App.py's `fetch_poster`: the placeholder exactly when all
      three attempts failed, an exception exactly when the answered attempt
      had no poster path, and otherwise the image URL of that path (even an
      empty one, which gives the bare base URL). */
  lemma LegacyPosterCases(net: Transport, movieId: int)
    ensures var r := LegacyPosterUrl(net, movieId);
      && (r == Ok(LegacyNoImage) <==> forall j :: 0 <= j < MaxAttempts ==> Retried(Legacy, net(movieId, j)))
      && (forall i :: AnsweredAt(Legacy, net, movieId, i) ==>
            && (r.Err? <==> net(movieId, i).body.posterPath.None?)
            && (r.Ok? ==> IsImageUrl(r.value) && r.value[|ImageBase|..] == net(movieId, i).body.posterPath.value))
  {
    assert LegacyNoImage[8] != ImageBase[8];
    match FirstAnswer(Legacy, net, movieId, 0)
    case None =>
      forall i | AnsweredAt(Legacy, net, movieId, i) ensures false {
        FirstAnswerIsAnsweredAt(Legacy, net, movieId, i);
      }
    case Some(i) =>
      FirstAnswerIsAnsweredAt(Legacy, net, movieId, i);
      var p := net(movieId, i).body.posterPath;
      if p.Some? {
        ImageUrlOf(p.value);
        assert (ImageBase + p.value)[8] == ImageBase[8];
      }
      forall i' | AnsweredAt(Legacy, net, movieId, i') ensures i' == i {
        FirstAnswerIsAnsweredAt(Legacy, net, movieId, i');
      }
  }

  /** Where every response carries a success status, both versions act on the
      same attempt, and when it has a non-empty poster path they return the
      same image URL. */
  lemma VersionsAgreeOnSuccess(net: Transport, movieId: int)
    requires forall j :: 0 <= j < MaxAttempts && net(movieId, j).Reply? ==> net(movieId, j).statusOk
    ensures FirstAnswer(Hardened, net, movieId, 0) == FirstAnswer(Legacy, net, movieId, 0)
    ensures var a := FirstAnswer(Legacy, net, movieId, 0);
      a.Some? && Usable(net(movieId, a.value).body.posterPath) ==>
        LegacyPosterUrl(net, movieId) == Ok(PosterUrl(net, movieId))
  {
    forall i | 0 <= i < MaxAttempts
      ensures AnsweredAt(Hardened, net, movieId, i) <==> FirstAnswer(Hardened, net, movieId, 0) == Some(i)
      ensures AnsweredAt(Legacy, net, movieId, i) <==> FirstAnswer(Legacy, net, movieId, 0) == Some(i)
    {
      FirstAnswerIsAnsweredAt(Hardened, net, movieId, i);
      FirstAnswerIsAnsweredAt(Legacy, net, movieId, i);
    }
  }
}
