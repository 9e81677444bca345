/**
 * `fetch_poster` of app.py: up to three requests to the movie database,
 * returning the image URL of the first usable answer, a "No Poster"
 * placeholder for an answer without a poster path, and a different
 * "No Image" placeholder when every attempt failed.
 *
 * The network is a parameter: `net(movieId, i)` is what the i-th attempt
 * (counting from 0) for that movie yields. The one-second sleeps and the
 * retry messages are not modelled.
 */
module Poster {
  import opened Common

  /** The body of a response, as `response.json()` reads it. `Garbled` makes
      `.json()` raise a JSONDecodeError, which the `requests` library (from
      version 2.27) derives from RequestException. */
  datatype Body = Garbled | Json(posterPath: Option<string>)  // None: key absent or null

  /** What one attempt yields: `requests.get` raised a RequestException
      (connection error, timeout), or a response arrived. */
  datatype Attempt = NoResponse | Reply(statusOk: bool, body: Body)

  type Transport = (int, nat) -> Attempt

  /** The two versions of `fetch_poster`: app.py calls `raise_for_status`,
      App.py does not look at the status code. */
  datatype Client = Hardened | Legacy

  const MaxAttempts: nat := 3
  const ImageBase: string := "https://image.tmdb.org/t/p/w500"
  const PlaceholderBase: string := "https://placehold.co/500x750/2b2b2b/e0e0e0"
  const NoPoster: string := PlaceholderBase + "?text=No+Poster"
  const NoImage: string := PlaceholderBase + "?text=No+Image"

  /** The attempt raises a RequestException and the loop goes on to the next one. */
  predicate Retried(c: Client, a: Attempt)
  {
    a.NoResponse? || a.body.Garbled? || (c == Hardened && !a.statusOk)
  }

  /** Attempt `i` is the one whose answer the loop acts on. */
  predicate AnsweredAt(c: Client, net: Transport, movieId: int, i: nat)
  {
    && i < MaxAttempts
    && !Retried(c, net(movieId, i))
    && forall j :: 0 <= j < i ==> Retried(c, net(movieId, j))
  }

  /** The first attempt from `from` on that is not retried, if any. */
  function FirstAnswer(c: Client, net: Transport, movieId: int, from: nat): (r: Option<nat>)
    ensures r.Some? ==> from <= r.value < MaxAttempts && !Retried(c, net(movieId, r.value))
    ensures r.Some? ==> forall j :: from <= j < r.value ==> Retried(c, net(movieId, j))
    ensures r.None? <==> forall j :: from <= j < MaxAttempts ==> Retried(c, net(movieId, j))
    decreases MaxAttempts - from
  {
    if from >= MaxAttempts then None
    else if !Retried(c, net(movieId, from)) then Some(from)
    else FirstAnswer(c, net, movieId, from + 1)
  }

  /** The answered attempt is unique, and FirstAnswer finds it. */
  lemma FirstAnswerIsAnsweredAt(c: Client, net: Transport, movieId: int, i: nat)
    ensures AnsweredAt(c, net, movieId, i) <==> FirstAnswer(c, net, movieId, 0) == Some(i)
  {
  }

  /** `if poster_path:` holds: present and not the empty string. */
  predicate Usable(p: Option<string>)
  {
    p.Some? && p.value != ""
  }

  /** What app.py returns for one movie. */
  function PosterUrl(net: Transport, movieId: int): (url: string)
    ensures url == NoImage || url == NoPoster || IsImageUrl(url)
  {
    match FirstAnswer(Hardened, net, movieId, 0)
    case None => NoImage
    case Some(i) =>
      var p := net(movieId, i).body.posterPath;
      if Usable(p) then ImageUrlOf(p.value); ImageBase + p.value else NoPoster
  }

  /** The loop of app.py's `fetch_poster`. `attempts` is the number of requests issued. */
  method FetchPoster(net: Transport, movieId: int) returns (url: string, attempts: nat)
    ensures url == PosterUrl(net, movieId)
    ensures 1 <= attempts <= MaxAttempts
    ensures forall j :: 0 <= j < attempts - 1 ==> Retried(Hardened, net(movieId, j))
    ensures attempts < MaxAttempts ==> !Retried(Hardened, net(movieId, attempts - 1))
  {
    for i := 0 to MaxAttempts
      invariant forall j :: 0 <= j < i ==> Retried(Hardened, net(movieId, j))
    {
      var response := net(movieId, i);
      if response.Reply? && response.statusOk && response.body.Json? {
        var posterPath := response.body.posterPath;
        if posterPath.Some? && posterPath.value != "" {
          url := ImageBase + posterPath.value;
        } else {
          url := NoPoster;
        }
        attempts := i + 1;
        FirstAnswerIsAnsweredAt(Hardened, net, movieId, i);
        return;
      }
    }
    url, attempts := NoImage, MaxAttempts;
  }

  /** `u` is an image URL of the movie database. */
  predicate IsImageUrl(u: string)
  {
    |ImageBase| <= |u| && u[..|ImageBase|] == ImageBase
  }

  /** The three kinds of result cannot be confused: neither placeholder is an
      image URL, and the two placeholders differ. */
  lemma PlaceholdersDistinct()
    ensures NoPoster != NoImage
    ensures !IsImageUrl(NoPoster) && !IsImageUrl(NoImage)
  {
    assert NoPoster[|PlaceholderBase| + 9] != NoImage[|PlaceholderBase| + 9];
    assert NoPoster[8] != ImageBase[8];
    assert NoImage[8] != ImageBase[8];
  }

  lemma ImageUrlOf(p: string)
    ensures IsImageUrl(ImageBase + p) && (ImageBase + p)[|ImageBase|..] == p
  {
    assert (ImageBase + p)[..|ImageBase|] == ImageBase;
  }

  /** Each result of app.py's `fetch_poster` says which case occurred, and an
      image URL gives back the poster path it was built from:
      "No Image" exactly when all three attempts failed, "No Poster" exactly
      when the answered attempt had no usable path, an image URL otherwise. */
  lemma PosterUrlCases(net: Transport, movieId: int)
    ensures var url := PosterUrl(net, movieId);
      && (url == NoImage <==> forall j :: 0 <= j < MaxAttempts ==> Retried(Hardened, net(movieId, j)))
      && (forall i :: AnsweredAt(Hardened, net, movieId, i) ==>
            && (url == NoPoster <==> !Usable(net(movieId, i).body.posterPath))
            && (IsImageUrl(url) <==> Usable(net(movieId, i).body.posterPath))
            && (IsImageUrl(url) ==> url[|ImageBase|..] == net(movieId, i).body.posterPath.value))
  {
    PlaceholdersDistinct();
    var url := PosterUrl(net, movieId);
    match FirstAnswer(Hardened, net, movieId, 0)
    case None =>
      forall i | AnsweredAt(Hardened, net, movieId, i) ensures false {
        FirstAnswerIsAnsweredAt(Hardened, net, movieId, i);
      }
    case Some(i) =>
      FirstAnswerIsAnsweredAt(Hardened, net, movieId, i);
      var p := net(movieId, i).body.posterPath;
      if Usable(p) {
        ImageUrlOf(p.value);
      }
      forall i' | AnsweredAt(Hardened, net, movieId, i') ensures i' == i {
        FirstAnswerIsAnsweredAt(Hardened, net, movieId, i');
      }
  }
}
