/**
 * Shared vocabulary: optional values, results that carry an escaping
 * Python exception, first-match lookup and the subsequence relation.
 */
module Common {

  datatype Option<+T> = None | Some(value: T)

  datatype Result<+T, +E> = Ok(value: T) | Err(error: E)

  /** The exceptions the Python code lets escape from a call. */
  datatype Crash =
    | TitleNotFound          // IndexError: `.index[0]` on an empty selection
    | SimilarityRowMissing   // IndexError: `similarity[movie_index]` past the last row
    | RowOutOfBounds         // IndexError: `movies.iloc[i]` past the last row
    | PosterPathUnusable     // KeyError / TypeError: `base + data['poster_path']`

  /** Position of the first element equal to `x`, as `frame[frame[col] == x].index[0]`
      finds it on a frame with the default positional index. */
  function FirstIndex<T(==)>(xs: seq<T>, x: T): (r: Option<nat>)
    ensures r.Some? ==> r.value < |xs| && xs[r.value] == x
    ensures r.Some? ==> forall j :: 0 <= j < r.value ==> xs[j] != x
    ensures r.None? <==> x !in xs
  {
    if xs == [] then None
    else if xs[0] == x then Some(0)
    else match FirstIndex(xs[1..], x)
      case None => None
      case Some(i) => Some(i + 1)
  }

  /** `a` is obtained from `b` by deleting elements, keeping the order of the rest. */
  ghost predicate SubsequenceOf<T>(a: seq<T>, b: seq<T>)
    decreases |b|
  {
    if a == [] then true
    else if b == [] then false
    else (a[|a| - 1] == b[|b| - 1] && SubsequenceOf(a[..|a| - 1], b[..|b| - 1]))
         || SubsequenceOf(a, b[..|b| - 1])
  }

  lemma {:induction false} SubsequenceReflexive<T>(a: seq<T>)
    ensures SubsequenceOf(a, a)
    decreases |a|
  {
    if a != [] {
      SubsequenceReflexive(a[..|a| - 1]);
    }
  }

  lemma {:induction false} SubsequenceTransitive<T>(a: seq<T>, b: seq<T>, c: seq<T>)
    requires SubsequenceOf(a, b) && SubsequenceOf(b, c)
    ensures SubsequenceOf(a, c)
    decreases |c|
  {
    if a != [] {
      var b', c' := b[..|b| - 1], c[..|c| - 1];
      if b[|b| - 1] == c[|c| - 1] && SubsequenceOf(b', c') {
        if a[|a| - 1] == b[|b| - 1] && SubsequenceOf(a[..|a| - 1], b') {
          SubsequenceTransitive(a[..|a| - 1], b', c');
        } else {
          SubsequenceTransitive(a, b', c');
        }
      } else {
        SubsequenceTransitive(a, b, c');
      }
    }
  }
}
