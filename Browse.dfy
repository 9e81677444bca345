/**
 * The filter block of app.py (after `load_data`): the option lists of the two
 * select boxes, and the boolean-mask selection of the catalog by director
 * and by actor.
 */
module Browse {
  import opened Common
  import opened Catalog

  const AllDirectors: string := "All Directors"
  const AllActors: string := "All Actors"

  /** `[label] + names if names else [label]`: both branches agree, so the
      first option is always the "All" label, followed by the whole index. */
  function Options(allLabel: string, names: seq<string>): (options: seq<string>)
    ensures options == [allLabel] + names
  {
    if names != [] then [allLabel] + names else [allLabel]
  }

  /** `isinstance(l, list) and name in l` on the movie's cast or crew cell. */
  predicate Credited(m: Movie, role: Role, name: string)
  {
    Credits(m, role).List? && name in Credits(m, role).items
  }

  /** `frame[frame[col].apply(lambda l: isinstance(l, list) and name in l)]`:
      the matching rows, in catalog order, each as often as it occurs. */
  function KeepCredited(movies: seq<Movie>, role: Role, name: string): (r: seq<Movie>)
    ensures SubsequenceOf(r, movies)
    ensures forall m :: multiset(r)[m] == if Credited(m, role, name) then multiset(movies)[m] else 0
    decreases |movies|
  {
    if movies == [] then []
    else
      var init, m := movies[..|movies| - 1], movies[|movies| - 1];
      var r := KeepCredited(init, role, name);
      assert movies == init + [m];
      if Credited(m, role, name) then
        assert (r + [m])[..|r|] == r;
        r + [m]
      else r
  }

  /** The selection, director first and then actor, each skipped on its "All" label. */
  function FilterCatalog(movies: seq<Movie>, director: string, actor: string): (r: seq<Movie>)
    ensures SubsequenceOf(r, movies)
    ensures director == AllDirectors && actor == AllActors ==> r == movies
  {
    var byDirector := if director != AllDirectors then KeepCredited(movies, Director, director) else movies;
    SubsequenceReflexive(movies);
    SubsequenceReflexive(byDirector);
    var r := if actor != AllActors then KeepCredited(byDirector, Actor, actor) else byDirector;
    SubsequenceTransitive(r, byDirector, movies);
    r
  }

  /** A row passes both filters. */
  predicate Selected(m: Movie, director: string, actor: string)
  {
    && (director == AllDirectors || Credited(m, Director, director))
    && (actor == AllActors || Credited(m, Actor, actor))
  }

  /** The filtered catalog is the rows that pass both filters, in catalog
      order, each as often as in the catalog: the order in which the two
      masks are applied does not matter, and with both labels at "All" the
      catalog is unchanged. */
  lemma FilterCatalogSelects(movies: seq<Movie>, director: string, actor: string)
    ensures var r := FilterCatalog(movies, director, actor);
      && SubsequenceOf(r, movies)
      && (forall m :: multiset(r)[m] == if Selected(m, director, actor) then multiset(movies)[m] else 0)
      && (forall m :: m in r <==> m in movies && Selected(m, director, actor))
      && (director == AllDirectors && actor == AllActors ==> r == movies)
  {
    var r := FilterCatalog(movies, director, actor);
    forall m ensures m in r <==> m in movies && Selected(m, director, actor) {
      assert m in r <==> multiset(r)[m] > 0;
      assert m in movies <==> multiset(movies)[m] > 0;
    }
  }
}
