/**
 * The catalog cleaning of `load_data` in app.py: list-valued `cast`/`crew`
 * cells coerced by `safe_literal_eval`, the fallbacks for absent columns,
 * NaN overviews replaced by "", and the sorted, duplicate-free director and
 * actor name indices.
 */
module Catalog {
  import opened Common

  /** A cell of the `cast` or `crew` column. */
  datatype Value =
    | List(items: seq<string>)   // a Python list of names
    | Missing                    // None or NaN: `pd.isna` holds
    | Text(text: string)         // a string, typically a serialized list
    | Scalar                     // any other non-list value (a number, a dict, ...)

  /** `ast.literal_eval` applied to a string: the literal it denotes, or None
      when it raises ValueError or SyntaxError. Its internals are not modelled. */
  type LiteralParser = string -> Option<Value>

  /** `safe_literal_eval`: lists pass through, missing values and unparsable
      cells become [], and anything else is whatever the parser produced. A
      non-string scalar reaches `ast.literal_eval`, which rejects it with
      ValueError, so it also becomes []. */
  function SafeLiteralEval(parse: LiteralParser, v: Value): (r: Value)
    ensures v.List? ==> r == v
    ensures v.Missing? || v.Scalar? ==> r == List([])
    ensures v.Text? && parse(v.text).None? ==> r == List([])
    ensures v.Text? && parse(v.text).Some? ==> r == parse(v.text).value
    ensures r.List? || (v.Text? && parse(v.text) == Some(r))
  {
    match v
    case List(_) => v
    case Missing => List([])
    case Text(s) => (match parse(s) case Some(x) => x case None => List([]))
    case Scalar => List([])
  }

  /** The frame as unpickled: a column that is absent is None; a None
      overview cell is NaN. */
  datatype RawTable = RawTable(
    movieIds: seq<int>,
    titles: seq<string>,
    cast: Option<seq<Value>>,
    crew: Option<seq<Value>>,
    overview: Option<seq<Option<string>>>)

  /** All present columns have one cell per row, as in any DataFrame. */
  predicate WellFormed(t: RawTable)
  {
    var n := |t.movieIds|;
    && |t.titles| == n
    && (t.cast.Some? ==> |t.cast.value| == n)
    && (t.crew.Some? ==> |t.crew.value| == n)
    && (t.overview.Some? ==> |t.overview.value| == n)
  }

  /** A cleaned catalog row. */
  datatype Movie = Movie(movieId: int, title: string, cast: Value, crew: Value, overview: string)

  /** `movies[col].apply(safe_literal_eval)`, or `pd.Series([[]] * len(movies))`
      when the column is absent (an error is reported and loading goes on). */
  function CleanColumn(parse: LiteralParser, col: Option<seq<Value>>, n: nat): (r: seq<Value>)
    requires col.Some? ==> |col.value| == n
    ensures |r| == n
    ensures col.Some? ==> forall k :: 0 <= k < n ==> r[k] == SafeLiteralEval(parse, col.value[k])
    ensures col.None? ==> forall k :: 0 <= k < n ==> r[k] == List([])
  {
    if col.Some? then seq(n, k requires 0 <= k < n => SafeLiteralEval(parse, col.value[k]))
    else seq(n, k => List([]))
  }

  /** `movies['overview'].fillna("")`, or an all-"" column when it is absent. */
  function CleanOverview(col: Option<seq<Option<string>>>, n: nat): (r: seq<string>)
    requires col.Some? ==> |col.value| == n
    ensures |r| == n
    ensures forall k :: 0 <= k < n ==>
      r[k] == if col.Some? && col.value[k].Some? then col.value[k].value else ""
  {
    if col.Some? then
      seq(n, k requires 0 <= k < n => match col.value[k] case Some(s) => s case None => "")
    else seq(n, k => "")
  }

  /** The cleaned frame: every column overwritten in place, rows kept in place. */
  function Clean(parse: LiteralParser, t: RawTable): (movies: seq<Movie>)
    requires WellFormed(t)
    ensures |movies| == |t.movieIds|
    ensures forall k :: 0 <= k < |movies| ==>
      && movies[k].movieId == t.movieIds[k]
      && movies[k].title == t.titles[k]
      && movies[k].cast == (if t.cast.Some? then SafeLiteralEval(parse, t.cast.value[k]) else List([]))
      && movies[k].crew == (if t.crew.Some? then SafeLiteralEval(parse, t.crew.value[k]) else List([]))
      && movies[k].overview == (if t.overview.Some? && t.overview.value[k].Some? then t.overview.value[k].value else "")
  {
    var n := |t.movieIds|;
    var cast := CleanColumn(parse, t.cast, n);
    var crew := CleanColumn(parse, t.crew, n);
    var overview := CleanOverview(t.overview, n);
    seq(n, k requires 0 <= k < n => Movie(t.movieIds[k], t.titles[k], cast[k], crew[k], overview[k]))
  }

  /** A cleaned catalog written back as a frame with every column present. */
  function Export(movies: seq<Movie>): (t: RawTable)
    ensures WellFormed(t)
  {
    var n := |movies|;
    RawTable(
      seq(n, k requires 0 <= k < n => movies[k].movieId),
      seq(n, k requires 0 <= k < n => movies[k].title),
      Some(seq(n, k requires 0 <= k < n => movies[k].cast)),
      Some(seq(n, k requires 0 <= k < n => movies[k].crew)),
      Some(seq(n, k requires 0 <= k < n => Some(movies[k].overview))))
  }

  /** Cleaning is a fixed point on clean data: loading a catalog whose cast
      and crew cells are already lists gives back the same rows, whatever the
      literal parser does. */
  lemma CleanRoundTrip(parse: LiteralParser, movies: seq<Movie>)
    requires forall k :: 0 <= k < |movies| ==> movies[k].cast.List? && movies[k].crew.List?
    ensures Clean(parse, Export(movies)) == movies
  {
    var t := Export(movies);
    var r := Clean(parse, t);
    assert |r| == |movies|;
    forall k | 0 <= k < |movies| ensures r[k] == movies[k] {
      assert t.cast.value[k] == movies[k].cast;
      assert t.crew.value[k] == movies[k].crew;
      assert t.overview.value[k] == Some(movies[k].overview);
    }
  }

  /** A parser that reads only lists. */
  ghost predicate ListsOnly(parse: LiteralParser)
  {
    forall s :: parse(s).Some? ==> parse(s).value.List?
  }

  /** With a parser that reads only lists, every cleaned cast and crew cell
      is a list, absent columns and unparsable cells included, so cleaning a
      second time changes nothing. */
  lemma CleanIdempotent(parse: LiteralParser, t: RawTable)
    requires WellFormed(t) && ListsOnly(parse)
    ensures forall k :: 0 <= k < |Clean(parse, t)| ==>
      Clean(parse, t)[k].cast.List? && Clean(parse, t)[k].crew.List?
    ensures Clean(parse, Export(Clean(parse, t))) == Clean(parse, t)
  {
    var movies := Clean(parse, t);
    forall k | 0 <= k < |movies| ensures movies[k].cast.List? && movies[k].crew.List? {
      if t.cast.Some? && t.cast.value[k].Text? {
        assert parse(t.cast.value[k].text).Some? ==> parse(t.cast.value[k].text).value.List?;
      }
      if t.crew.Some? && t.crew.value[k].Text? {
        assert parse(t.crew.value[k].text).Some? ==> parse(t.crew.value[k].text).value.List?;
      }
    }
    CleanRoundTrip(parse, movies);
  }

  // ---------------------------------------------------------------------
  // Name indices
  // ---------------------------------------------------------------------

  /** Which column a name is looked up in: directors in `crew`, actors in `cast`. */
  datatype Role = Director | Actor

  function Credits(m: Movie, role: Role): Value
  {
    match role
    case Director => m.crew
    case Actor => m.cast
  }

  function CreditColumn(movies: seq<Movie>, role: Role): (col: seq<Value>)
    ensures |col| == |movies|
    ensures forall k :: 0 <= k < |movies| ==> col[k] == Credits(movies[k], role)
  {
    seq(|movies|, k requires 0 <= k < |movies| => Credits(movies[k], role))
  }

  function ItemsOf(v: Value): set<string>
  {
    if v.List? then set x | x in v.items else {}
  }

  /** The names `set.update` collects from a column: those of its list-valued
      cells (`isinstance(..., list)`), all others skipped. */
  function NamesIn(col: seq<Value>): (names: set<string>)
    ensures forall x :: x in names <==>
      exists k :: 0 <= k < |col| && col[k].List? && x in col[k].items
  {
    if col == [] then {}
    else
      var init := col[..|col| - 1];
      var rest := NamesIn(init);
      assert forall k :: 0 <= k < |init| ==> init[k] == col[k];
      rest + ItemsOf(col[|col| - 1])
  }

  /** Python's `<` on strings: code point by code point, a proper prefix first. */
  predicate LexLess(a: string, b: string)
    decreases |a|
  {
    if a == [] then b != []
    else if b == [] then false
    else if a[0] != b[0] then a[0] < b[0]
    else LexLess(a[1..], b[1..])
  }

  lemma {:induction false} LexIrreflexive(a: string)
    ensures !LexLess(a, a)
    decreases |a|
  {
    if a != [] {
      LexIrreflexive(a[1..]);
    }
  }

  lemma {:induction false} LexTransitive(a: string, b: string, c: string)
    requires LexLess(a, b) && LexLess(b, c)
    ensures LexLess(a, c)
    decreases |a|
  {
    if a != [] && b != [] && c != [] && a[0] == b[0] && b[0] == c[0] {
      LexTransitive(a[1..], b[1..], c[1..]);
    }
  }

  lemma {:induction false} LexTotal(a: string, b: string)
    requires a != b
    ensures LexLess(a, b) || LexLess(b, a)
    decreases |a|
  {
    if a != [] && b != [] && a[0] == b[0] {
      assert a == [a[0]] + a[1..] && b == [b[0]] + b[1..];
      LexTotal(a[1..], b[1..]);
    }
  }

  lemma LexAsymmetric()
    ensures forall a, b :: LexLess(a, b) ==> !LexLess(b, a)
  {
    forall a, b | LexLess(a, b) ensures !LexLess(b, a) {
      if LexLess(b, a) {
        LexTransitive(a, b, a);
        LexIrreflexive(a);
      }
    }
  }

  predicate IsLeast(m: string, s: set<string>)
  {
    m in s && forall y :: y in s && y != m ==> LexLess(m, y)
  }

  lemma {:induction false} LeastExists(s: set<string>)
    requires s != {}
    ensures exists m :: IsLeast(m, s)
    decreases |s|
  {
    var x :| x in s;
    if s == {x} {
      assert IsLeast(x, s);
    } else {
      var s' := s - {x};
      LeastExists(s');
      var m :| IsLeast(m, s');
      LexTotal(x, m);
      if LexLess(x, m) {
        forall y | y in s && y != x ensures LexLess(x, y) {
          if y != m {
            LexTransitive(x, m, y);
          }
        }
        assert IsLeast(x, s);
      } else {
        assert IsLeast(m, s);
      }
    }
  }

  function Least(s: set<string>): (m: string)
    requires s != {}
    ensures IsLeast(m, s)
  {
    LeastExists(s);
    LexAsymmetric();
    var m :| IsLeast(m, s);
    m
  }

  /** Strictly increasing: sorted and free of duplicates. */
  predicate StrictlySorted(names: seq<string>)
  {
    forall i, j :: 0 <= i < j < |names| ==> LexLess(names[i], names[j])
  }

  /** `sorted(list(s))`. */
  function SortedList(s: set<string>): (r: seq<string>)
    ensures StrictlySorted(r)
    ensures forall x :: x in r <==> x in s
    decreases |s|
  {
    if s == {} then []
    else
      var m := Least(s);
      var rest := SortedList(s - {m});
      assert forall j :: 0 <= j < |rest| ==> LexLess(m, rest[j]) by {
        forall j | 0 <= j < |rest| ensures LexLess(m, rest[j]) {
          assert rest[j] in s - {m};
        }
      }
      [m] + rest
  }

  /** The index the filters are populated from: sorted, free of duplicates,
      holding exactly the names of the list-valued cells of the column. */
  ghost predicate IsNameIndex(index: seq<string>, col: seq<Value>)
  {
    && StrictlySorted(index)
    && forall x :: x in index <==> exists k :: 0 <= k < |col| && col[k].List? && x in col[k].items
  }

  /** `col.apply(lambda l: names.update(l) if isinstance(l, list) else None)`. */
  method CollectNames(col: seq<Value>) returns (names: set<string>)
    ensures names == NamesIn(col)
  {
    names := {};
    for k := 0 to |col|
      invariant names == NamesIn(col[..k])
    {
      assert col[..k + 1][..k] == col[..k];
      if col[k].List? {
        names := names + set x | x in col[k].items;
      }
    }
    assert col[..|col|] == col;
  }

  /** The part of `load_data` after unpickling: the cleaned catalog and the
      director and actor indices built from it. */
  method LoadData(parse: LiteralParser, t: RawTable)
    returns (movies: seq<Movie>, directors: seq<string>, actors: seq<string>)
    requires WellFormed(t)
    ensures movies == Clean(parse, t)
    ensures IsNameIndex(directors, CreditColumn(movies, Director))
    ensures IsNameIndex(actors, CreditColumn(movies, Actor))
  {
    var n := |t.movieIds|;
    var cast := CleanColumn(parse, t.cast, n);
    var crew := CleanColumn(parse, t.crew, n);
    var overview := CleanOverview(t.overview, n);
    movies := seq(n, k requires 0 <= k < n => Movie(t.movieIds[k], t.titles[k], cast[k], crew[k], overview[k]));
    assert CreditColumn(movies, Director) == crew;
    assert CreditColumn(movies, Actor) == cast;
    var allDirectors := CollectNames(crew);
    directors := SortedList(allDirectors);
    var allActors := CollectNames(cast);
    actors := SortedList(allActors);
  }
}
