/** The popularity shells of the recommender: the most frequent values of a
    property (main.py keeps ten, utils.py keeps all), the properties present in
    enough movies (utils.py show_props), and the order of movies by number of ratings. */
module Popularity {
  import opened Collections
  import opened Sorting
  import opened Facts
  import opened Counting

  /** prop_most_pop of utils.py: every value of `prop` in `g`, most frequent first. */
  function ValuesByFrequency(g: seq<Fact>, prop: string): seq<string> {
    Labels(ValueCounts(PropValues(g, prop)))
  }

  /** prop_most_pop of main.py: the same list cut to its first ten entries. */
  function PropMostPop(g: seq<Fact>, prop: string): seq<string> {
    var all := ValuesByFrequency(g, prop);
    if |all| <= 10 then all else all[..10]
  }

  /** How many rows of `g` carry the pair (prop, v). */
  function Occurrences(g: seq<Fact>, prop: string, v: string): nat {
    multiset(PropValues(g, prop))[v]
  }

  /** Every value `prop` takes, each once, in non-increasing order of occurrence. */
  lemma ValuesByFrequencyRanked(g: seq<Fact>, prop: string)
    ensures var r := ValuesByFrequency(g, prop);
      && Distinct(r)
      && (forall v :: v in r <==> exists x :: x in g && x.prop == prop && x.obj == v)
      && (forall i, j :: 0 <= i < j < |r| ==> Occurrences(g, prop, r[i]) >= Occurrences(g, prop, r[j]))
  {
    var vals := PropValues(g, prop);
    ValueCountsShape(vals);
    var vc := ValueCounts(vals);
    forall i, j | 0 <= i < j < |vc| ensures Occurrences(g, prop, vc[i].0) >= Occurrences(g, prop, vc[j].0) {
      assert ByCountDesc(vc[i], vc[j]);
    }
  }

  /** The distinct values `prop` takes in `g`. */
  function ValueSet(g: seq<Fact>, prop: string): set<string> {
    set x | x in g && x.prop == prop :: x.obj
  }

  /** Ten distinct values of `prop`, or all of them when there are fewer: the head of the
      frequency ranking, in non-increasing order of occurrence, and no value left out occurs
      more often than any value returned. */
  lemma PropMostPopTopTen(g: seq<Fact>, prop: string)
    ensures var r := PropMostPop(g, prop);
      && |r| == (if |ValueSet(g, prop)| <= 10 then |ValueSet(g, prop)| else 10)
      && r == ValuesByFrequency(g, prop)[..|r|]
      && |r| <= 10
      && Distinct(r)
      && (forall v :: v in r ==> exists x :: x in g && x.prop == prop && x.obj == v)
      && (forall i, j :: 0 <= i < j < |r| ==> Occurrences(g, prop, r[i]) >= Occurrences(g, prop, r[j]))
      && (forall x, i :: x in g && x.prop == prop && x.obj !in r && 0 <= i < |r| ==>
            Occurrences(g, prop, x.obj) <= Occurrences(g, prop, r[i]))
  {
    var all := ValuesByFrequency(g, prop);
    ValuesByFrequencyRanked(g, prop);
    var r := PropMostPop(g, prop);
    assert |r| <= |all| && forall i :: 0 <= i < |r| ==> r[i] == all[i];
    assert |all| == |ValueSet(g, prop)| by {
      DistinctCard(all);
      assert (set v | v in all) == ValueSet(g, prop);
    }
    assert Distinct(r) by {
      forall i, j | 0 <= i < j < |r| ensures r[i] != r[j] {
        assert all[i] != all[j];
      }
    }
    forall v | v in r ensures exists x :: x in g && x.prop == prop && x.obj == v {
      assert v in all;
    }
    forall x, i | x in g && x.prop == prop && x.obj !in r && 0 <= i < |r|
      ensures Occurrences(g, prop, x.obj) <= Occurrences(g, prop, r[i])
    {
      assert x.obj in all;
      var k :| 0 <= k < |all| && all[k] == x.obj;
      assert k >= |r|;
    }
  }

  /** The distinct properties of the graph, in order of first appearance. */
  function UniqueProps(g: seq<Fact>): (ps: seq<string>)
    ensures Distinct(ps)
    ensures forall p :: p in ps <==> exists x :: x in g && x.prop == p
  {
    var props := seq(|g|, i requires 0 <= i < |g| => g[i].prop);
    assert forall p :: p in props <==> exists x :: x in g && x.prop == p by {
      forall p ensures p in props <==> exists x :: x in g && x.prop == p {
        if p in props {
          var i :| 0 <= i < |props| && props[i] == p;
          assert g[i] in g;
        }
        if exists x :: x in g && x.prop == p {
          var x :| x in g && x.prop == p;
          var i :| 0 <= i < |g| && g[i] == x;
          assert props[i] == p;
        }
      }
    }
    Unique(props)
  }

  /** The movies that have at least one row of property `p`. */
  function MoviesWithProp(g: seq<Fact>, p: string): set<int> {
    set x | x in g && x.prop == p :: x.movie
  }

  /** The share of the graph's movies that have property `p` (exact arithmetic). */
  function Share(g: seq<Fact>, p: string): real
    requires MovieIds(g) != {}
  {
    |MoviesWithProp(g, p)| as real / |MovieIds(g)| as real
  }

  /** Whether show_props lists `p`: the share of movies having it reaches `percentage`. */
  predicate Shown(g: seq<Fact>, percentage: real, p: string) {
    MovieIds(g) != {} && Share(g, p) >= percentage
  }

  /** A graph in which some row carries `p` has at least one movie. */
  lemma HolderIsMovie(g: seq<Fact>, p: string)
    requires exists x :: x in g && x.prop == p
    ensures MovieIds(g) != {}
  {
    var x :| x in g && x.prop == p;
    assert x.movie in MovieIds(g);
  }

  /** show_props of utils.py: the properties held by at least `percentage` of the movies,
      each once, in order of first appearance. An empty graph has no property to visit, so
      the division by the movie count (zero) is never reached and the result is empty. */
  method ShowProps(graph: seq<Fact>, percentage: real) returns (propsToShow: seq<string>)
    ensures propsToShow == Filter(UniqueProps(graph), (p: string) => Shown(graph, percentage, p))
    ensures Distinct(propsToShow)
    ensures forall p :: p in propsToShow <==>
              (exists x :: x in graph && x.prop == p) && Shown(graph, percentage, p)
    ensures graph == [] ==> propsToShow == []
  {
    propsToShow := [];
    var totalMovies := |MovieIds(graph)|;
    var props := UniqueProps(graph);
    for k := 0 to |props|
      invariant propsToShow == Filter(props[..k], (p: string) => Shown(graph, percentage, p))
    {
      var p := props[k];
      var moviesProp := |MoviesWithProp(graph, p)|;
      assert p in props;
      HolderIsMovie(graph, p);
      var rel := moviesProp as real / totalMovies as real;
      FilterConcat(props[..k], [p], (p: string) => Shown(graph, percentage, p));
      assert props[..k + 1] == props[..k] + [p];
      if rel >= percentage {
        propsToShow := propsToShow + [p];
      }
    }
    assert props[..|props|] == props;
    FilterDistinct(props, (p: string) => Shown(graph, percentage, p));
  }

  /** One row of the ratings frame. */
  datatype Rating = Rating(user: int, movie: int, rating: real)

  /** `len(ratings[ratings['movie_id'] == m])`. */
  function RatingCount(ratings: seq<Rating>, m: int): real {
    |Filter(ratings, (r: Rating) => r.movie == m)| as real
  }

  /** A ranking of the graph's movies by popularity: each movie of the graph once, valued
      by its number of ratings, most rated first. */
  ghost predicate RankedByRatings(subGraph: seq<Fact>, ratings: seq<Rating>, ordered: seq<MovieValue>) {
    && SortedBy(ordered, ByValueDesc)
    && Distinct(RankedMovies(ordered))
    && (forall m :: m in RankedMovies(ordered) <==> m in MovieIds(subGraph))
    && (forall i :: 0 <= i < |ordered| ==> ordered[i].value == RatingCount(ratings, ordered[i].movie))
  }

  /** order_movies of main.py (order_movies_by_pop of utils.py has the same body). */
  method OrderMovies(subGraph: seq<Fact>, ratings: seq<Rating>) returns (ordered: seq<MovieValue>)
    ensures RankedByRatings(subGraph, ratings, ordered)
  {
    var ids := UniqueMovies(subGraph);
    var values: seq<MovieValue> := [];
    for k := 0 to |ids|
      invariant |values| == k
      invariant forall i :: 0 <= i < k ==> values[i] == MovieValue(ids[i], RatingCount(ratings, ids[i]))
    {
      values := values + [MovieValue(ids[k], RatingCount(ratings, ids[k]))];
    }
    assert RankedMovies(values) == ids;
    ordered := SortBy(values, ByValueDesc);
    forall i | 0 <= i < |ordered| ensures ordered[i].value == RatingCount(ratings, ordered[i].movie) {
      assert ordered[i] in multiset(values);
    }
    SortedRankingDistinct(values, ordered);
  }
}
