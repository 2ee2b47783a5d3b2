// The offline co-occurrence matrix (WikidataIntegration/adjacency_matrix.py): one row and one
// column per movie, in ascending id order; each off-diagonal cell holds how many distinct
// (prop, obj) pairs the two movies share.

module Adjacency {
  import opened Collections
  import opened Sorting
  import opened Facts

  type Pair = (string, string)

  /** The (prop, obj) pairs of some rows, in order. */
  function PairsOf(rows: seq<Fact>): (ps: seq<Pair>)
    ensures |ps| == |rows|
    ensures forall i :: 0 <= i < |rows| ==> ps[i] == (rows[i].prop, rows[i].obj)
  {
    seq(|rows|, i requires 0 <= i < |rows| => (rows[i].prop, rows[i].obj))
  }

  /** movie_props_list: `loc[movie_id]` yields a frame for several rows but a two-field
      Series for a single row, hence the `len > 2` test. An unknown movie raises KeyError,
      and so does a movie with exactly two rows (its frame has no column 0); both give []. */
  function MovieProps(m: int, g: seq<Fact>): (ps: seq<Pair>)
    ensures forall t :: t in ps <==>
              |RowsOf(g, m)| != 2 && exists x :: x in g && x.movie == m && (x.prop, x.obj) == t
    ensures |RowsOf(g, m)| == 1 ==> ps == [(RowsOf(g, m)[0].prop, RowsOf(g, m)[0].obj)]
    ensures |RowsOf(g, m)| == 0 || |RowsOf(g, m)| == 2 ==> ps == []
  {
    var rows := RowsOf(g, m);
    RowPairs(g, m);
    if |rows| == 0 then assert PairsOf(rows) == []; []
    else if |rows| > 2 then PairsOf(rows)
    else if |rows| == 1 then assert PairsOf(rows) == [(rows[0].prop, rows[0].obj)]; [(rows[0].prop, rows[0].obj)]
    else []
  }

  /** The pairs of a movie's rows are the pairs its rows in `g` carry. */
  lemma RowPairs(g: seq<Fact>, m: int)
    ensures forall t :: t in PairsOf(RowsOf(g, m)) <==> exists x :: x in g && x.movie == m && (x.prop, x.obj) == t
  {
    var rows := RowsOf(g, m);
    var ps := PairsOf(rows);
    forall t ensures t in ps <==> exists x :: x in g && x.movie == m && (x.prop, x.obj) == t {
      if t in ps {
        var i :| 0 <= i < |ps| && ps[i] == t;
        assert rows[i] in rows;
      }
      if exists x :: x in g && x.movie == m && (x.prop, x.obj) == t {
        var x :| x in g && x.movie == m && (x.prop, x.obj) == t;
        assert x in rows;
        var i :| 0 <= i < |rows| && rows[i] == x;
        assert ps[i] == t;
      }
    }
  }

  /** What the two movies share: `set(movie1_props).intersection(set(movie2_props))`. */
  function Shared(m1: int, m2: int, g: seq<Fact>): set<Pair> {
    set t | t in MovieProps(m1, g) && t in MovieProps(m2, g)
  }

  /** The cell for the movies at positions i and j of the axis. */
  function Cell(movies: seq<int>, g: seq<Fact>, i: int, j: int): nat
    requires 0 <= i < |movies| && 0 <= j < |movies|
  {
    if movies[i] == movies[j] then 0 else |Shared(movies[i], movies[j], g)|
  }

  function Ascending(a: int, b: int): bool {
    a <= b
  }

  /** `index.unique().sort_values()`: the movie ids, each once, ascending. */
  function Axis(g: seq<Fact>): (movies: seq<int>)
    ensures forall i, j :: 0 <= i < j < |movies| ==> movies[i] < movies[j]
    ensures forall m :: m in movies <==> m in MovieIds(g)
  {
    var u := UniqueMovies(g);
    var movies := SortBy(u, Ascending);
    DistinctPermutation(movies, u);
    assert forall m :: m in movies <==> m in u by {
      forall m ensures m in movies <==> m in u {
        assert m in movies <==> m in multiset(movies);
        assert m in u <==> m in multiset(u);
      }
    }
    movies
  }

  /** The cells already written when the outer loop is at row i and the inner one at column
      j: every cell of an earlier row or column, and the cells (i, k) and (k, i) for k < j. */
  predicate Written(i: int, j: int, a: int, b: int) {
    a < i || b < i || (a == i && b < j) || (b == i && a < j)
  }

  /** The matrix-filling loops: `adj[i, j]` is the cell of the i-th and j-th movies. */
  method FillMatrix(g: seq<Fact>) returns (movies: seq<int>, adj: array2<int>)
    ensures movies == Axis(g)
    ensures fresh(adj)
    ensures adj.Length0 == |movies| && adj.Length1 == |movies|
    ensures forall i, j :: 0 <= i < |movies| && 0 <= j < |movies| ==> adj[i, j] == Cell(movies, g, i, j)
  {
    movies := Axis(g);
    var n := |movies|;
    adj := new int[n, n]((_, _) => 0);
    for i := 0 to n
      invariant forall a, b :: 0 <= a < n && 0 <= b < n && Written(i, i, a, b) ==> adj[a, b] == Cell(movies, g, a, b)
    {
      FillRow(g, movies, adj, i);
    }
  }

  /** One pass of the outer loop: row i and column i, from the diagonal on. */
  method FillRow(g: seq<Fact>, movies: seq<int>, adj: array2<int>, i: int)
    requires adj.Length0 == |movies| && adj.Length1 == |movies| && 0 <= i < |movies|
    requires forall a, b :: 0 <= a < |movies| && 0 <= b < |movies| && Written(i, i, a, b) ==>
               adj[a, b] == Cell(movies, g, a, b)
    modifies adj
    ensures forall a, b :: 0 <= a < |movies| && 0 <= b < |movies| && Written(i + 1, i + 1, a, b) ==>
              adj[a, b] == Cell(movies, g, a, b)
  {
    var n := |movies|;
    var movie1 := movies[i];
    var movie1Props := MovieProps(movie1, g);
    for j := i to n
      invariant forall a, b :: 0 <= a < n && 0 <= b < n && Written(i, j, a, b) ==> adj[a, b] == Cell(movies, g, a, b)
    {
      var movie2 := movies[j];
      if movie1 != movie2 {
        var movie2Props := MovieProps(movie2, g);
        var intersection := set t | t in movie1Props && t in movie2Props;
        assert Shared(movie2, movie1, g) == intersection;
        adj[i, j] := |intersection|;
        adj[j, i] := |intersection|;
      } else {
        adj[i, j] := 0;
        adj[j, i] := 0;
      }
    }
  }

  /** The matrix is symmetric and its diagonal is zero. */
  lemma CellSymmetric(movies: seq<int>, g: seq<Fact>, i: int, j: int)
    requires 0 <= i < |movies| && 0 <= j < |movies|
    ensures Cell(movies, g, i, j) == Cell(movies, g, j, i)
    ensures i == j ==> Cell(movies, g, i, j) == 0
  {
    assert Shared(movies[i], movies[j], g) == Shared(movies[j], movies[i], g);
  }

  /** A cell never exceeds the number of distinct pairs of either of its movies. */
  lemma CellBound(movies: seq<int>, g: seq<Fact>, i: int, j: int)
    requires 0 <= i < |movies| && 0 <= j < |movies|
    ensures Cell(movies, g, i, j) <= |set t | t in MovieProps(movies[i], g)|
    ensures Cell(movies, g, i, j) <= |set t | t in MovieProps(movies[j], g)|
  {
    var s1 := set t | t in MovieProps(movies[i], g);
    var s2 := set t | t in MovieProps(movies[j], g);
    assert Shared(movies[i], movies[j], g) == s1 * s2;
    IntersectionCard(s1, s2);
  }

  lemma IntersectionCard<T>(a: set<T>, b: set<T>)
    ensures |a * b| <= |a| && |a * b| <= |b|
  {
    SubsetCard(a * b, a);
    SubsetCard(a * b, b);
  }

  lemma {:induction false} SubsetCard<T>(a: set<T>, b: set<T>)
    requires a <= b
    ensures |a| <= |b|
    decreases |b|
  {
    if a != {} {
      var x :| x in a;
      SubsetCard(a - {x}, b - {x});
    }
  }
}
