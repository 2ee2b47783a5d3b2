/** The property graph shared by every part of the recommender: a frame of
    (movie_id, prop, obj, obj_code) rows indexed by movie id, the errors pandas
    and Python raise on it, and the frame operations built on the index. */
module Facts {
  import opened Collections
  import opened Sorting

  /** The Python exceptions the modelled code can raise. */
  datatype Error = KeyError | IndexError | ValueError | ZeroDivisionError | PowerIterationFailedConvergence

  datatype Result<T> = Ok(value: T) | Err(error: Error)

  datatype Option<T> = None | Some(value: T)

  /** One row of the property graph. The frame's index is `movie`. */
  datatype Fact = Fact(movie: int, prop: string, obj: string, objCode: string)

  /** The index values of the frame, as a set. */
  function MovieIds(g: seq<Fact>): set<int> {
    set r | r in g :: r.movie
  }

  /** `index.unique()`: each movie of the frame once, in order of first appearance. */
  function UniqueMovies(g: seq<Fact>): (u: seq<int>)
    ensures Distinct(u)
    ensures forall m :: m in u <==> m in MovieIds(g)
  {
    var ids := seq(|g|, i requires 0 <= i < |g| => g[i].movie);
    assert forall m :: m in ids <==> m in MovieIds(g) by {
      forall m ensures m in ids <==> m in MovieIds(g) {
        if m in ids {
          var i :| 0 <= i < |ids| && ids[i] == m;
          assert g[i] in g;
        }
        if m in MovieIds(g) {
          var r :| r in g && r.movie == m;
          var i :| 0 <= i < |g| && g[i] == r;
          assert ids[i] == m;
        }
      }
    }
    Unique(ids)
  }

  /** `sub_graph.loc[m]`: every row of movie `m`, in frame order. */
  function RowsOf(g: seq<Fact>, m: int): seq<Fact> {
    Filter(g, (x: Fact) => x.movie == m)
  }

  /** `sort_index()` order. */
  function ByMovie(a: Fact, b: Fact): bool {
    a.movie <= b.movie
  }

  /** `sort_index()`: the rows reordered by movie id. */
  function SortIndex(g: seq<Fact>): (r: seq<Fact>)
    ensures multiset(r) == multiset(g)
    ensures SortedBy(r, ByMovie)
  {
    SortBy(g, ByMovie)
  }

  /** The movie ids a frame keyed by `key` holds. */
  function Keys<T(==)>(s: seq<T>, key: T -> int): set<int> {
    set x | x in s :: key(x)
  }

  /** `frame.drop(m)`: every row indexed by `m` removed (the caller checks that `m` is present). */
  function Drop<T(==,!new)>(s: seq<T>, key: T -> int, m: int): (r: seq<T>)
    ensures Keys(r, key) == Keys(s, key) - {m}
    ensures forall x {:trigger multiset(r)[x]} :: multiset(r)[x] == if key(x) == m then 0 else multiset(s)[x]
  {
    Filter(s, (x: T) => key(x) != m)
  }

  /** The frame with every row of the movies `ms` removed. */
  function Without<T(==,!new)>(s: seq<T>, key: T -> int, ms: set<int>): (r: seq<T>)
    ensures Keys(r, key) == Keys(s, key) - ms
    ensures forall x {:trigger multiset(r)[x]} :: multiset(r)[x] == if key(x) in ms then 0 else multiset(s)[x]
  {
    Filter(s, (x: T) => key(x) !in ms)
  }

  /** Dropping one movie after removing a set of movies is removing the larger set, row order included. */
  lemma {:induction false} DropWithout<T(!new)>(s: seq<T>, key: T -> int, ms: set<int>, m: int)
    ensures Drop(Without(s, key, ms), key, m) == Without(s, key, ms + {m})
  {
    if |s| > 0 {
      DropWithout(s[1..], key, ms, m);
      var w := Without(s, key, ms);
      assert Without(s, key, ms) == (if key(s[0]) !in ms then [s[0]] else []) + Without(s[1..], key, ms);
      FilterConcat(if key(s[0]) !in ms then [s[0]] else [], Without(s[1..], key, ms), (x: T) => key(x) != m);
    }
  }
}

/** `value_counts()` and the popularity frame: the two counting shells shared by
    main.py and utils.py. */
module Counting {
  import opened Collections
  import opened Sorting
  import opened Facts

  /** `sub_graph[sub_graph['prop'] == prop]['obj']`: the value of every row of `prop`, in frame order. */
  function PropValues(g: seq<Fact>, prop: string): (vals: seq<string>)
    ensures forall v :: v in vals <==> exists x :: x in g && x.prop == prop && x.obj == v
  {
    var rows := Filter(g, (x: Fact) => x.prop == prop);
    var vals := seq(|rows|, i requires 0 <= i < |rows| => rows[i].obj);
    assert forall v :: v in vals ==> exists x :: x in g && x.prop == prop && x.obj == v by {
      forall v | v in vals ensures exists x :: x in g && x.prop == prop && x.obj == v {
        var i :| 0 <= i < |vals| && vals[i] == v;
        assert rows[i] in rows;
      }
    }
    assert forall x :: x in g && x.prop == prop ==> x.obj in vals by {
      forall x | x in g && x.prop == prop ensures x.obj in vals {
        assert x in rows;
        var i :| 0 <= i < |rows| && rows[i] == x;
        assert vals[i] == x.obj;
      }
    }
    vals
  }

  /** Each of `keys` paired with its number of occurrences in `vals`. */
  function Tally(keys: seq<string>, vals: seq<string>): (t: seq<(string, nat)>)
    ensures |t| == |keys|
    ensures forall i :: 0 <= i < |t| ==> t[i] == (keys[i], multiset(vals)[keys[i]])
  {
    seq(|keys|, i requires 0 <= i < |keys| => (keys[i], multiset(vals)[keys[i]]))
  }

  function ByCountDesc(a: (string, nat), b: (string, nat)): bool {
    a.1 >= b.1
  }

  /** pandas `value_counts()`: every distinct value with its count, most frequent first. */
  function ValueCounts(vals: seq<string>): seq<(string, nat)> {
    SortBy(Tally(Unique(vals), vals), ByCountDesc)
  }

  /** `value_counts().index`: the values alone. */
  function Labels(vc: seq<(string, nat)>): (ls: seq<string>)
    ensures |ls| == |vc|
    ensures forall i :: 0 <= i < |vc| ==> ls[i] == vc[i].0
  {
    seq(|vc|, i requires 0 <= i < |vc| => vc[i].0)
  }

  /** `value_counts()` lists each value of `vals` exactly once, with its true count,
      in non-increasing order of count. */
  lemma ValueCountsShape(vals: seq<string>)
    ensures var vc := ValueCounts(vals);
      && SortedBy(vc, ByCountDesc)
      && Distinct(Labels(vc))
      && (forall v :: v in Labels(vc) <==> v in vals)
      && (forall i :: 0 <= i < |vc| ==> vc[i].1 == multiset(vals)[vc[i].0])
  {
    var t := Tally(Unique(vals), vals);
    var vc := ValueCounts(vals);
    assert multiset(vc) == multiset(t);
    assert Distinct(t) by {
      forall i, j | 0 <= i < j < |t| ensures t[i] != t[j] {
        assert Unique(vals)[i] != Unique(vals)[j];
      }
    }
    DistinctPermutation(vc, t);
    forall i | 0 <= i < |vc| ensures vc[i] in t {
      assert vc[i] in multiset(t);
    }
    forall v | v in vals ensures v in Labels(vc) {
      var k :| 0 <= k < |Unique(vals)| && Unique(vals)[k] == v;
      assert t[k] in multiset(vc);
      var i :| 0 <= i < |vc| && vc[i] == t[k];
      assert Labels(vc)[i] == v;
    }
    forall i, j | 0 <= i < j < |vc| ensures Labels(vc)[i] != Labels(vc)[j] {
      assert vc[i] != vc[j];
    }
  }

  /** One row of the frame that orders movies: `value` indexed by movie id. */
  datatype MovieValue = MovieValue(movie: int, value: real)

  function MovieOf(mv: MovieValue): int {
    mv.movie
  }

  /** `sort_values(by=['value'], ascending=False)` order. */
  function ByValueDesc(a: MovieValue, b: MovieValue): bool {
    a.value >= b.value
  }

  /** The movies of a ranking, in rank order. */
  function RankedMovies(ranked: seq<MovieValue>): (ms: seq<int>)
    ensures |ms| == |ranked|
    ensures forall i :: 0 <= i < |ranked| ==> ms[i] == ranked[i].movie
  {
    seq(|ranked|, i requires 0 <= i < |ranked| => ranked[i].movie)
  }

  /** Reordering a frame that holds each movie once still holds each of those movies once,
      and no other. */
  lemma SortedRankingDistinct(scored: seq<MovieValue>, ranked: seq<MovieValue>)
    requires multiset(ranked) == multiset(scored)
    requires Distinct(RankedMovies(scored))
    ensures Distinct(RankedMovies(ranked))
    ensures forall m :: m in RankedMovies(ranked) <==> m in RankedMovies(scored)
  {
    assert Distinct(scored) by {
      forall i, j | 0 <= i < j < |scored| ensures scored[i] != scored[j] {
        assert RankedMovies(scored)[i] != RankedMovies(scored)[j];
      }
    }
    DistinctPermutation(ranked, scored);
    forall i, j | 0 <= i < j < |ranked| ensures RankedMovies(ranked)[i] != RankedMovies(ranked)[j] {
      assert ranked[i] in multiset(scored) && ranked[j] in multiset(scored);
      var a :| 0 <= a < |scored| && scored[a] == ranked[i];
      var b :| 0 <= b < |scored| && scored[b] == ranked[j];
      assert a != b;
      assert RankedMovies(scored)[a] != RankedMovies(scored)[b];
    }
    forall m ensures m in RankedMovies(ranked) <==> m in RankedMovies(scored) {
      if m in RankedMovies(ranked) {
        var i :| 0 <= i < |ranked| && ranked[i].movie == m;
        assert ranked[i] in multiset(scored);
        var j :| 0 <= j < |scored| && scored[j] == ranked[i];
        assert RankedMovies(scored)[j] == m;
      }
      if m in RankedMovies(scored) {
        var j :| 0 <= j < |scored| && scored[j].movie == m;
        assert scored[j] in multiset(ranked);
        var i :| 0 <= i < |ranked| && ranked[i] == scored[j];
        assert RankedMovies(ranked)[i] == m;
      }
    }
  }
}
