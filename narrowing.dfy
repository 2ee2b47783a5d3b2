/** Graph narrowing: shrink_graph as SemanticBot/main.py writes it (the accepted
    property's rows and the accepted value's rows are stripped) and as
    SemanticBot/utils.py writes it (nothing is stripped, matching rows are doubled). */
module Narrowing {
  import opened Collections
  import opened Sorting
  import opened Facts

  /** The rows that carry exactly the pair (prop, obj): the mask of main.py:46. */
  function Matching(g: seq<Fact>, prop: string, obj: string): seq<Fact> {
    Filter(g, (x: Fact) => x.prop == prop && x.obj == obj)
  }

  /** The movies that have a row carrying (prop, obj). */
  function MatchedMovies(g: seq<Fact>, prop: string, obj: string): set<int> {
    MovieIds(Matching(g, prop, obj))
  }

  /** The strip of main.py:51: a row survives only if its property differs from `prop`
      AND its value differs from `obj`. */
  function Unstripped(g: seq<Fact>, prop: string, obj: string): seq<Fact> {
    Filter(g, (x: Fact) => x.prop != prop && x.obj != obj)
  }

  /** What narrowing keeps, in frame order: the rows of matched movies that survive the strip. */
  function Narrowed(g: seq<Fact>, prop: string, obj: string): seq<Fact> {
    var ms := MatchedMovies(g, prop, obj);
    Filter(g, (x: Fact) => x.movie in ms && x.prop != prop && x.obj != obj)
  }

  /** shrink_graph of main.py: gathers every row of each movie holding (prop, obj),
      strips the rows of that property and the rows of that value, and sorts by movie. */
  method ShrinkGraph(subGraph: seq<Fact>, prop: string, obj: string) returns (shrinked: seq<Fact>)
    ensures SortedBy(shrinked, ByMovie)
    ensures multiset(shrinked) == multiset(Narrowed(subGraph, prop, obj))
    ensures forall x :: x in shrinked ==>
      x in subGraph && x.movie in MatchedMovies(subGraph, prop, obj) && x.prop != prop && x.obj != obj
    ensures MovieIds(shrinked) <= MovieIds(subGraph)
  {
    var matching := Matching(subGraph, prop, obj);
    var ids := UniqueMovies(matching);
    var gathered := Gather(subGraph, matching, ids);
    StripGathered(subGraph, prop, obj, gathered, ids);
    shrinked := SortIndex(Unstripped(gathered, prop, obj));
    NarrowedRows(subGraph, prop, obj, shrinked);
  }

  /** The concat loop of shrink_graph: starting from `matching`, appends every row of
      each movie of `ids` in turn. */
  method Gather(subGraph: seq<Fact>, matching: seq<Fact>, ids: seq<int>) returns (gathered: seq<Fact>)
    requires Distinct(ids)
    ensures forall x :: multiset(gathered)[x] ==
              multiset(matching)[x] + (if x.movie in ids then multiset(subGraph)[x] else 0)
  {
    gathered := matching;
    var k := 0;
    while k < |ids|
      invariant 0 <= k <= |ids|
      invariant forall x :: multiset(gathered)[x] ==
                  multiset(matching)[x] + (if x.movie in ids[..k] then multiset(subGraph)[x] else 0)
    {
      assert ids[k] !in ids[..k];
      assert ids[..k + 1] == ids[..k] + [ids[k]];
      GatherMovie(subGraph, matching, gathered, ids[..k], ids[k]);
      gathered := gathered + RowsOf(subGraph, ids[k]);
      k := k + 1;
    }
    assert ids[..k] == ids;
  }

  /** Appending the rows of one more movie, not gathered before, adds each of its rows once. */
  lemma GatherMovie(g: seq<Fact>, matching: seq<Fact>, acc: seq<Fact>, done: seq<int>, m: int)
    requires m !in done
    requires forall x :: multiset(acc)[x] ==
               multiset(matching)[x] + (if x.movie in done then multiset(g)[x] else 0)
    ensures forall x :: multiset(acc + RowsOf(g, m))[x] ==
              multiset(matching)[x] + (if x.movie in done + [m] then multiset(g)[x] else 0)
  {
  }

  /** Stripping the gathered rows (the matching rows, then every row of each matched
      movie) leaves the narrowed rows with their multiplicities in the graph. */
  lemma StripGathered(g: seq<Fact>, prop: string, obj: string, gathered: seq<Fact>, ids: seq<int>)
    requires forall m :: m in ids <==> m in MatchedMovies(g, prop, obj)
    requires forall x :: multiset(gathered)[x] ==
               multiset(Matching(g, prop, obj))[x] + (if x.movie in ids then multiset(g)[x] else 0)
    ensures multiset(Unstripped(gathered, prop, obj)) == multiset(Narrowed(g, prop, obj))
  {
    var a := multiset(Unstripped(gathered, prop, obj));
    var b := multiset(Narrowed(g, prop, obj));
    forall x ensures a[x] == b[x] {
      if x.prop != prop && x.obj != obj {
        assert multiset(Matching(g, prop, obj))[x] == 0;
      }
    }
  }

  /** Every row of a permutation of the narrowed rows is a row of the graph, of a matched
      movie, carrying neither the property nor the value. */
  lemma NarrowedRows(g: seq<Fact>, prop: string, obj: string, r: seq<Fact>)
    requires multiset(r) == multiset(Narrowed(g, prop, obj))
    ensures forall x :: x in r ==>
      x in g && x.movie in MatchedMovies(g, prop, obj) && x.prop != prop && x.obj != obj
    ensures MovieIds(r) <= MovieIds(g)
  {
    forall x | x in r
      ensures x in g && x.movie in MatchedMovies(g, prop, obj) && x.prop != prop && x.obj != obj
    {
      assert x in multiset(Narrowed(g, prop, obj));
    }
  }

  /** Narrowing twice by the same pair empties the graph: no row carrying the pair
      survives the first narrowing, so the second matches no movie. */
  method ShrinkTwice(subGraph: seq<Fact>, prop: string, obj: string) returns (twice: seq<Fact>)
    ensures twice == []
  {
    var once := ShrinkGraph(subGraph, prop, obj);
    twice := ShrinkGraph(once, prop, obj);
    assert MatchedMovies(once, prop, obj) == {} by {
      forall x | x in once ensures x.prop != prop {}
    }
    assert multiset(twice) == multiset{};
  }

  /** shrink_graph of utils.py: the same gathering, without the strip. Each row carrying
      (prop, obj) appears twice (once as a match, once among its movie's rows), every other
      row of a matched movie once, and the result is sorted by movie. */
  method ShrinkGraphUnstripped(subGraph: seq<Fact>, prop: string, obj: string) returns (shrinked: seq<Fact>)
    ensures SortedBy(shrinked, ByMovie)
    ensures forall x :: multiset(shrinked)[x] ==
              (if x.prop == prop && x.obj == obj then 2
               else if x.movie in MatchedMovies(subGraph, prop, obj) then 1
               else 0) * multiset(subGraph)[x]
    ensures MovieIds(shrinked) == MatchedMovies(subGraph, prop, obj)
  {
    var matching := Matching(subGraph, prop, obj);
    var ids := UniqueMovies(matching);
    var gathered := Gather(subGraph, matching, ids);
    GatheredCounts(subGraph, prop, obj, gathered, ids);
    GatheredMovies(subGraph, prop, obj, gathered, ids);
    shrinked := SortIndex(gathered);
    assert forall x :: x in shrinked <==> x in gathered by {
      forall x ensures x in shrinked <==> x in gathered {
        assert x in shrinked <==> x in multiset(shrinked);
        assert x in gathered <==> x in multiset(gathered);
      }
    }
  }

  /** The gathered rows, counted: twice for a matching row, once for another row of a
      matched movie. */
  lemma GatheredCounts(g: seq<Fact>, prop: string, obj: string, gathered: seq<Fact>, ids: seq<int>)
    requires forall m :: m in ids <==> m in MatchedMovies(g, prop, obj)
    requires forall x :: multiset(gathered)[x] ==
               multiset(Matching(g, prop, obj))[x] + (if x.movie in ids then multiset(g)[x] else 0)
    ensures forall x :: multiset(gathered)[x] ==
              (if x.prop == prop && x.obj == obj then 2
               else if x.movie in MatchedMovies(g, prop, obj) then 1
               else 0) * multiset(g)[x]
  {
    var matching := Matching(g, prop, obj);
    forall x ensures multiset(gathered)[x] ==
                     (if x.prop == prop && x.obj == obj then 2
                      else if x.movie in MatchedMovies(g, prop, obj) then 1
                      else 0) * multiset(g)[x]
    {
      if x.prop == prop && x.obj == obj && multiset(g)[x] > 0 {
        assert x in matching;
      }
    }
  }

  /** The gathered rows hold exactly the matched movies. */
  lemma GatheredMovies(g: seq<Fact>, prop: string, obj: string, gathered: seq<Fact>, ids: seq<int>)
    requires forall m :: m in ids <==> m in MatchedMovies(g, prop, obj)
    requires forall x :: multiset(gathered)[x] ==
               multiset(Matching(g, prop, obj))[x] + (if x.movie in ids then multiset(g)[x] else 0)
    ensures MovieIds(gathered) == MatchedMovies(g, prop, obj)
  {
    var matching := Matching(g, prop, obj);
    forall m | m in MatchedMovies(g, prop, obj) ensures m in MovieIds(gathered) {
      var r :| r in matching && r.movie == m;
      assert multiset(gathered)[r] > 0;
    }
    forall x | x in gathered ensures x.movie in MatchedMovies(g, prop, obj) {
      assert multiset(gathered)[x] > 0;
    }
  }
}
