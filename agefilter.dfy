// remove_films_by_age (SemanticBot/utils.py): the age and the answer to the parental question
// select the rating labels to exclude; every movie rated with one of them, or with no rating,
// loses all its rows.

module AgeFilter {
  import opened Collections
  import opened Facts

  /** A row of the ratings-certificate table: the movie and its `rated` column (NaN = None). */
  datatype RateEntry = RateEntry(movie: int, rated: Option<string>)

  /** The labels removed for everyone not older than 17. */
  predicate BaseLabel(l: string) {
    l == "Unrated" || l == "Not Rated" || l == "NC-17" || l == "TV-MA"
  }

  /** Whether label `l` is excluded for this age and parental answer ("no" = not watching
      with the parents). Ages above 17 exclude nothing; 14 to 17 add R on "no"; 13 adds
      nothing; below 13 add R and TV-14, and PG-13 and TV-PG on "no". */
  predicate Restricted(age: int, answer: string, l: string) {
    && age <= 17
    && (|| BaseLabel(l)
        || (l == "R" && (age < 13 || (age > 13 && answer == "no")))
        || (l == "TV-14" && age < 13)
        || ((l == "PG-13" || l == "TV-PG") && age < 13 && answer == "no"))
  }

  /** The `remove_labels` list, grown append by append: exactly the restricted labels, each once. */
  method RemoveLabels(age: int, answer: string) returns (labels: seq<string>)
    requires age <= 17
    ensures Distinct(labels)
    ensures forall l :: l in labels <==> Restricted(age, answer, l)
  {
    labels := [];
    labels := labels + ["Unrated"];
    labels := labels + ["Not Rated"];
    labels := labels + ["NC-17"];
    labels := labels + ["TV-MA"];
    if age > 13 {
      if answer == "no" {
        labels := labels + ["R"];
      }
    }
    if age < 13 {
      labels := labels + ["R"];
      labels := labels + ["TV-14"];
      if answer == "no" {
        labels := labels + ["PG-13"];
        labels := labels + ["TV-PG"];
      }
    }
  }

  /** Whether movie `m` is removed: one of its entries has no rating or a restricted one. */
  predicate IsRemoved(rateSet: seq<RateEntry>, labels: seq<string>, m: int) {
    exists e :: e in rateSet && e.movie == m && (e.rated.None? || e.rated.value in labels)
  }

  /** The movies of some entries, in order. */
  function EntryMovies(es: seq<RateEntry>): (ms: seq<int>)
    ensures forall m :: m in ms <==> exists e :: e in es && e.movie == m
  {
    var ms := seq(|es|, i requires 0 <= i < |es| => es[i].movie);
    assert forall m :: m in ms <==> exists e :: e in es && e.movie == m by {
      forall m ensures m in ms <==> exists e :: e in es && e.movie == m {
        if exists e :: e in es && e.movie == m {
          var e :| e in es && e.movie == m;
          var i :| 0 <= i < |es| && es[i] == e;
          assert ms[i] == m;
        }
      }
    }
    ms
  }

  /** `remove_movies`: the movies with no rating, then, label by label, those of the
      remaining entries carrying that label (each dropped from the table once collected). */
  method CollectRemoved(rateSet: seq<RateEntry>, labels: seq<string>) returns (removeMovies: seq<int>)
    ensures forall m :: m in removeMovies <==> IsRemoved(rateSet, labels, m)
  {
    removeMovies := EntryMovies(Filter(rateSet, (e: RateEntry) => e.rated.None?));
    var rest := Filter(rateSet, (e: RateEntry) => e.movie !in removeMovies);
    for k := 0 to |labels|
      invariant forall m :: m in removeMovies <==> IsRemoved(rateSet, labels[..k], m)
      invariant forall e :: e in rest <==> e in rateSet && e.movie !in removeMovies
    {
      var tag := labels[k];
      var moviesWithLabel := EntryMovies(Filter(rest, (e: RateEntry) => e.rated == Some(tag)));
      assert labels[..k + 1] == labels[..k] + [tag];
      forall m ensures m in removeMovies + moviesWithLabel <==> IsRemoved(rateSet, labels[..k + 1], m) {
        if IsRemoved(rateSet, labels[..k + 1], m) && m !in removeMovies {
          var e :| e in rateSet && e.movie == m && (e.rated.None? || e.rated.value in labels[..k + 1]);
          assert e in rest;
        }
      }
      removeMovies := removeMovies + moviesWithLabel;
      rest := Filter(rest, (e: RateEntry) => e.movie !in moviesWithLabel);
    }
    assert labels[..|labels|] == labels;
  }

  /** remove_films_by_age: above 17 the graph comes back unchanged; otherwise every row of a
      removed movie goes and no other row is touched. Dropping a removed
      movie that has no row in the graph is a KeyError. */
  method RemoveFilmsByAge(age: int, answer: string, rateSet: seq<RateEntry>, graph: seq<Fact>)
    returns (r: Result<seq<Fact>>)
    ensures age > 17 ==> r == Ok(graph)
    ensures age <= 17 ==>
      (r.Err? <==> exists e :: e in rateSet && (e.rated.None? || Restricted(age, answer, e.rated.value))
                               && e.movie !in MovieIds(graph))
    ensures r.Err? ==> r.error == KeyError
    ensures age <= 17 && r.Ok? ==>
      && (forall x :: x in r.value <==> x in graph && !IsExcluded(age, answer, rateSet, x.movie))
      && forall x :: multiset(r.value)[x] ==
           if IsExcluded(age, answer, rateSet, x.movie) then 0 else multiset(graph)[x]
  {
    if age > 17 {
      return Ok(graph);
    }
    var labels := RemoveLabels(age, answer);
    var removeMovies := CollectRemoved(rateSet, labels);
    assert forall m :: m in removeMovies <==> IsExcluded(age, answer, rateSet, m);
    if exists m :: m in removeMovies && m !in MovieIds(graph) {
      return Err(KeyError);
    }
    return Ok(Filter(graph, (x: Fact) => x.movie !in removeMovies));
  }

  /** Whether the filter removes movie `m` for this age and answer. */
  predicate IsExcluded(age: int, answer: string, rateSet: seq<RateEntry>, m: int) {
    exists e :: e in rateSet && e.movie == m && (e.rated.None? || Restricted(age, answer, e.rated.value))
  }
}
