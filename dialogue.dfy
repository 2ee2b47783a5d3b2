// The conversation loop of SemanticBot/main.py. A session keeps the narrowed graph, the
// ranked movies, the ranked property rows, the watched movies and the liked (prop, obj)
// pairs, and updates them in place on each answer. The action (ask about properties or
// recommend a movie) comes from a coin flip in the program; here it is a parameter, and so
// is every answer the user types.

module Dialogue {
  import opened Collections
  import opened Sorting
  import opened Facts
  import opened Counting
  import opened Narrowing
  import opened Popularity
  import opened PropRanking

  /** The coin flip `randint(0, 10) % 2`: 0 asks about properties, 1 recommends. */
  datatype Action = Ask | Recommend

  /** What the user can type: "no", "watched", "yes", an integer, or anything else. */
  datatype Reply = No | Watched | Yes | Pick(n: int) | Other

  /** The three frames indexed by movie that the session narrows together. */
  datatype Frames = Frames(subGraph: seq<Fact>, topM: seq<MovieValue>, topP: seq<PropRow>)

  function FactMovie(x: Fact): int {
    x.movie
  }

  function RowMovie(r: PropRow): int {
    r.movie
  }

  /** The three frames hold the same movies. */
  predicate SameMovies(f: Frames) {
    Keys(f.topM, MovieOf) == Keys(f.subGraph, FactMovie) && Keys(f.topP, RowMovie) == Keys(f.subGraph, FactMovie)
  }

  /** Every row of the movies in `ms` removed from the three frames. */
  function WithoutMovies(f: Frames, ms: set<int>): (r: Frames)
    ensures SameMovies(f) ==> SameMovies(r)
  {
    Frames(Without(f.subGraph, FactMovie, ms), Without(f.topM, MovieOf, ms), Without(f.topP, RowMovie, ms))
  }

  /** `top_m.drop(m)`, `top_p.drop(m)`, `sub_graph.drop(m)`: each raises KeyError when the
      movie is not in its index. */
  function DropOne(f: Frames, m: int): Result<Frames> {
    if m !in Keys(f.topM, MovieOf) || m !in Keys(f.topP, RowMovie) || m !in Keys(f.subGraph, FactMovie) then
      Err(KeyError)
    else
      Ok(Frames(Drop(f.subGraph, FactMovie, m), Drop(f.topM, MovieOf, m), Drop(f.topP, RowMovie, m)))
  }

  /** The drops for a list of movies, one after the other, stopping at the first error. */
  function DropMovies(f: Frames, ms: seq<int>): Result<Frames>
    decreases |ms|
  {
    if ms == [] then Ok(f)
    else match DropOne(f, ms[0]) {
      case Err(e) => Err(e)
      case Ok(g) => DropMovies(g, ms[1..])
    }
  }

  /** `sub_graph.loc[(prop == p) & (obj == o)].index`: the movie of every row carrying the
      pair, in frame order, once per such row. */
  function Holders(g: seq<Fact>, p: string, o: string): (ms: seq<int>)
    ensures forall m :: m in ms <==> m in MatchedMovies(g, p, o)
    decreases |g|
  {
    if |g| == 0 then []
    else
      var rest := Holders(g[1..], p, o);
      assert forall m :: m in MatchedMovies(g, p, o) <==>
                (g[0].prop == p && g[0].obj == o && m == g[0].movie) || m in MatchedMovies(g[1..], p, o) by {
        assert g == [g[0]] + g[1..];
        FilterConcat([g[0]], g[1..], (x: Fact) => x.prop == p && x.obj == o);
      }
      (if g[0].prop == p && g[0].obj == o then [g[0].movie] else []) + rest
  }

  /** The reject-all path: for each shown row in turn, drop every movie of the current graph
      that holds its (prop, obj). */
  function RejectRows(f: Frames, shown: seq<PropRow>): Result<Frames>
    decreases |shown|, 0
  {
    if shown == [] then Ok(f)
    else Continue(DropMovies(f, Holders(f.subGraph, shown[0].prop, shown[0].obj)), shown[1..])
  }

  /** Carry on with the remaining shown rows after a step, unless that step failed. */
  function Continue(r: Result<Frames>, shown: seq<PropRow>): Result<Frames>
    decreases |shown|, 1
  {
    match r {
      case Err(e) => Err(e)
      case Ok(f) => RejectRows(f, shown)
    }
  }

  /** The movies of `g` holding the pair of some shown row. */
  function HeldBy(g: seq<Fact>, shown: seq<PropRow>): (ms: set<int>)
    ensures forall m :: m in ms <==> exists i :: 0 <= i < |shown| && m in MatchedMovies(g, shown[i].prop, shown[i].obj)
    decreases |shown|
  {
    if shown == [] then {}
    else
      var rest := HeldBy(g, shown[1..]);
      assert forall m :: m in rest <==>
                exists i :: 1 <= i < |shown| && m in MatchedMovies(g, shown[i].prop, shown[i].obj) by {
        forall m ensures m in rest <==> exists i :: 1 <= i < |shown| && m in MatchedMovies(g, shown[i].prop, shown[i].obj) {
          if m in rest {
            var i :| 0 <= i < |shown[1..]| && m in MatchedMovies(g, shown[1..][i].prop, shown[1..][i].obj);
            assert shown[1..][i] == shown[i + 1];
          }
          if exists i :: 1 <= i < |shown| && m in MatchedMovies(g, shown[i].prop, shown[i].obj) {
            var i :| 1 <= i < |shown| && m in MatchedMovies(g, shown[i].prop, shown[i].obj);
            assert shown[1..][i - 1] == shown[i];
          }
        }
      }
      MatchedMovies(g, shown[0].prop, shown[0].obj) + rest
  }

  /** Removing no movie changes nothing. */
  lemma {:induction false} WithoutNothing<T(!new)>(s: seq<T>, key: T -> int)
    ensures Without(s, key, {}) == s
  {
    if |s| > 0 {
      WithoutNothing(s[1..], key);
      assert s == [s[0]] + s[1..];
    }
  }

  /** Dropping a movie after removing a set is removing the larger set, in every frame. */
  lemma DropOneWithout(f0: Frames, ms: set<int>, m: int)
    requires DropOne(WithoutMovies(f0, ms), m).Ok?
    ensures DropOne(WithoutMovies(f0, ms), m).value == WithoutMovies(f0, ms + {m})
  {
    DropWithout(f0.subGraph, FactMovie, ms, m);
    DropWithout(f0.topM, MovieOf, ms, m);
    DropWithout(f0.topP, RowMovie, ms, m);
  }

  /** The movies of a list, as a set. */
  function Listed(ms: seq<int>): set<int> {
    set m | m in ms
  }

  /** A successful run of drops removes exactly the listed movies. */
  lemma {:induction false} DropMoviesResult(f0: Frames, s: set<int>, ms: seq<int>)
    requires DropMovies(WithoutMovies(f0, s), ms).Ok?
    ensures DropMovies(WithoutMovies(f0, s), ms).value == WithoutMovies(f0, s + Listed(ms))
    decreases |ms|
  {
    if ms != [] {
      DropMoviesStep(f0, s, ms);
      DropMoviesResult(f0, s + {ms[0]}, ms[1..]);
      ListedCons(s, ms);
    } else {
      assert s + Listed(ms) == s;
    }
  }

  lemma ListedCons(s: set<int>, ms: seq<int>)
    requires ms != []
    ensures s + {ms[0]} + Listed(ms[1..]) == s + Listed(ms)
  {
    assert ms == [ms[0]] + ms[1..];
  }

  /** The first drop of a successful run turns the frames into those without one more movie. */
  lemma DropMoviesStep(f0: Frames, s: set<int>, ms: seq<int>)
    requires ms != [] && DropMovies(WithoutMovies(f0, s), ms).Ok?
    ensures DropMovies(WithoutMovies(f0, s), ms) == DropMovies(WithoutMovies(f0, s + {ms[0]}), ms[1..])
  {
    var f := WithoutMovies(f0, s);
    assert DropOne(f, ms[0]).Ok?;
    DropOneWithout(f0, s, ms[0]);
  }

  /** Drops of distinct movies that the frames all hold never fail. */
  lemma {:induction false} DropMoviesSucceed(f0: Frames, s: set<int>, ms: seq<int>)
    requires SameMovies(f0)
    requires Distinct(ms)
    requires forall m :: m in ms ==> m in Keys(f0.subGraph, FactMovie) && m !in s
    ensures DropMovies(WithoutMovies(f0, s), ms).Ok?
    decreases |ms|
  {
    if ms != [] {
      var f := WithoutMovies(f0, s);
      assert ms[0] in ms;
      assert Keys(f.subGraph, FactMovie) == Keys(f0.subGraph, FactMovie) - s;
      assert Keys(f.topM, MovieOf) == Keys(f0.topM, MovieOf) - s;
      assert Keys(f.topP, RowMovie) == Keys(f0.topP, RowMovie) - s;
      assert DropOne(f, ms[0]).Ok?;
      assert DropMovies(f, ms) == DropMovies(DropOne(f, ms[0]).value, ms[1..]);
      DropOneWithout(f0, s, ms[0]);
      assert Distinct(ms[1..]);
      assert ms[0] !in ms[1..];
      DropMoviesSucceed(f0, s + {ms[0]}, ms[1..]);
    }
  }

  /** The holders in a graph without some movies are the original holders minus those. */
  lemma {:induction false} HoldersWithout(g: seq<Fact>, s: set<int>, p: string, o: string)
    ensures Holders(Without(g, FactMovie, s), p, o) == Filter(Holders(g, p, o), (m: int) => m !in s)
    decreases |g|
  {
    if |g| > 0 {
      HoldersWithout(g[1..], s, p, o);
      var head := if g[0].movie !in s then [g[0]] else [];
      assert Without(g, FactMovie, s) == head + Without(g[1..], FactMovie, s);
      HoldersConcat(head, Without(g[1..], FactMovie, s), p, o);
      var h := if g[0].prop == p && g[0].obj == o then [g[0].movie] else [];
      assert Holders(g, p, o) == h + Holders(g[1..], p, o);
      FilterConcat(h, Holders(g[1..], p, o), (m: int) => m !in s);
    }
  }

  lemma {:induction false} HoldersConcat(a: seq<Fact>, b: seq<Fact>, p: string, o: string)
    ensures Holders(a + b, p, o) == Holders(a, p, o) + Holders(b, p, o)
    decreases |a|
  {
    if |a| > 0 {
      var h := if a[0].prop == p && a[0].obj == o then [a[0].movie] else [];
      assert (a + b)[0] == a[0];
      assert (a + b)[1..] == a[1..] + b;
      assert Holders(a + b, p, o) == h + Holders(a[1..] + b, p, o);
      assert Holders(a, p, o) == h + Holders(a[1..], p, o);
      HoldersConcat(a[1..], b, p, o);
    } else {
      assert a + b == b;
    }
  }

  /** One step of the reject-all path, when it succeeds, removes the holders of the pair in
      the original graph. */
  lemma StepResult(f0: Frames, s: set<int>, p: string, o: string)
    requires DropMovies(WithoutMovies(f0, s), Holders(WithoutMovies(f0, s).subGraph, p, o)).Ok?
    ensures DropMovies(WithoutMovies(f0, s), Holders(WithoutMovies(f0, s).subGraph, p, o)).value
            == WithoutMovies(f0, s + MatchedMovies(f0.subGraph, p, o))
  {
    var f := WithoutMovies(f0, s);
    var ms := Holders(f.subGraph, p, o);
    DropMoviesResult(f0, s, ms);
    var held := MatchedMovies(f0.subGraph, p, o);
    HoldersWithout(f0.subGraph, s, p, o);
    assert s + Listed(ms) == s + held by {
      forall m | m in held && m !in s ensures m in ms {
        assert m in Holders(f0.subGraph, p, o);
      }
    }
  }

  /** A successful reject-all removes from the three frames exactly the movies of the
      graph that hold the pair of some shown row, and nothing else. */
  lemma {:induction false} RejectRowsResult(f0: Frames, s: set<int>, shown: seq<PropRow>)
    requires RejectRows(WithoutMovies(f0, s), shown).Ok?
    ensures RejectRows(WithoutMovies(f0, s), shown).value == WithoutMovies(f0, s + HeldBy(f0.subGraph, shown))
    decreases |shown|
  {
    if shown != [] {
      var f := WithoutMovies(f0, s);
      var step := DropMovies(f, Holders(f.subGraph, shown[0].prop, shown[0].obj));
      assert RejectRows(f, shown) == Continue(step, shown[1..]);
      assert step.Ok?;
      StepResult(f0, s, shown[0].prop, shown[0].obj);
      var held := MatchedMovies(f0.subGraph, shown[0].prop, shown[0].obj);
      RejectRowsResult(f0, s + held, shown[1..]);
      assert s + held + HeldBy(f0.subGraph, shown[1..]) == s + HeldBy(f0.subGraph, shown);
    } else {
      assert s + HeldBy(f0.subGraph, shown) == s;
    }
  }

  /** Whether each movie has at most one row carrying each shown pair. */
  predicate SinglyHeld(g: seq<Fact>, shown: seq<PropRow>) {
    forall i :: 0 <= i < |shown| ==> Distinct(Holders(g, shown[i].prop, shown[i].obj))
  }

  /** With the frames holding the same movies and no movie holding a shown pair twice, the
      reject-all path never raises. */
  lemma {:induction false} RejectRowsSucceed(f0: Frames, s: set<int>, shown: seq<PropRow>)
    requires SameMovies(f0)
    requires SinglyHeld(f0.subGraph, shown)
    ensures RejectRows(WithoutMovies(f0, s), shown).Ok?
    decreases |shown|
  {
    if shown != [] {
      var f := WithoutMovies(f0, s);
      var ms := Holders(f.subGraph, shown[0].prop, shown[0].obj);
      HoldersWithout(f0.subGraph, s, shown[0].prop, shown[0].obj);
      FilterDistinct(Holders(f0.subGraph, shown[0].prop, shown[0].obj), (m: int) => m !in s);
      forall m | m in ms ensures m in Keys(f0.subGraph, FactMovie) && m !in s {
        assert m in MatchedMovies(f.subGraph, shown[0].prop, shown[0].obj);
        var x :| x in Matching(f.subGraph, shown[0].prop, shown[0].obj) && x.movie == m;
        assert x in f0.subGraph;
      }
      DropMoviesSucceed(f0, s, ms);
      DropMoviesResult(f0, s, ms);
      assert SinglyHeld(f0.subGraph, shown[1..]) by {
        forall i | 0 <= i < |shown[1..]| ensures Distinct(Holders(f0.subGraph, shown[1..][i].prop, shown[1..][i].obj)) {
          assert shown[1..][i] == shown[i + 1];
        }
      }
      RejectRowsSucceed(f0, s + Listed(ms), shown[1..]);
    }
  }

  /** The reject-all path on the session's own frames: it succeeds when no movie holds a
      shown pair twice, and when it succeeds it removes exactly the holders of the shown
      pairs from all three frames, which then still hold the same movies. */
  lemma RejectAll(f: Frames, shown: seq<PropRow>)
    requires SameMovies(f)
    ensures SinglyHeld(f.subGraph, shown) ==> RejectRows(f, shown).Ok?
    ensures RejectRows(f, shown).Ok? ==>
              && RejectRows(f, shown).value == WithoutMovies(f, HeldBy(f.subGraph, shown))
              && SameMovies(RejectRows(f, shown).value)
  {
    WithoutNothing(f.subGraph, FactMovie);
    WithoutNothing(f.topM, MovieOf);
    WithoutNothing(f.topP, RowMovie);
    assert WithoutMovies(f, {}) == f;
    if SinglyHeld(f.subGraph, shown) {
      RejectRowsSucceed(f, {}, shown);
    }
    if RejectRows(f, shown).Ok? {
      RejectRowsResult(f, {}, shown);
      assert {} + HeldBy(f.subGraph, shown) == HeldBy(f.subGraph, shown);
    }
  }

  /** A run of drops that reaches a movie the movie ranking no longer holds raises KeyError. */
  lemma {:induction false} DropMoviesMissing(f: Frames, ms: seq<int>, m: int)
    requires m in ms && m !in Keys(f.topM, MovieOf)
    ensures DropMovies(f, ms) == Err(KeyError)
    decreases |ms|
  {
    if ms[0] != m && DropOne(f, ms[0]).Ok? {
      var g := DropOne(f, ms[0]).value;
      assert m in ms[1..] by {
        var i :| 0 <= i < |ms| && ms[i] == m;
        assert ms[1..][i - 1] == m;
      }
      DropMoviesMissing(g, ms[1..], m);
    }
  }

  /** A run of drops listing some movie twice raises KeyError, whatever the frames: the
      first drop of that movie removes it, so the second finds it gone. */
  lemma {:induction false} DropMoviesRepeated(f: Frames, ms: seq<int>)
    requires !Distinct(ms)
    ensures DropMovies(f, ms) == Err(KeyError)
    decreases |ms|
  {
    if DropOne(f, ms[0]).Ok? {
      var g := DropOne(f, ms[0]).value;
      if ms[0] in ms[1..] {
        DropMoviesMissing(g, ms[1..], ms[0]);
      } else {
        assert !Distinct(ms[1..]) by {
          var i, j :| 0 <= i < j < |ms| && ms[i] == ms[j];
          assert ms[1..][i - 1] == ms[1..][j - 1];
        }
        DropMoviesRepeated(g, ms[1..]);
      }
    }
  }

  /** Answering "no" raises KeyError, on any frames, when some movie has two rows carrying
      the pair of the first shown row. */
  lemma RejectTwiceHeld(f: Frames, shown: seq<PropRow>)
    requires shown != [] && !Distinct(Holders(f.subGraph, shown[0].prop, shown[0].obj))
    ensures RejectRows(f, shown) == Err(KeyError)
  {
    DropMoviesRepeated(f, Holders(f.subGraph, shown[0].prop, shown[0].obj));
  }

  /** Such frames exist among those the session keeps: a movie with two rows carrying the
      shown pair, in frames that hold the same movies, makes the reject-all path raise
      KeyError. */
  lemma RejectTwiceHeldWitness(m: int, p: string, o: string, v: real)
    ensures var g := [Fact(m, p, o, "c1"), Fact(m, p, o, "c2")];
      var f := Frames(g, [MovieValue(m, v)], [PropRow(m, p, o, 2, v), PropRow(m, p, o, 2, v)]);
      && SameMovies(f)
      && RejectRows(f, [PropRow(m, p, o, 2, v)]) == Err(KeyError)
  {
    var g := [Fact(m, p, o, "c1"), Fact(m, p, o, "c2")];
    var row := PropRow(m, p, o, 2, v);
    var f := Frames(g, [MovieValue(m, v)], [row, row]);
    assert g[1..] == [Fact(m, p, o, "c2")];
    assert Holders(g[1..], p, o) == [m];
    assert Holders(g, p, o) == [m, m];
    assert Keys(f.topM, MovieOf) == {m} by {
      assert MovieValue(m, v) in f.topM;
    }
    assert Keys(f.topP, RowMovie) == {m} by {
      assert row in f.topP;
    }
    assert Keys(f.subGraph, FactMovie) == {m} by {
      assert g[0] in g;
    }
    var once := DropOne(f, m);
    assert once.Ok?;
    assert Keys(once.value.topM, MovieOf) == {};
    assert DropOne(once.value, m) == Err(KeyError);
    assert DropMovies(f, [m, m]) == Err(KeyError) by {
      assert [m, m][1..] == [m];
      assert DropMovies(once.value, [m]) == Err(KeyError);
    }
  }

  /** The recommended movie drops cleanly from frames that hold the same movies. */
  lemma DropRecommended(f: Frames, m: int)
    requires SameMovies(f)
    requires m in Keys(f.topM, MovieOf)
    ensures DropOne(f, m).Ok?
    ensures DropOne(f, m).value == WithoutMovies(f, {m})
    ensures SameMovies(DropOne(f, m).value)
  {
    WithoutNothing(f.subGraph, FactMovie);
    WithoutNothing(f.topM, MovieOf);
    WithoutNothing(f.topP, RowMovie);
    assert WithoutMovies(f, {}) == f;
    DropOneWithout(f, {}, m);
    assert {} + {m} == {m};
  }

  /** What `drop_duplicates` compares: every column but the index. */
  function Content(r: PropRow): (string, string, nat, real) {
    (r.prop, r.obj, r.count, r.value)
  }

  /** The distinct contents of some rows. */
  function Contents(rows: seq<PropRow>): set<(string, string, nat, real)> {
    set r | r in rows :: Content(r)
  }

  /** `top_p.drop_duplicates()`: the first row of each content, in order. */
  function DropDuplicates(rows: seq<PropRow>): (d: seq<PropRow>)
    ensures forall r :: r in d ==> r in rows
    ensures Contents(d) == Contents(rows)
    ensures forall i, j :: 0 <= i < j < |d| ==> Content(d[i]) != Content(d[j])
    decreases |rows|
  {
    if rows == [] then []
    else
      var n := |rows| - 1;
      var init := DropDuplicates(rows[..n]);
      var last := rows[n];
      assert rows == rows[..n] + [last];
      assert Contents(rows) == Contents(rows[..n]) + {Content(last)};
      if Content(last) in Contents(init) then init
      else
        assert Contents(init + [last]) == Contents(init) + {Content(last)};
        init + [last]
  }

  /** The content of each row, in order. */
  function ContentSeq(rows: seq<PropRow>): seq<(string, string, nat, real)> {
    seq(|rows|, i requires 0 <= i < |rows| => Content(rows[i]))
  }

  /** `drop_duplicates` keeps one row per content, the contents in order of first
      appearance, exactly as `unique()` lists them. */
  lemma {:induction false} DropDuplicatesUnique(rows: seq<PropRow>)
    ensures ContentSeq(DropDuplicates(rows)) == Unique(ContentSeq(rows))
    decreases |rows|
  {
    if rows != [] {
      var n := |rows| - 1;
      var init := DropDuplicates(rows[..n]);
      var cs := ContentSeq(rows);
      var c := Content(rows[n]);
      assert Unique(cs[..n]) == ContentSeq(init) by {
        DropDuplicatesUnique(rows[..n]);
        assert cs[..n] == ContentSeq(rows[..n]);
      }
      assert Unique(cs) == if c in Unique(cs[..n]) then Unique(cs[..n]) else Unique(cs[..n]) + [c] by {
        assert cs[n] == c;
      }
      assert DropDuplicates(rows) == if c in Contents(init) then init else init + [rows[n]];
      ContentsListed(init, c);
      ContentSeqSnoc(init, rows[n]);
    }
  }

  lemma ContentsListed(rows: seq<PropRow>, c: (string, string, nat, real))
    ensures c in Contents(rows) <==> c in ContentSeq(rows)
  {
    if c in Contents(rows) {
      var i :| 0 <= i < |rows| && Content(rows[i]) == c;
      assert ContentSeq(rows)[i] == c;
    }
  }

  lemma ContentSeqSnoc(rows: seq<PropRow>, r: PropRow)
    ensures ContentSeq(rows + [r]) == ContentSeq(rows) + [Content(r)]
  {
  }

  /** Whether `r` is a row of the frame with no earlier row of the same content. */
  predicate FirstOfContent(rows: seq<PropRow>, r: PropRow) {
    exists i :: 0 <= i < |rows| && r == rows[i] && Content(rows[i]) !in Contents(rows[..i])
  }

  /** Each row `drop_duplicates` keeps is the first row of the frame with its content. */
  lemma {:induction false} DropDuplicatesFirst(rows: seq<PropRow>)
    ensures forall k :: 0 <= k < |DropDuplicates(rows)| ==> FirstOfContent(rows, DropDuplicates(rows)[k])
    decreases |rows|
  {
    if rows != [] {
      var n := |rows| - 1;
      var init := DropDuplicates(rows[..n]);
      var d := DropDuplicates(rows);
      DropDuplicatesFirst(rows[..n]);
      assert d == if Content(rows[n]) in Contents(init) then init else init + [rows[n]];
      forall k | 0 <= k < |d| ensures FirstOfContent(rows, d[k]) {
        if k < |init| {
          assert FirstOfContent(rows[..n], init[k]);
          var i :| 0 <= i < n && init[k] == rows[..n][i] && Content(rows[..n][i]) !in Contents(rows[..n][..i]);
          assert rows[..n][..i] == rows[..i];
          assert d[k] == rows[i] && Content(rows[i]) !in Contents(rows[..i]);
        } else {
          assert d[k] == rows[n] && Content(rows[n]) !in Contents(rows[..n]);
        }
      }
    }
  }

  /** The rows shown to the user: `drop_duplicates()[:5]`. */
  function ShownRows(topP: seq<PropRow>): (shown: seq<PropRow>)
    ensures |shown| <= 5
    ensures forall r :: r in shown ==> r in topP
    ensures forall i, j :: 0 <= i < j < |shown| ==> Content(shown[i]) != Content(shown[j])
    ensures |shown| == if |DropDuplicates(topP)| <= 5 then |DropDuplicates(topP)| else 5
    ensures forall i :: 0 <= i < |shown| ==> shown[i] == DropDuplicates(topP)[i]
  {
    var d := DropDuplicates(topP);
    if |d| <= 5 then d else d[..5]
  }

  /** `iloc[i]` on a frame of `len` rows: a negative i counts from the end; anything outside
      [-len, len) raises IndexError. */
  function PyIndex(i: int, len: nat): (r: Option<nat>)
    ensures r.Some? <==> 0 <= i + len && i < len
    ensures r.Some? ==> r.value < len && (r.value == i || r.value == i + len)
  {
    if i + len < 0 || i >= len then None else if i < 0 then Some(i + len) else Some(i)
  }

  class Session {
    var subGraph: seq<Fact>
    var topM: seq<MovieValue>
    var topP: seq<PropRow>
    var watched: seq<int>
    var preferedProp: seq<Key>
    var endConversation: bool
    var pChosen: string
    var oChosen: string
    var resp: Reply

    function Current(): Frames
      reads this
    {
      Frames(subGraph, topM, topP)
    }

    predicate Valid()
      reads this
    {
      SameMovies(Current())
    }

    /** The state before the loop: the whole graph, the first (prop, obj) typed by the user,
        nothing watched or liked yet. */
    constructor(graph: seq<Fact>, p: string, o: string)
      ensures subGraph == graph && topM == [] && topP == []
      ensures watched == [] && preferedProp == []
      ensures !endConversation && pChosen == p && oChosen == o && resp == No
    {
      subGraph := graph;
      topM := [];
      topP := [];
      watched := [];
      preferedProp := [];
      endConversation := false;
      pChosen := p;
      oChosen := o;
      resp := No;
    }

    /** The top of the outer loop: narrow on the chosen pair, rank movies and properties
        (no liked pairs are filtered in main.py's order_props), and reset the answer to "no".
        The property scores are those of the narrowed graph, `scoresOf(subGraph)`: order_props
        recomputes the local and entropy z-scores from each round's graph. A missing global
        z-score raises KeyError. */
    method BeginRound(ratings: seq<Rating>, scoresOf: seq<Fact> -> Scores) returns (crash: Option<Error>)
      modifies this
      ensures SortedBy(subGraph, ByMovie)
      ensures multiset(subGraph) == multiset(Narrowed(old(subGraph), old(pChosen), old(oChosen)))
      ensures MovieIds(subGraph) <= MovieIds(old(subGraph))
      ensures forall x :: x in subGraph ==> x.prop != old(pChosen) && x.obj != old(oChosen)
      ensures crash.Some? <==> exists x :: x in subGraph && (x.prop, x.obj) !in scoresOf(subGraph).globalZ
      ensures crash.Some? ==> crash.value == KeyError && topM == old(topM) && topP == old(topP)
      ensures crash.None? ==> Valid() && resp == No
      ensures crash.None? ==> Ranked(Current(), ratings, scoresOf(subGraph))
      ensures watched == old(watched) && preferedProp == old(preferedProp)
      ensures endConversation == old(endConversation) && pChosen == old(pChosen) && oChosen == old(oChosen)
    {
      var narrowed := ShrinkGraph(subGraph, pChosen, oChosen);
      var movies, props;
      crash, movies, props := OrderPropsAndMovies(narrowed, ratings, scoresOf(narrowed));
      if crash.Some? {
        subGraph := narrowed;
        return;
      }
      subGraph, topM, topP, resp := narrowed, movies, props, No;
    }

    /** After a turn: the conversation ends once the graph, the movie ranking or the
        property ranking is empty. */
    method CheckEnd()
      modifies this
      ensures endConversation == (old(endConversation) || |subGraph| == 0 || |topM| == 0 || |topP| == 0)
      ensures subGraph == old(subGraph) && topM == old(topM) && topP == old(topP)
      ensures watched == old(watched) && preferedProp == old(preferedProp) && resp == old(resp)
      ensures pChosen == old(pChosen) && oChosen == old(oChosen)
    {
      if |subGraph| == 0 || |topM| == 0 || |topP| == 0 {
        endConversation := true;
      }
    }

    /** The ask branch. "no" rejects every shown row: each movie holding a shown pair leaves
        the three frames (a KeyError when a movie is dropped twice). A number n selects the
        shown row at Python index n - 1 and appends exactly its pair to the liked pairs. Any
        other answer fails in `int()` with ValueError. */
    method AskTurn(reply: Reply) returns (crash: Option<Error>)
      requires Valid()
      modifies this
      ensures reply == No ==>
        (crash.None? <==> RejectRows(old(Current()), ShownRows(old(topP))).Ok?)
      ensures reply == No && crash.None? ==>
        && Current() == RejectRows(old(Current()), ShownRows(old(topP))).value
        && preferedProp == old(preferedProp)
      ensures reply.Pick? ==>
        (crash.None? <==> PyIndex(reply.n - 1, |ShownRows(old(topP))|).Some?)
      ensures reply.Pick? && crash.None? ==>
        var row := ShownRows(old(topP))[PyIndex(reply.n - 1, |ShownRows(old(topP))|).value];
        && pChosen == row.prop && oChosen == row.obj
        && preferedProp == old(preferedProp) + [(row.prop, row.obj)]
        && Current() == old(Current())
      ensures (reply.Yes? || reply.Watched? || reply.Other?) ==> crash == Some(ValueError)
      ensures reply == No && crash.Some? ==> crash == Some(KeyError)
      ensures reply.Pick? && crash.Some? ==> crash == Some(IndexError)
      ensures crash.None? ==>
        && Valid() && watched == old(watched) && resp == reply
        && endConversation == (old(endConversation) || |subGraph| == 0 || |topM| == 0 || |topP| == 0)
    {
      var difProperties := ShownRows(topP);
      resp := reply;
      match reply {
        case No =>
          ghost var before := Current();
          crash := RejectShown(difProperties);
          if crash.Some? {
            return;
          }
          RejectAll(before, difProperties);
        case Pick(n) =>
          var i := PyIndex(n - 1, |difProperties|);
          if i.None? {
            return Some(IndexError);
          }
          pChosen := difProperties[i.value].prop;
          oChosen := difProperties[i.value].obj;
          preferedProp := preferedProp + [(pChosen, oChosen)];
        case _ =>
          return Some(ValueError);
      }
      CheckEnd();
      return None;
    }

    /** The loops of the "no" answer: for each shown row, every movie of the current graph
        holding its pair is dropped from `top_m`, `top_p` and `sub_graph`, in that order. */
    method RejectShown(shown: seq<PropRow>) returns (crash: Option<Error>)
      modifies this
      ensures crash.None? <==> RejectRows(old(Current()), shown).Ok?
      ensures crash.Some? ==> crash.value == KeyError
      ensures crash.None? ==> Current() == RejectRows(old(Current()), shown).value
      ensures watched == old(watched) && preferedProp == old(preferedProp) && resp == old(resp)
      ensures endConversation == old(endConversation) && pChosen == old(pChosen) && oChosen == old(oChosen)
    {
      for k := 0 to |shown|
        invariant RejectRows(old(Current()), shown) == RejectRows(Current(), shown[k..])
        invariant watched == old(watched) && preferedProp == old(preferedProp) && resp == old(resp)
        invariant endConversation == old(endConversation) && pChosen == old(pChosen) && oChosen == old(oChosen)
      {
        var moviesWithProp := Holders(subGraph, shown[k].prop, shown[k].obj);
        assert shown[k..][1..] == shown[k + 1..];
        assert RejectRows(Current(), shown[k..]) == Continue(DropMovies(Current(), moviesWithProp), shown[k + 1..]);
        crash := DropHolders(moviesWithProp);
        if crash.Some? {
          return;
        }
      }
      return None;
    }

    /** `for m in movies_with_prop`: each movie dropped from `top_m`, `top_p` and
        `sub_graph`. The frames are carried in a local value and stored back once the loop
        ends; a KeyError ends the program, so the partly dropped state is never read. */
    method DropHolders(ms: seq<int>) returns (crash: Option<Error>)
      modifies this
      ensures crash.None? <==> DropMovies(old(Current()), ms).Ok?
      ensures crash.Some? ==> crash.value == KeyError
      ensures crash.None? ==> Current() == DropMovies(old(Current()), ms).value
      ensures watched == old(watched) && preferedProp == old(preferedProp) && resp == old(resp)
      ensures endConversation == old(endConversation) && pChosen == old(pChosen) && oChosen == old(oChosen)
    {
      var f := Current();
      for j := 0 to |ms|
        invariant DropMovies(old(Current()), ms) == DropMovies(f, ms[j..])
      {
        var dropped := DropOne(f, ms[j]);
        assert ms[j..][0] == ms[j] && ms[j..][1..] == ms[j + 1..];
        if dropped.Err? {
          return Some(dropped.error);
        }
        f := dropped.value;
      }
      subGraph, topM, topP := f.subGraph, f.topM, f.topP;
      return None;
    }

    /** The recommend branch. With no ranked movie left the conversation ends at once (the
        loop breaks before any further check). "yes" ends it. Any other answer removes only
        the top movie from the three frames, and only "watched" appends it to the watched
        movies. */
    method RecommendTurn(reply: Reply) returns (crash: Option<Error>, stop: bool)
      requires Valid()
      modifies this
      ensures crash.None?
      ensures stop <==> |old(topM)| == 0
      ensures stop ==> endConversation && Current() == old(Current()) && watched == old(watched)
      ensures !stop && reply == Yes ==> endConversation && Current() == old(Current()) && watched == old(watched)
      ensures !stop && reply != Yes ==>
        var m := old(topM)[0].movie;
        && Current() == WithoutMovies(old(Current()), {m})
        && watched == old(watched) + (if reply == Watched then [m] else [])
        && endConversation == (old(endConversation) || |subGraph| == 0 || |topM| == 0 || |topP| == 0)
      ensures Valid()
      ensures preferedProp == old(preferedProp) && pChosen == old(pChosen) && oChosen == old(oChosen)
      ensures !stop ==> resp == reply
    {
      if |topM| == 0 {
        endConversation := true;
        return None, true;
      }
      resp := reply;
      if reply == Yes {
        endConversation := true;
      } else {
        var mId := topM[0].movie;
        if reply == Watched {
          watched := watched + [mId];
        }
        assert mId in Keys(topM, MovieOf) by {
          assert topM[0] in topM;
        }
        DropMovie(mId);
      }
      CheckEnd();
      return None, false;
    }

    /** `top_m.drop(m_id)`, `top_p.drop(m_id)`, `sub_graph.drop(m_id)` for the recommended
        movie, which the three frames all hold. */
    method DropMovie(m: int)
      requires Valid() && m in Keys(topM, MovieOf)
      modifies this
      ensures Current() == WithoutMovies(old(Current()), {m}) && Valid()
      ensures watched == old(watched) && preferedProp == old(preferedProp) && resp == old(resp)
      ensures endConversation == old(endConversation) && pChosen == old(pChosen) && oChosen == old(oChosen)
    {
      DropRecommended(Current(), m);
      var dropped := DropOne(Current(), m).value;
      topM, topP, subGraph := dropped.topM, dropped.topP, dropped.subGraph;
    }

    /** The whole conversation, driven by a script of (coin flip, answer) pairs: the outer
        loop narrows and ranks until the conversation ends, the inner one takes turns while
        the answer is "no" or "watched". Running out of script stops the run. Each round
        ranks the properties with the scores `scoresOf` gives for its narrowed graph. */
    method Run(ratings: seq<Rating>, scoresOf: seq<Fact> -> Scores, script: seq<(Action, Reply)>) returns (crash: Option<Error>, used: nat)
      modifies this
      ensures used <= |script|
      ensures crash.None? && used < |script| ==> endConversation
      ensures crash.Some? ==> crash.value in {KeyError, IndexError, ValueError}
    {
      used := 0;
      while !endConversation
        invariant used <= |script|
        decreases |script| - used
      {
        crash := BeginRound(ratings, scoresOf);
        if crash.Some? {
          return;
        }
        var start := used;
        while resp == No || resp == Watched
          invariant start <= used <= |script|
          invariant used > start || resp == No
          invariant Valid()
          decreases |script| - used
        {
          if used == |script| {
            return None, used;
          }
          var (action, reply) := script[used];
          used := used + 1;
          if action == Ask {
            crash := AskTurn(reply);
            if crash.Some? {
              return;
            }
          } else {
            var stop;
            crash, stop := RecommendTurn(reply);
            if stop {
              break;
            }
          }
          if endConversation {
            break;
          }
        }
      }
      crash := None;
    }
  }

  /** Frames as a round leaves them: the movies ranked by number of ratings, the property
      rows ranked by score with no liked pair filtered out. */
  ghost predicate Ranked(f: Frames, ratings: seq<Rating>, sc: Scores) {
    RankedByRatings(f.subGraph, ratings, f.topM) && RankedProps(f.subGraph, sc, [], f.topP)
  }

  /** order_props_and_movies of main.py: both rankings of the narrowed graph, which hold
      exactly its movies; a pair without a global z-score raises KeyError. */

  method OrderPropsAndMovies(g: seq<Fact>, ratings: seq<Rating>, sc: Scores)
    returns (crash: Option<Error>, topM: seq<MovieValue>, topP: seq<PropRow>)
    ensures crash.Some? <==> exists x :: x in g && (x.prop, x.obj) !in sc.globalZ
    ensures crash.Some? ==> crash.value == KeyError
    ensures crash.None? ==> SameMovies(Frames(g, topM, topP))
    ensures crash.None? ==> Ranked(Frames(g, topM, topP), ratings, sc)
  {
    topM := OrderMovies(g, ratings);
    var props := OrderProps(g, sc, []);
    if props.Err? {
      return Some(props.error), topM, [];
    }
    topP := props.value;
    RankedMovieKeys(g, topM);
    RankedRowKeys(g, sc, topP);
    return None, topM, topP;
  }

  /** The ranked movies hold exactly the movies of the graph. */
  lemma RankedMovieKeys(g: seq<Fact>, topM: seq<MovieValue>)
    requires forall m :: m in RankedMovies(topM) <==> m in MovieIds(g)
    ensures Keys(topM, MovieOf) == Keys(g, FactMovie)
  {
    assert Keys(g, FactMovie) == MovieIds(g);
    forall m ensures m in Keys(topM, MovieOf) <==> m in MovieIds(g) {
      if m in Keys(topM, MovieOf) {
        var mv :| mv in topM && mv.movie == m;
        var i :| 0 <= i < |topM| && topM[i] == mv;
        assert RankedMovies(topM)[i] == m;
      }
      if m in MovieIds(g) {
        assert m in RankedMovies(topM);
        var i :| 0 <= i < |topM| && RankedMovies(topM)[i] == m;
        assert topM[i] in topM;
      }
    }
  }

  /** The ranked property rows, with no liked pair filtered out, hold exactly the movies of
      the graph. */
  lemma RankedRowKeys(g: seq<Fact>, sc: Scores, topP: seq<PropRow>)
    requires forall e :: e in Slice(g) ==> (e.prop, e.obj) in sc.globalZ
    requires forall row :: row in topP ==>
               exists e :: e in Slice(g) && (e.prop, e.obj) in sc.globalZ && row == RowFor(Slice(g), sc, e)
    requires forall e :: e in Slice(g) ==>
               multiset(topP)[RowFor(Slice(g), sc, e)] == (if Liked(e.obj, []) then 0 else multiset(Slice(g))[e])
    ensures Keys(topP, RowMovie) == Keys(g, FactMovie)
  {
    assert Keys(g, FactMovie) == MovieIds(g);
    forall m | m in Keys(topP, RowMovie) ensures m in MovieIds(g) {
      RowMovieInGraph(g, sc, topP, m);
    }
    forall m | m in MovieIds(g) ensures m in Keys(topP, RowMovie) {
      GraphMovieInRows(g, sc, topP, m);
    }
  }

  lemma RowMovieInGraph(g: seq<Fact>, sc: Scores, topP: seq<PropRow>, m: int)
    requires forall row :: row in topP ==>
               exists e :: e in Slice(g) && (e.prop, e.obj) in sc.globalZ && row == RowFor(Slice(g), sc, e)
    requires m in Keys(topP, RowMovie)
    ensures m in MovieIds(g)
  {
    var row :| row in topP && row.movie == m;
    var e :| e in Slice(g) && (e.prop, e.obj) in sc.globalZ && row == RowFor(Slice(g), sc, e);
    var i :| 0 <= i < |Slice(g)| && Slice(g)[i] == e;
    assert g[i] in g;
  }

  lemma GraphMovieInRows(g: seq<Fact>, sc: Scores, topP: seq<PropRow>, m: int)
    requires forall e :: e in Slice(g) ==> (e.prop, e.obj) in sc.globalZ
    requires forall e :: e in Slice(g) ==>
               multiset(topP)[RowFor(Slice(g), sc, e)] == (if Liked(e.obj, []) then 0 else multiset(Slice(g))[e])
    requires m in MovieIds(g)
    ensures m in Keys(topP, RowMovie)
  {
    var x :| x in g && x.movie == m;
    var i :| 0 <= i < |g| && g[i] == x;
    var e := Slice(g)[i];
    assert e in Slice(g);
    assert !Liked(e.obj, []);
    var row := RowFor(Slice(g), sc, e);
    assert row.movie == m;
    assert multiset(Slice(g))[e] > 0;
    assert row in multiset(topP);
    assert RowMovie(row) == m;
    assert row in topP;
  }
}
