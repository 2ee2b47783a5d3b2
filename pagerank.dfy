// The bookkeeping around the personalized PageRank call of order_movies_by_pagerank
// (SemanticBot/utils.py): the node set, the preference list, the personalization weights
// and the ordering of the movies by their scores. The PageRank iteration itself is an
// opaque function of the node set and the personalization.

module PageRankShell {
  import opened Collections
  import opened Sorting
  import opened Facts
  import opened Counting

  function DigitChar(d: nat): char
    requires d < 10
  {
    "0123456789"[d]
  }

  /** `str(n)` for a natural number: its decimal digits, most significant first. */
  function NatToString(n: nat): (s: string)
    ensures |s| >= 1
    ensures forall i :: 0 <= i < |s| ==> '0' <= s[i] <= '9'
    decreases n
  {
    if n < 10 then [DigitChar(n)] else NatToString(n / 10) + [DigitChar(n % 10)]
  }

  /** A single digit is written exactly for the numbers below ten. */
  lemma NatToStringShort(n: nat)
    ensures |NatToString(n)| == 1 <==> n < 10
  {
    if n >= 10 {
      assert |NatToString(n / 10)| >= 1;
    }
  }

  /** Different numbers have different decimal strings. */
  lemma {:induction false} NatToStringInjective(a: nat, b: nat)
    requires NatToString(a) == NatToString(b)
    ensures a == b
    decreases a
  {
    NatToStringShort(a);
    NatToStringShort(b);
    if a < 10 {
      DigitCharInjective(a, b);
    } else {
      var pa, pb := NatToString(a / 10), NatToString(b / 10);
      var s := NatToString(a);
      assert s == pa + [DigitChar(a % 10)] && s == pb + [DigitChar(b % 10)];
      assert pa == s[..|s| - 1] == pb;
      NatToStringInjective(a / 10, b / 10);
      DigitCharInjective(a % 10, b % 10);
    }
  }

  /** The ten digits are different characters. */
  lemma DigitCharInjective(d: nat, e: nat)
    requires d < 10 && e < 10 && DigitChar(d) == DigitChar(e)
    ensures d == e
  {
  }

  /** `str(m)` for any integer: a minus sign before the digits of a negative number. */
  function IntToString(m: int): (s: string)
    ensures |s| >= 1
  {
    if m < 0 then "-" + NatToString(-m) else NatToString(m)
  }

  /** The string starts with a minus sign exactly when the number is negative. */
  lemma IntToStringSign(m: int)
    ensures IntToString(m)[0] == '-' <==> m < 0
  {
    if m >= 0 {
      assert IntToString(m)[0] == NatToString(m)[0];
    }
  }

  /** Different integers have different strings. */
  lemma IntToStringInjective(a: int, b: int)
    requires IntToString(a) == IntToString(b)
    ensures a == b
  {
    IntToStringSign(a);
    IntToStringSign(b);
    if a < 0 {
      var s := IntToString(a);
      assert NatToString(-a) == s[1..] == NatToString(-b);
      NatToStringInjective(-a, -b);
    } else {
      NatToStringInjective(a, b);
    }
  }

  /** `'M' + str(m)`: the graph node of a movie. */
  function MovieCode(m: int): (code: string)
    ensures |code| >= 2 && code[0] == 'M'
  {
    "M" + IntToString(m)
  }

  /** Different movies are different nodes of the PageRank graph. */
  lemma MovieCodeInjective(a: int, b: int)
    requires MovieCode(a) == MovieCode(b)
    ensures a == b
  {
    var c := MovieCode(a);
    assert IntToString(a) == c[1..] == IntToString(b);
    IntToStringInjective(a, b);
  }

  /** An edge of the user/movie edge list: (origin, destination). */
  type Edge = (string, string)

  /** The nodes of `nx.from_pandas_edgelist` over the edge list followed by one edge
      (movie code, obj_code) per row of the graph. */
  function GraphNodes(edgelist: seq<Edge>, subGraph: seq<Fact>): set<string> {
    (set e | e in edgelist :: e.0) + (set e | e in edgelist :: e.1)
    + (set x | x in subGraph :: MovieCode(x.movie)) + (set x | x in subGraph :: x.objCode)
  }

  /** Every movie of the graph is a node of the PageRank graph. */
  lemma MovieCodesAreNodes(edgelist: seq<Edge>, subGraph: seq<Fact>)
    ensures forall m :: m in MovieIds(subGraph) ==> MovieCode(m) in GraphNodes(edgelist, subGraph)
  {
    forall m | m in MovieIds(subGraph) ensures MovieCode(m) in GraphNodes(edgelist, subGraph) {
      var x :| x in subGraph && x.movie == m;
      assert MovieCode(x.movie) in (set y | y in subGraph :: MovieCode(y.movie));
    }
  }

  /** `['M' + str(x) for x in watched]`. */
  function MovieCodes(watched: seq<int>): (codes: seq<string>)
    ensures |codes| == |watched|
    ensures forall i :: 0 <= i < |watched| ==> codes[i] == MovieCode(watched[i])
  {
    seq(|watched|, i requires 0 <= i < |watched| => MovieCode(watched[i]))
  }

  /** The preference list, or None when the personalization is switched off. */
  function Preferences(watched: seq<int>, objects: seq<string>, useObjs: bool): Option<seq<string>> {
    if !useObjs && |watched| == 0 then None
    else if useObjs then Some(MovieCodes(watched) + objects)
    else Some(MovieCodes(watched))
  }

  /** The weight a node receives: `weight_vec[0] / len(preferences)` for a preference,
      `weight_vec[1] / (number_of_nodes - len(preferences))` for every other node. */
  function NodeWeight(node: string, prefs: seq<string>, nodeCount: nat, weightVec: (real, real)): real
    requires |prefs| != 0 && nodeCount != |prefs|
  {
    if node in prefs then weightVec.0 / |prefs| as real
    else weightVec.1 / (nodeCount - |prefs|) as real
  }

  /** Whether building the personalization divides by zero. */
  predicate DividesByZero(nodes: set<string>, preferences: Option<seq<string>>) {
    preferences.Some? && (|preferences.value| == 0 || |nodes| == |preferences.value|)
  }

  /** The personalization handed to PageRank: none without preferences, otherwise each
      node's weight. */
  function Personalization(nodes: set<string>, preferences: Option<seq<string>>, weightVec: (real, real))
    : Option<map<string, real>>
    requires !DividesByZero(nodes, preferences)
  {
    if preferences.None? then None
    else Some(map n | n in nodes :: NodeWeight(n, preferences.value, |nodes|, weightVec))
  }

  /** The personalization dictionary, filled node by node (exact arithmetic in place of
      floating point). With preferences present, an empty preference list or as many
      preferences as nodes is a division by zero. */
  method Personalize(nodes: set<string>, preferences: Option<seq<string>>, weightVec: (real, real))
    returns (r: Result<Option<map<string, real>>>)
    ensures r.Err? <==> DividesByZero(nodes, preferences)
    ensures r.Err? ==> r.error == ZeroDivisionError
    ensures r.Ok? && preferences.None? ==> r.value.None?
    ensures r.Ok? && preferences.Some? ==>
      && r.value.Some?
      && r.value.value.Keys == nodes
      && forall n :: n in nodes ==> r.value.value[n] == NodeWeight(n, preferences.value, |nodes|, weightVec)
    ensures r.Ok? ==> r.value == Personalization(nodes, preferences, weightVec)
  {
    if preferences.None? {
      return Ok(None);
    }
    var prefs := preferences.value;
    if |prefs| == 0 {
      return Err(ZeroDivisionError);
    }
    var valueWatched := weightVec.0 / |prefs| as real;
    if |nodes| - |prefs| == 0 {
      return Err(ZeroDivisionError);
    }
    var valueAll := weightVec.1 / (|nodes| - |prefs|) as real;
    var personalization: map<string, real> := map[];
    var rest := nodes;
    while rest != {}
      invariant rest <= nodes
      invariant personalization.Keys == nodes - rest
      invariant forall n :: n in personalization ==> personalization[n] == NodeWeight(n, prefs, |nodes|, weightVec)
      decreases rest
    {
      var node :| node in rest;
      if node in prefs {
        personalization := personalization[node := valueWatched];
      } else {
        personalization := personalization[node := valueAll];
      }
      rest := rest - {node};
    }
    WeightsMap(personalization, nodes, prefs, weightVec);
    return Ok(Some(personalization));
  }

  /** A map over the nodes that holds each node's weight is the personalization map. */
  lemma WeightsMap(m: map<string, real>, nodes: set<string>, prefs: seq<string>, weightVec: (real, real))
    requires |prefs| != 0 && |nodes| != |prefs|
    requires m.Keys == nodes
    requires forall n :: n in m ==> m[n] == NodeWeight(n, prefs, |nodes|, weightVec)
    ensures m == map n | n in nodes :: NodeWeight(n, prefs, |nodes|, weightVec)
  {
  }

  /** The ordering step: each movie of the graph once, valued by its PageRank score, highest
      first; a movie whose code has no score is a KeyError. */
  method RankByScore(subGraph: seq<Fact>, pr: map<string, real>) returns (r: Result<seq<MovieValue>>)
    ensures r.Err? <==> exists m :: m in MovieIds(subGraph) && MovieCode(m) !in pr
    ensures r.Err? ==> r.error == KeyError
    ensures r.Ok? ==>
      && SortedBy(r.value, ByValueDesc)
      && Distinct(RankedMovies(r.value))
      && (forall m :: m in RankedMovies(r.value) <==> m in MovieIds(subGraph))
      && forall i :: 0 <= i < |r.value| ==>
           MovieCode(r.value[i].movie) in pr && r.value[i].value == pr[MovieCode(r.value[i].movie)]
  {
    var ids := UniqueMovies(subGraph);
    var scored := ScoreEach(ids, pr);
    if scored.Err? {
      return Err(KeyError);
    }
    var values := scored.value;
    assert RankedMovies(values) == ids;
    var ordered := SortBy(values, ByValueDesc);
    ScoresKept(values, ordered, pr);
    SortedRankingDistinct(values, ordered);
    forall m | m in MovieIds(subGraph) ensures MovieCode(m) in pr {
      assert m in ids;
    }
    return Ok(ordered);
  }

  /** `ordered_movies.at[m] = pr_np[movie_code]` for each movie in turn: KeyError at the
      first movie whose node has no score. */
  method ScoreEach(ids: seq<int>, pr: map<string, real>) returns (r: Result<seq<MovieValue>>)
    ensures r.Err? <==> exists i :: 0 <= i < |ids| && MovieCode(ids[i]) !in pr
    ensures r.Err? ==> r.error == KeyError
    ensures r.Ok? ==> |r.value| == |ids| && forall i :: 0 <= i < |ids| ==>
      MovieCode(ids[i]) in pr && r.value[i] == MovieValue(ids[i], pr[MovieCode(ids[i])])
  {
    var values: seq<MovieValue> := [];
    for k := 0 to |ids|
      invariant |values| == k
      invariant forall i :: 0 <= i < k ==>
        MovieCode(ids[i]) in pr && values[i] == MovieValue(ids[i], pr[MovieCode(ids[i])])
    {
      var code := MovieCode(ids[k]);
      if code !in pr {
        return Err(KeyError);
      }
      values := values + [MovieValue(ids[k], pr[code])];
    }
    return Ok(values);
  }

  /** Reordering scored movies keeps each one's score. */
  lemma ScoresKept(values: seq<MovieValue>, ordered: seq<MovieValue>, pr: map<string, real>)
    requires multiset(ordered) == multiset(values)
    requires forall i :: 0 <= i < |values| ==>
      MovieCode(values[i].movie) in pr && values[i].value == pr[MovieCode(values[i].movie)]
    ensures forall i :: 0 <= i < |ordered| ==>
      MovieCode(ordered[i].movie) in pr && ordered[i].value == pr[MovieCode(ordered[i].movie)]
  {
    forall i | 0 <= i < |ordered|
      ensures MovieCode(ordered[i].movie) in pr && ordered[i].value == pr[MovieCode(ordered[i].movie)]
    {
      assert ordered[i] in multiset(values);
    }
  }

  /** order_movies_by_pagerank: personalization, PageRank over the whole node set, then the
      ordering by score. The personalization can divide by zero, and the power iteration can
      fail to converge (`pagerank` then returns None); a converged run scores every node. */
  method OrderMoviesByPagerank(subGraph: seq<Fact>, edgelist: seq<Edge>, watched: seq<int>,
                               objects: seq<string>, weightVec: (real, real), useObjs: bool,
                               pagerank: (set<string>, Option<map<string, real>>) -> Option<map<string, real>>)
    returns (r: Result<seq<MovieValue>>)
    requires forall ns, p :: pagerank(ns, p).Some? ==> pagerank(ns, p).value.Keys == ns
    ensures var nodes, prefs := GraphNodes(edgelist, subGraph), Preferences(watched, objects, useObjs);
      r.Err? <==> DividesByZero(nodes, prefs) || pagerank(nodes, Personalization(nodes, prefs, weightVec)).None?
    ensures r.Err? ==>
      r.error == if DividesByZero(GraphNodes(edgelist, subGraph), Preferences(watched, objects, useObjs))
                 then ZeroDivisionError else PowerIterationFailedConvergence
    ensures r.Ok? ==>
      && SortedBy(r.value, ByValueDesc)
      && Distinct(RankedMovies(r.value))
      && forall m :: m in RankedMovies(r.value) <==> m in MovieIds(subGraph)
    ensures r.Ok? ==>
      var nodes, prefs := GraphNodes(edgelist, subGraph), Preferences(watched, objects, useObjs);
      && !DividesByZero(nodes, prefs)
      && var pr := pagerank(nodes, Personalization(nodes, prefs, weightVec));
      && pr.Some?
      && forall i :: 0 <= i < |r.value| ==>
           MovieCode(r.value[i].movie) in pr.value && r.value[i].value == pr.value[MovieCode(r.value[i].movie)]
  {
    var nodes := GraphNodes(edgelist, subGraph);
    var personalization := Personalize(nodes, Preferences(watched, objects, useObjs), weightVec);
    if personalization.Err? {
      return Err(personalization.error);
    }
    var pr := pagerank(nodes, personalization.value);
    if pr.None? {
      return Err(PowerIterationFailedConvergence);
    }
    MovieCodesAreNodes(edgelist, subGraph);
    r := RankByScore(subGraph, pr.value);
  }
}
