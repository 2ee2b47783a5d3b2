// order_props (SemanticBot/utils.py; main.py's version is the same with no liked pairs):
// the (prop, obj) slice is regrouped property by property, each entry gets the count of its
// obj within its property, a score from opaque z-scores, loses its row when its obj is a
// liked value, and the rows are sorted by score, highest first.

module PropRanking {
  import opened Collections
  import opened Sorting
  import opened Facts
  import opened Popularity

  /** A row of `sub_graph[['prop', 'obj']]`, with the movie index kept. */
  datatype Entry = Entry(movie: int, prop: string, obj: string)

  function Slice(g: seq<Fact>): (s: seq<Entry>)
    ensures |s| == |g|
    ensures forall i :: 0 <= i < |g| ==> s[i] == Entry(g[i].movie, g[i].prop, g[i].obj)
  {
    seq(|g|, i requires 0 <= i < |g| => Entry(g[i].movie, g[i].prop, g[i].obj))
  }

  /** `sub_slice[sub_slice['prop'] == p]`. */
  function PropGroup(s: seq<Entry>, p: string): seq<Entry> {
    Filter(s, (e: Entry) => e.prop == p)
  }

  /** `groupby('obj').transform('count')` inside one property's group. */
  function ObjCount(group: seq<Entry>, o: string): nat {
    |Filter(group, (e: Entry) => e.obj == o)|
  }

  /** The concatenation of the property groups, in the order of `ps`. */
  function Grouped(s: seq<Entry>, ps: seq<string>): seq<Entry>
    decreases |ps|
  {
    if ps == [] then [] else Grouped(s, ps[..|ps| - 1]) + PropGroup(s, ps[|ps| - 1])
  }

  /** Concatenating the groups of distinct properties holds each entry of those properties
      exactly as often as the slice does, and nothing else. */
  lemma {:induction false} GroupedMultiset(s: seq<Entry>, ps: seq<string>)
    requires Distinct(ps)
    ensures forall e :: multiset(Grouped(s, ps))[e] == if e.prop in ps then multiset(s)[e] else 0
    decreases |ps|
  {
    if ps != [] {
      var init := ps[..|ps| - 1];
      var p := ps[|ps| - 1];
      assert Distinct(init);
      GroupedMultiset(s, init);
      assert ps == init + [p];
      assert p !in init;
      forall e ensures multiset(Grouped(s, ps))[e] == if e.prop in ps then multiset(s)[e] else 0 {
        assert multiset(PropGroup(s, p))[e] == if e.prop == p then multiset(s)[e] else 0;
        assert e.prop in ps <==> e.prop in init || e.prop == p;
      }
    }
  }

  /** The groups over all the graph's properties are a rearrangement of the slice. */
  lemma GroupedPermutation(g: seq<Fact>)
    ensures multiset(Grouped(Slice(g), UniqueProps(g))) == multiset(Slice(g))
  {
    var s := Slice(g);
    var ps := UniqueProps(g);
    GroupedMultiset(s, ps);
    forall e ensures multiset(Grouped(s, ps))[e] == multiset(s)[e] {
      if e in s {
        var i :| 0 <= i < |s| && s[i] == e;
        assert g[i] in g;
      }
    }
  }

  /** The count column: the slice regrouped property by property, each entry paired with the
      number of entries of its property that share its obj. */
  method CountColumn(s: seq<Entry>, props: seq<string>) returns (counted: seq<(Entry, nat)>)
    ensures |counted| == |Grouped(s, props)|
    ensures forall i :: 0 <= i < |counted| ==>
              && counted[i].0 == Grouped(s, props)[i]
              && counted[i].1 == ObjCount(PropGroup(s, counted[i].0.prop), counted[i].0.obj)
  {
    counted := [];
    for k := 0 to |props|
      invariant |counted| == |Grouped(s, props[..k])|
      invariant forall i :: 0 <= i < |counted| ==>
                  && counted[i].0 == Grouped(s, props[..k])[i]
                  && counted[i].1 == ObjCount(PropGroup(s, counted[i].0.prop), counted[i].0.obj)
    {
      var group := PropGroup(s, props[k]);
      var withCount := seq(|group|, j requires 0 <= j < |group| => (group[j], ObjCount(group, group[j].obj)));
      forall j | 0 <= j < |group| ensures group[j].prop == props[k] {
        assert group[j] in group;
      }
      assert props[..k + 1][..k] == props[..k];
      assert Grouped(s, props[..k + 1]) == Grouped(s, props[..k]) + group;
      counted := counted + withCount;
    }
    assert props[..|props|] == props;
  }

  /** A (prop, obj) key of the global z-score table. */
  type Key = (string, string)

  /** The opaque numeric inputs of the score: the global z-score of each (prop, obj), the
      z-score of each property's entropy, the local z-score of a count within a property,
      and the three weights. */
  datatype Scores = Scores(globalZ: map<Key, real>, entropyZ: string -> real,
                           localZ: (string, nat) -> real, weights: (real, real, real))

  datatype PropRow = PropRow(movie: int, prop: string, obj: string, count: nat, value: real)

  /** The weighted sum of the three z-scores (exact arithmetic in place of floating point). */
  function Value(sc: Scores, e: Entry, count: nat): real
    requires (e.prop, e.obj) in sc.globalZ
  {
    sc.weights.0 * sc.entropyZ(e.prop) + sc.weights.1 * sc.localZ(e.prop, count)
    + sc.weights.2 * sc.globalZ[(e.prop, e.obj)]
  }

  /** The row an entry of the slice `s` becomes. */
  function RowFor(s: seq<Entry>, sc: Scores, e: Entry): PropRow
    requires (e.prop, e.obj) in sc.globalZ
  {
    var count := ObjCount(PropGroup(s, e.prop), e.obj);
    PropRow(e.movie, e.prop, e.obj, count, Value(sc, e, count))
  }

  /** The global z-score lookup of every row, then the score: a missing key is a KeyError. */
  method ScoreRows(s: seq<Entry>, counted: seq<(Entry, nat)>, sc: Scores) returns (r: Result<seq<PropRow>>)
    requires forall i :: 0 <= i < |counted| ==>
               counted[i].1 == ObjCount(PropGroup(s, counted[i].0.prop), counted[i].0.obj)
    ensures r.Err? <==> exists i :: 0 <= i < |counted| && (counted[i].0.prop, counted[i].0.obj) !in sc.globalZ
    ensures r.Err? ==> r.error == KeyError
    ensures r.Ok? ==> |r.value| == |counted|
    ensures r.Ok? ==> forall i :: 0 <= i < |counted| ==>
              (counted[i].0.prop, counted[i].0.obj) in sc.globalZ && r.value[i] == RowFor(s, sc, counted[i].0)
  {
    var rows: seq<PropRow> := [];
    for k := 0 to |counted|
      invariant |rows| == k
      invariant forall i :: 0 <= i < k ==>
                  (counted[i].0.prop, counted[i].0.obj) in sc.globalZ && rows[i] == RowFor(s, sc, counted[i].0)
    {
      var e := counted[k].0;
      if (e.prop, e.obj) !in sc.globalZ {
        return Err(KeyError);
      }
      rows := rows + [PropRow(e.movie, e.prop, e.obj, counted[k].1, Value(sc, e, counted[k].1))];
    }
    return Ok(rows);
  }

  /** Whether some liked pair has `obj` as its value, whatever its property. */
  predicate Liked(obj: string, properties: seq<Key>) {
    exists t :: t in properties && t.1 == obj
  }

  /** The favourites loop: one filter per liked pair, each removing the rows whose obj is
      that pair's value. */
  method DropFavourites(rows: seq<PropRow>, properties: seq<Key>) returns (kept: seq<PropRow>)
    ensures forall row :: multiset(kept)[row] == if Liked(row.obj, properties) then 0 else multiset(rows)[row]
  {
    kept := rows;
    for k := 0 to |properties|
      invariant forall row :: multiset(kept)[row] == if Liked(row.obj, properties[..k]) then 0 else multiset(rows)[row]
    {
      var t := properties[k];
      kept := Filter(kept, (row: PropRow) => row.obj != t.1);
      assert properties[..k + 1] == properties[..k] + [t];
      forall row ensures multiset(kept)[row] ==
                         if Liked(row.obj, properties[..k + 1]) then 0 else multiset(rows)[row]
      {
        assert Liked(row.obj, properties[..k + 1]) <==> Liked(row.obj, properties[..k]) || row.obj == t.1;
      }
    }
    assert properties[..|properties|] == properties;
  }

  /** `sort_values(by=['value'], ascending=False)` order. */
  function ByScoreDesc(a: PropRow, b: PropRow): bool {
    a.value >= b.value
  }

  /** Mapping entries to their rows counts each row as often as its entry. */
  lemma {:induction false} RowCount(s: seq<Entry>, sc: Scores, es: seq<Entry>, rows: seq<PropRow>, e: Entry)
    requires (e.prop, e.obj) in sc.globalZ
    requires |rows| == |es|
    requires forall i :: 0 <= i < |es| ==> (es[i].prop, es[i].obj) in sc.globalZ && rows[i] == RowFor(s, sc, es[i])
    ensures multiset(rows)[RowFor(s, sc, e)] == multiset(es)[e]
    decreases |es|
  {
    if es != [] {
      var n := |es| - 1;
      RowCount(s, sc, es[..n], rows[..n], e);
      assert es == es[..n] + [es[n]];
      assert rows == rows[..n] + [rows[n]];
      assert rows[n] == RowFor(s, sc, e) <==> es[n] == e;
    }
  }

  /** The key of every entry of the groups is present exactly when that of every row of
      the graph is. */
  lemma GroupedKeys(g: seq<Fact>, sc: Scores)
    ensures (forall e :: e in Grouped(Slice(g), UniqueProps(g)) ==> (e.prop, e.obj) in sc.globalZ)
            <==> (forall x :: x in g ==> (x.prop, x.obj) in sc.globalZ)
  {
    var s := Slice(g);
    GroupedPermutation(g);
    var grouped := Grouped(s, UniqueProps(g));
    if forall e :: e in grouped ==> (e.prop, e.obj) in sc.globalZ {
      forall x | x in g ensures (x.prop, x.obj) in sc.globalZ {
        var i :| 0 <= i < |g| && g[i] == x;
        assert s[i] in multiset(grouped);
      }
    }
    if forall x :: x in g ==> (x.prop, x.obj) in sc.globalZ {
      forall e | e in grouped ensures (e.prop, e.obj) in sc.globalZ {
        assert e in multiset(s);
        var i :| 0 <= i < |s| && s[i] == e;
        assert g[i] in g;
      }
    }
  }

  /** The property ranking of a graph whose pairs all have a global z-score: every entry
      of the graph whose obj is not a liked value becomes its row, as many times as it
      occurs, no other row appears, and the rows are sorted by non-increasing score. */
  ghost predicate RankedProps(subGraph: seq<Fact>, sc: Scores, properties: seq<Key>, rows: seq<PropRow>) {
    && (forall e :: e in Slice(subGraph) ==> (e.prop, e.obj) in sc.globalZ)
    && SortedBy(rows, ByScoreDesc)
    && (forall row :: row in rows ==>
          && !Liked(row.obj, properties)
          && exists e :: e in Slice(subGraph) && (e.prop, e.obj) in sc.globalZ
                           && row == RowFor(Slice(subGraph), sc, e))
    && (forall e :: e in Slice(subGraph) ==>
          multiset(rows)[RowFor(Slice(subGraph), sc, e)] ==
            (if Liked(e.obj, properties) then 0 else multiset(Slice(subGraph))[e]))
  }

  /** order_props: KeyError exactly when some (prop, obj) of the graph has no global
      z-score; otherwise the ranked rows. */
  method OrderProps(subGraph: seq<Fact>, sc: Scores, properties: seq<Key>) returns (r: Result<seq<PropRow>>)
    ensures r.Err? <==> exists x :: x in subGraph && (x.prop, x.obj) !in sc.globalZ
    ensures r.Err? ==> r.error == KeyError
    ensures r.Ok? ==> RankedProps(subGraph, sc, properties, r.value)
  {
    var s := Slice(subGraph);
    var props := UniqueProps(subGraph);
    var counted := CountColumn(s, props);
    var scored := ScoreRows(s, counted, sc);
    ScoredKeys(subGraph, sc, counted, scored);
    if scored.Err? {
      return Err(KeyError);
    }
    var kept := DropFavourites(scored.value, properties);
    var sorted := SortBy(kept, ByScoreDesc);
    GroupedPermutation(subGraph);
    RankedRows(s, sc, Grouped(s, props), scored.value, properties, kept, sorted);
    return Ok(sorted);
  }

  /** The lookups fail exactly when some row of the graph has no global z-score. */
  lemma ScoredKeys(g: seq<Fact>, sc: Scores, counted: seq<(Entry, nat)>, scored: Result<seq<PropRow>>)
    requires |counted| == |Grouped(Slice(g), UniqueProps(g))|
    requires forall i :: 0 <= i < |counted| ==> counted[i].0 == Grouped(Slice(g), UniqueProps(g))[i]
    requires scored.Err? <==> exists i :: 0 <= i < |counted| && (counted[i].0.prop, counted[i].0.obj) !in sc.globalZ
    ensures scored.Err? <==> exists x :: x in g && (x.prop, x.obj) !in sc.globalZ
    ensures scored.Ok? ==> forall e :: e in Slice(g) ==> (e.prop, e.obj) in sc.globalZ
  {
    var s := Slice(g);
    var grouped := Grouped(s, UniqueProps(g));
    GroupedPermutation(g);
    GroupedKeys(g, sc);
    if scored.Err? {
      var i :| 0 <= i < |counted| && (counted[i].0.prop, counted[i].0.obj) !in sc.globalZ;
      assert grouped[i] in grouped;
    } else {
      forall e | e in grouped ensures (e.prop, e.obj) in sc.globalZ {
        var i :| 0 <= i < |grouped| && grouped[i] == e;
      }
      forall e | e in s ensures (e.prop, e.obj) in sc.globalZ {
        assert e in multiset(grouped);
      }
    }
  }

  /** After the favourites filter and the sort, each entry of the slice whose obj is not
      liked is there as its row as often as in the slice, and every row is such a row. */
  lemma RankedRows(s: seq<Entry>, sc: Scores, grouped: seq<Entry>, rows: seq<PropRow>, properties: seq<Key>,
                   kept: seq<PropRow>, sorted: seq<PropRow>)
    requires multiset(grouped) == multiset(s)
    requires forall e :: e in s ==> (e.prop, e.obj) in sc.globalZ
    requires |rows| == |grouped|
    requires forall i :: 0 <= i < |grouped| ==>
               (grouped[i].prop, grouped[i].obj) in sc.globalZ && rows[i] == RowFor(s, sc, grouped[i])
    requires forall row :: multiset(kept)[row] == if Liked(row.obj, properties) then 0 else multiset(rows)[row]
    requires multiset(sorted) == multiset(kept)
    ensures forall row :: row in sorted ==>
              && !Liked(row.obj, properties)
              && exists e :: e in s && (e.prop, e.obj) in sc.globalZ && row == RowFor(s, sc, e)
    ensures forall e :: e in s ==>
              multiset(sorted)[RowFor(s, sc, e)] == (if Liked(e.obj, properties) then 0 else multiset(s)[e])
  {
    forall e | e in s
      ensures multiset(sorted)[RowFor(s, sc, e)] == (if Liked(e.obj, properties) then 0 else multiset(s)[e])
    {
      RowCount(s, sc, grouped, rows, e);
    }
    forall row | row in sorted
      ensures !Liked(row.obj, properties)
      ensures exists e :: e in s && (e.prop, e.obj) in sc.globalZ && row == RowFor(s, sc, e)
    {
      assert multiset(kept)[row] > 0;
      assert row in multiset(rows);
      var i :| 0 <= i < |rows| && rows[i] == row;
      assert grouped[i] in multiset(s);
    }
  }
}
