// The ingestion plumbing of WikidataIntegration/wikidata_integration.py that carries logic:
// `str.split("/")` and the segments taken from it, the mapping from query bindings to
// records, and the batch windows over the movie table. The SPARQL query is not modelled.

module Wikidata {
  import opened Facts
  import opened Collections

  /** The position of the first `c` in `s`. */
  function FirstIndex(s: string, c: char): (i: nat)
    requires c in s
    ensures i < |s| && s[i] == c
  {
    if s[0] == c then 0
    else
      assert c in s[1..] by {
        var k :| 0 <= k < |s| && s[k] == c;
        assert s[1..][k - 1] == c;
      }
      1 + FirstIndex(s[1..], c)
  }

  /** No `c` comes before the first one. */
  lemma {:induction false} FirstIndexFirst(s: string, c: char)
    requires c in s
    ensures c !in s[..FirstIndex(s, c)]
  {
    if s[0] != c {
      assert c in s[1..] by {
        var k :| 0 <= k < |s| && s[k] == c;
        assert s[1..][k - 1] == c;
      }
      FirstIndexFirst(s[1..], c);
      var i := FirstIndex(s, c);
      assert s[..i] == [s[0]] + s[1..][..i - 1];
    }
  }

  /** Python's `s.split(c)`: the pieces between the occurrences of `c`, never an empty list. */
  function Split(s: string, c: char): (parts: seq<string>)
    ensures |parts| >= 1
    decreases |s|
  {
    if c !in s then [s]
    else
      var i := FirstIndex(s, c);
      [s[..i]] + Split(s[i + 1..], c)
  }

  /** No piece of a split holds the separator. */
  lemma {:induction false} SplitPieces(s: string, c: char)
    ensures forall p :: p in Split(s, c) ==> c !in p
    decreases |s|
  {
    if c in s {
      var i := FirstIndex(s, c);
      FirstIndexFirst(s, c);
      SplitPieces(s[i + 1..], c);
      assert Split(s, c) == [s[..i]] + Split(s[i + 1..], c);
    }
  }

  /** `c.join(parts)`. */
  function Join(parts: seq<string>, c: char): string
    requires |parts| >= 1
    decreases |parts|
  {
    if |parts| == 1 then parts[0] else parts[0] + [c] + Join(parts[1..], c)
  }

  /** Splitting loses nothing: joining the pieces back gives the string. */
  lemma {:induction false} SplitJoin(s: string, c: char)
    ensures Join(Split(s, c), c) == s
    decreases |s|
  {
    if c in s {
      var i := FirstIndex(s, c);
      var head, tail := s[..i], s[i + 1..];
      var rest := Split(tail, c);
      assert Split(s, c) == [head] + rest;
      SplitJoin(tail, c);
      JoinCons(head, rest, c);
      Reassemble(s, i);
    }
  }

  /** A string is the part before position i, the element at i, and the part after. */
  lemma Reassemble(s: string, i: nat)
    requires i < |s|
    ensures s == s[..i] + [s[i]] + s[i + 1..]
  {
  }

  /** Joining a first piece in front of other pieces puts `c` between them. */
  lemma JoinCons(first: string, rest: seq<string>, c: char)
    requires |rest| >= 1
    ensures Join([first] + rest, c) == first + [c] + Join(rest, c)
  {
    assert ([first] + rest)[1..] == rest;
  }

  /** Joining pieces free of `c` and splitting again gives the pieces back. */
  lemma {:induction false} JoinSplit(parts: seq<string>, c: char)
    requires |parts| >= 1
    requires forall p :: p in parts ==> c !in p
    ensures Split(Join(parts, c), c) == parts
    decreases |parts|
  {
    if |parts| > 1 {
      var s := Join(parts, c);
      var rest := Join(parts[1..], c);
      JoinSplit(parts[1..], c);
      var n := |parts[0]|;
      assert s[n] == c;
      assert c in s;
      var i := FirstIndex(s, c);
      FirstIndexFirst(s, c);
      assert s[..n] == parts[0];
      assert parts[0] in parts;
      assert c !in s[..i];
      assert forall j :: 0 <= j < i ==> s[..i][j] == s[j];
      assert forall j :: 0 <= j < n ==> s[j] == parts[0][j];
      assert i == n;
      assert s[n + 1..] == rest;
    }
  }

  /** The join of several pieces ends with the last one, after a `c`. */
  lemma {:induction false} JoinLast(parts: seq<string>, c: char)
    requires |parts| >= 2
    ensures Join(parts, c) == Join(parts[..|parts| - 1], c) + [c] + parts[|parts| - 1]
    decreases |parts|
  {
    if |parts| > 2 {
      JoinLast(parts[1..], c);
      assert parts[1..][..|parts| - 2] == parts[..|parts| - 1][1..];
    }
  }

  /** `s.split(c)[-1]`. */
  function LastSegment(s: string, c: char): string {
    var parts := Split(s, c);
    parts[|parts| - 1]
  }

  /** `line["value"]["value"].split("/")[-1]`: the obj code of a value URI. */
  function ObjCode(uri: string): string {
    LastSegment(uri, '/')
  }

  /** The obj code is what follows the last '/' of the URI (the whole URI when it has none). */
  lemma ObjCodeIsTail(uri: string)
    ensures var code := ObjCode(uri);
      && '/' !in code
      && |code| <= |uri| && uri[|uri| - |code|..] == code
      && (|code| == |uri| || uri[|uri| - |code| - 1] == '/')
  {
    var parts := Split(uri, '/');
    var code := parts[|parts| - 1];
    assert ObjCode(uri) == code;
    assert '/' !in code by {
      assert code in parts;
      SplitPieces(uri, '/');
    }
    assert uri == Join(parts, '/') by {
      SplitJoin(uri, '/');
    }
    if |parts| >= 2 {
      JoinTail(parts, '/', uri);
    }
  }

  /** A join of several pieces ends with the last piece, preceded by `c`. */
  lemma JoinTail(parts: seq<string>, c: char, s: string)
    requires |parts| >= 2 && s == Join(parts, c)
    ensures var last := parts[|parts| - 1];
      |last| < |s| && s[|s| - |last|..] == last && s[|s| - |last| - 1] == c
  {
    JoinLast(parts, c);
    var front := Join(parts[..|parts| - 1], c) + [c];
    var last := parts[|parts| - 1];
    assert s == front + last;
    assert (front + last)[|front|..] == last;
    assert (front + last)[|front| - 1] == c;
  }

  /** `x.split("/")[-2]`: the IMDb id inside an IMDb link; a link without '/' has no such
      segment and raises IndexError. */
  function FullImdbId(link: string): Result<string> {
    var parts := Split(link, '/');
    if |parts| < 2 then Err(IndexError) else Ok(parts[|parts| - 2])
  }

  /** Whether `id` sits in `link` at position k as a whole '/'-separated piece that is
      followed by one more '/' and then by a last piece free of '/'. */
  predicate SecondToLastAt(link: string, id: string, k: nat) {
    && k + |id| < |link|
    && link[k..k + |id|] == id
    && link[k + |id|] == '/'
    && '/' !in link[k + |id| + 1..]
    && (k == 0 || link[k - 1] == '/')
  }

  /** The id exists exactly when the link has a '/'; it is then the '/'-free piece that
      ends right before the link's last '/' and starts after the '/' before it, if any. */
  lemma FullImdbIdIsSegment(link: string)
    ensures FullImdbId(link).Ok? <==> '/' in link
    ensures FullImdbId(link).Err? ==> FullImdbId(link).error == IndexError
    ensures FullImdbId(link).Ok? ==>
      && '/' !in FullImdbId(link).value
      && exists k :: SecondToLastAt(link, FullImdbId(link).value, k)
  {
    var parts := Split(link, '/');
    assert forall p :: p in parts ==> '/' !in p by {
      SplitPieces(link, '/');
    }
    if |parts| >= 2 {
      var n := |parts|;
      var init, last := parts[..n - 1], parts[n - 1];
      assert link == Join(init, '/') + ['/'] + last by {
        SplitJoin(link, '/');
        JoinLast(parts, '/');
      }
      assert '/' in link by {
        assert link[|Join(init, '/')|] == '/';
      }
      var k := SecondToLastStart(init, last);
      assert init[|init| - 1] == parts[n - 2];
    } else {
      assert '/' !in link by {
        SplitJoin(link, '/');
        assert link == parts[0];
      }
    }
  }

  /** Where the last of `init`'s pieces starts in `Join(init, '/') + "/" + last`. */
  lemma SecondToLastStart(init: seq<string>, last: string) returns (k: nat)
    requires |init| >= 1
    requires forall p :: p in init ==> '/' !in p
    requires '/' !in last
    ensures SecondToLastAt(Join(init, '/') + ['/'] + last, init[|init| - 1], k)
  {
    var link := Join(init, '/') + ['/'] + last;
    var id := init[|init| - 1];
    var head := Join(init, '/');
    if |init| >= 2 {
      JoinLast(init, '/');
      var front := Join(init[..|init| - 1], '/');
      assert head == front + ['/'] + id;
      k := |front| + 1;
    } else {
      k := 0;
    }
    assert link[k..k + |id|] == id;
    assert link[k + |id| + 1..] == last;
  }

  /** A row of the movie table: id, IMDb id, title, year and IMDb link (NaN = None). */
  datatype MovieRow = MovieRow(movieId: int, imdbId: string, title: string, year: int, imdbLink: Option<string>)

  /** Whether a movie row has an IMDb link (`notnull()`). */
  predicate HasLink(m: MovieRow) {
    m.imdbLink.Some?
  }

  /** The rows kept by `notnull()`, in table order, each paired with its full IMDb id; any
      kept link without '/' raises IndexError. */
  method PrepareMovies(movies: seq<MovieRow>) returns (r: Result<seq<(MovieRow, string)>>)
    ensures r.Err? <==> exists m :: m in movies && m.imdbLink.Some? && '/' !in m.imdbLink.value
    ensures r.Err? ==> r.error == IndexError
    ensures r.Ok? ==> |r.value| == |Filter(movies, HasLink)|
    ensures r.Ok? ==> forall i :: 0 <= i < |r.value| ==>
              && r.value[i].0 == Filter(movies, HasLink)[i]
              && r.value[i].0.imdbLink.Some?
              && FullImdbId(r.value[i].0.imdbLink.value) == Ok(r.value[i].1)
  {
    var kept: seq<(MovieRow, string)> := [];
    for k := 0 to |movies|
      invariant |kept| == |Filter(movies[..k], HasLink)|
      invariant forall m :: m in movies[..k] ==> (m.imdbLink.Some? ==> '/' in m.imdbLink.value)
      invariant forall i :: 0 <= i < |kept| ==>
                  && kept[i].0 == Filter(movies[..k], HasLink)[i]
                  && kept[i].0.imdbLink.Some?
                  && FullImdbId(kept[i].0.imdbLink.value) == Ok(kept[i].1)
    {
      var m := movies[k];
      assert movies[..k + 1] == movies[..k] + [m];
      FilterConcat(movies[..k], [m], HasLink);
      assert Filter([m], HasLink) == if HasLink(m) then [m] else [] by {
        assert [m][1..] == [];
      }
      if m.imdbLink.Some? {
        var link := m.imdbLink.value;
        var id := FullImdbId(link);
        assert id.Err? <==> '/' !in link by {
          FullImdbIdIsSegment(link);
        }
        if id.Err? {
          return Err(id.error);
        }
        kept := kept + [(m, id.value)];
      }
    }
    assert movies[..|movies|] == movies;
    return Ok(kept);
  }

  /** One binding of the query result: item label, property label, value label, value URI
      and IMDb id. */
  datatype Binding = Binding(itemLabel: string, propLabel: string, valueLabel: string, value: string, imdbId: string)

  datatype Record = Record(movieId: int, title: string, prop: string, obj: string, objCode: string, imdbId: string)

  /** results_to_dict: one record per binding, in binding order, its movie id looked up by
      IMDb id in the batch (a missing id raises KeyError). */
  method ResultsToDict(movieIds: map<string, int>, bindings: seq<Binding>) returns (r: Result<seq<Record>>)
    ensures r.Err? <==> exists b :: b in bindings && b.imdbId !in movieIds
    ensures r.Err? ==> r.error == KeyError
    ensures r.Ok? ==> |r.value| == |bindings|
    ensures r.Ok? ==> forall i :: 0 <= i < |bindings| ==>
              var b := bindings[i];
              && b.imdbId in movieIds
              && r.value[i] == Record(movieIds[b.imdbId], b.itemLabel, b.propLabel, b.valueLabel, ObjCode(b.value), b.imdbId)
  {
    var filterProps: seq<Record> := [];
    for k := 0 to |bindings|
      invariant |filterProps| == k
      invariant forall i :: 0 <= i < k ==>
                  var b := bindings[i];
                  && b.imdbId in movieIds
                  && filterProps[i] == Record(movieIds[b.imdbId], b.itemLabel, b.propLabel, b.valueLabel, ObjCode(b.value), b.imdbId)
    {
      var line := bindings[k];
      var mObjCode := ObjCode(line.value);
      if line.imdbId !in movieIds {
        return Err(KeyError);
      }
      filterProps := filterProps + [Record(movieIds[line.imdbId], line.itemLabel, line.propLabel, line.valueLabel, mObjCode, line.imdbId)];
    }
    return Ok(filterProps);
  }

  /** Where the k-th window ends: the first one is 350 wide, every later one 300. */
  function WindowEnd(k: nat): nat {
    350 + 300 * k
  }

  function WindowBegin(k: nat): nat {
    if k == 0 then 0 else WindowEnd(k - 1)
  }

  /** The batching loop: the windows `[begin, end)` fetched for a table of `total` movies.
      They tile the table from its start without gap or overlap, the first 350 wide and
      every later one 300, and fewer than 300 movies are left past the last one (all of
      them when the table has fewer than 350). */
  method BatchWindows(total: nat) returns (windows: seq<(nat, nat)>)
    ensures |windows| == if total < 350 then 0 else (total - 350) / 300 + 1
    ensures forall k :: 0 <= k < |windows| ==> windows[k] == (WindowBegin(k), WindowEnd(k))
    ensures forall k :: 0 <= k < |windows| ==> windows[k].1 <= total
    ensures WindowEnd(|windows|) > total
    ensures |windows| > 0 ==> windows[0] == (0, 350)
    ensures forall k :: 0 < k < |windows| ==> windows[k].0 == windows[k - 1].1 && windows[k].1 == windows[k].0 + 300
    ensures |windows| > 0 ==> total - windows[|windows| - 1].1 < 300
  {
    windows := [];
    var begin: nat := 0;
    var end: nat := 350;
    while end <= total
      invariant begin == WindowBegin(|windows|) && end == WindowEnd(|windows|)
      invariant forall k :: 0 <= k < |windows| ==> windows[k] == (WindowBegin(k), WindowEnd(k))
      invariant forall k :: 0 <= k < |windows| ==> windows[k].1 <= total
      invariant total >= 350 ==> |windows| <= (total - 350) / 300 + 1
      decreases total - end
    {
      windows := windows + [(begin, end)];
      begin := end;
      end := end + 300;
    }
    if total >= 350 {
      WindowCount(total, |windows|);
    }
  }

  /** The number of windows whose end fits, read off the first that does not. */
  lemma WindowCount(total: nat, n: nat)
    requires total >= 350
    requires WindowEnd(n) > total
    requires n <= (total - 350) / 300 + 1
    ensures n == (total - 350) / 300 + 1
  {
    var q := (total - 350) / 300;
    assert total - 350 == 300 * q + (total - 350) % 300;
    assert n <= q ==> WindowEnd(n) <= 350 + 300 * q;
  }
}
