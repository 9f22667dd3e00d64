/** The record query layer of the catalog's route handlers: lookup by
    position (`/data/movie/:index`), lookup by identifier
    (`/data/search/id/result`) and case-insensitive search by title
    (`/data/search/title/result`), each over the dataset loaded at start-up
    and each ending in a rendered record, a 404 page with a fixed message,
    or (for a missing title) an exception. */
module Queries {
  import opened Wrappers
  import opened Text

  /** One record of the dataset. `website` is `None` when the field is
      absent from the record. */
  datatype Movie = Movie(id: int, title: string, website: Option<string>)

  /** The dataset: loaded once, never changed, indexed from zero. */
  type Dataset = seq<Movie>

  /** What a route renders: the record(s) found, the error page with its
      404 message, or the TypeError thrown before anything is rendered. */
  datatype Outcome<+T> = Found(value: T) | NotFound(message: string) | TypeError

  const IndexMissMessage: string := "Movie not found at this index"
  const IdMissMessage: string := "Movie not found"
  const TitleMissMessage: string := "No movies found with that title"

  // ---------------------------------------------------------------------
  // Lookup by position

  /** `moviesData[parseInt(req.params.index)]`. `index` is the parsed
      parameter, `None` when it parsed to NaN. Only an index inside the
      dataset finds a record; a negative one, one past the end and NaN all
      yield the 404 page. */
  function ByIndex(data: Dataset, index: Option<int>): (r: Outcome<Movie>)
    ensures r.Found? <==> index.Some? && 0 <= index.value < |data|
    ensures r.Found? ==> r.value == data[index.value]
    ensures !r.Found? ==> r == NotFound(IndexMissMessage)
  {
    match index
    case Some(i) =>
      if 0 <= i < |data| then Found(data[i]) else NotFound(IndexMissMessage)
    case None => NotFound(IndexMissMessage)
  }

  // ---------------------------------------------------------------------
  // Lookup by identifier

  /** Position `i` holds a record with identifier `id` and no earlier one
      does. */
  ghost predicate IsFirstWithId(data: Dataset, id: int, i: int) {
    0 <= i < |data| && data[i].id == id
    && forall j :: 0 <= j < i ==> data[j].id != id
  }

  /** The position `Array.prototype.find` stops at when it looks for `id`:
      the first match, or none. */
  function FirstIndexWithId(data: Dataset, id: int): (r: Option<nat>)
    ensures r.Some? ==> IsFirstWithId(data, id, r.value)
    ensures r.None? ==> forall i :: 0 <= i < |data| ==> data[i].id != id
  {
    if data == [] then None
    else if data[0].id == id then Some(0)
    else
      match FirstIndexWithId(data[1..], id)
      case None => None
      case Some(k) => Some(k + 1)
  }

  /** `moviesData.find(m => m.Movie_ID === parseInt(req.query.movieId))`.
      `movieId` is the parsed parameter, `None` for NaN, which is strictly
      equal to no identifier. */
  function ById(data: Dataset, movieId: Option<int>): (r: Outcome<Movie>)
    ensures r.Found? <==>
      movieId.Some? && exists i :: 0 <= i < |data| && data[i].id == movieId.value
    ensures r.Found? ==>
      movieId.Some? && exists i :: IsFirstWithId(data, movieId.value, i) && r.value == data[i]
    ensures !r.Found? ==> r == NotFound(IdMissMessage)
  {
    match movieId
    case None => NotFound(IdMissMessage)
    case Some(id) =>
      match FirstIndexWithId(data, id)
      case None => NotFound(IdMissMessage)
      case Some(k) => Found(data[k])
  }

  /** Only one position can be the first with a given identifier. */
  lemma FirstWithIdUnique(data: Dataset, id: int, i: int, j: int)
    requires IsFirstWithId(data, id, i) && IsFirstWithId(data, id, j)
    ensures i == j
  {
  }

  ghost predicate UniqueIds(data: Dataset) {
    forall i, j :: 0 <= i < j < |data| ==> data[i].id != data[j].id
  }

  /** When no two records share an identifier, looking a record up by its
      own identifier finds that very record. */
  lemma ByIdFindsOwnRecord(data: Dataset, i: int)
    requires UniqueIds(data) && 0 <= i < |data|
    ensures ById(data, Some(data[i].id)) == Found(data[i])
  {
    var r := ById(data, Some(data[i].id));
    assert r.Found?;
    var k :| IsFirstWithId(data, data[i].id, k) && r.value == data[k];
    assert IsFirstWithId(data, data[i].id, i);
    FirstWithIdUnique(data, data[i].id, i, k);
  }

  /** With duplicate identifiers the earlier record shadows the later one:
      the lookup answers with a record at or before the earlier position. */
  lemma ByIdShadowsLaterDuplicate(data: Dataset, i: int, j: int)
    requires 0 <= i < j < |data| && data[i].id == data[j].id
    ensures exists k :: 0 <= k <= i && ById(data, Some(data[j].id)) == Found(data[k])
  {
    var r := ById(data, Some(data[j].id));
    var k :| IsFirstWithId(data, data[j].id, k) && r.value == data[k];
    assert k <= i;
  }

  // ---------------------------------------------------------------------
  // Search by title

  /** The filter's test: the lower-cased title includes the lower-cased
      query. */
  predicate TitleMatches(m: Movie, loweredQuery: string) {
    Includes(Lower(m.title), loweredQuery)
  }

  /** `moviesData.filter(movie => movie.Title.toLowerCase().includes(q))`
      for an already lower-cased `q`. */
  function FilterByTitle(data: Dataset, loweredQuery: string): (r: Dataset)
    ensures |r| <= |data|
    ensures forall m :: m in r ==> m in data && TitleMatches(m, loweredQuery)
    ensures forall i :: 0 <= i < |data| && TitleMatches(data[i], loweredQuery) ==> data[i] in r
  {
    if data == [] then []
    else
      var rest := FilterByTitle(data[1..], loweredQuery);
      assert forall i :: 1 <= i < |data| ==> data[i] == data[1..][i - 1];
      if TitleMatches(data[0], loweredQuery) then [data[0]] + rest else rest
  }

  /** Positions `pos` strictly increase. */
  ghost predicate Increasing(pos: seq<int>) {
    forall k, l :: 0 <= k < l < |pos| ==> pos[k] < pos[l]
  }

  /** `r[k]` is the record at position `pos[k]`, for every `k`. */
  ghost predicate PicksAt(data: Dataset, r: Dataset, pos: seq<int>) {
    |pos| == |r| && forall k :: 0 <= k < |pos| ==> 0 <= pos[k] < |data| && r[k] == data[pos[k]]
  }

  /** A position is in `pos` iff the record there matches. */
  ghost predicate ExactlyMatching(data: Dataset, pos: seq<int>, loweredQuery: string) {
    forall i :: 0 <= i < |data| ==> (TitleMatches(data[i], loweredQuery) <==> i in pos)
  }

  /** `r` lists, in dataset order and once each, the records at exactly the
      positions whose title matches. */
  ghost predicate IsOrderedSelection(data: Dataset, r: Dataset, loweredQuery: string) {
    exists pos :: PicksAt(data, r, pos) && Increasing(pos) && ExactlyMatching(data, pos, loweredQuery)
  }

  /** Every position moved one place to the right. */
  function Shift(pos: seq<int>): seq<int> {
    seq(|pos|, k requires 0 <= k < |pos| => pos[k] + 1)
  }

  /** Positions picked from the tail, moved right by one, pick the same
      records from the whole dataset and never include position 0. */
  lemma ShiftPicks(data: Dataset, rest: Dataset, pos: seq<int>)
    requires |data| > 0 && PicksAt(data[1..], rest, pos)
    ensures PicksAt(data, rest, Shift(pos))
    ensures forall k :: 0 <= k < |pos| ==> 1 <= Shift(pos)[k]
  {
    var shifted := Shift(pos);
    forall k | 0 <= k < |pos| ensures 1 <= shifted[k] < |data| && rest[k] == data[shifted[k]] {
      assert data[1..][pos[k]] == data[pos[k] + 1];
    }
  }

  lemma ShiftIncreasing(pos: seq<int>)
    requires Increasing(pos)
    ensures Increasing(Shift(pos))
  {
    var shifted := Shift(pos);
    forall k, l | 0 <= k < l < |pos| ensures shifted[k] < shifted[l] {
      assert pos[k] < pos[l];
    }
  }

  /** Matching positions of the tail, moved right by one, are the matching
      positions of the whole dataset after position 0. */
  lemma ShiftMatching(data: Dataset, pos: seq<int>, loweredQuery: string)
    requires |data| > 0 && ExactlyMatching(data[1..], pos, loweredQuery)
    ensures forall i :: 1 <= i < |data| ==>
      (TitleMatches(data[i], loweredQuery) <==> i in Shift(pos))
  {
    var shifted := Shift(pos);
    forall i | 1 <= i < |data| ensures i in shifted <==> i - 1 in pos {
      if i - 1 in pos {
        var k :| 0 <= k < |pos| && pos[k] == i - 1;
        assert shifted[k] == i;
      }
    }
    assert forall i :: 1 <= i < |data| ==> data[i] == data[1..][i - 1];
  }

  /** Position 0 followed by the tail's positions shifted by one picks
      `[data[0]] + rest` from the whole dataset. */
  lemma KeepPicks(data: Dataset, rest: Dataset, pos: seq<int>)
    requires |data| > 0 && PicksAt(data[1..], rest, pos)
    ensures PicksAt(data, [data[0]] + rest, [0] + Shift(pos))
  {
    var shifted := Shift(pos);
    ShiftPicks(data, rest, pos);
    var all := [0] + shifted;
    var kept := [data[0]] + rest;
    forall k | 0 <= k < |all| ensures 0 <= all[k] < |data| && kept[k] == data[all[k]] {
      if k > 0 {
        assert all[k] == shifted[k - 1] && kept[k] == rest[k - 1];
      }
    }
  }

  /** Position 0 followed by increasing positive positions is increasing. */
  lemma KeepIncreasing(data: Dataset, rest: Dataset, pos: seq<int>)
    requires |data| > 0 && PicksAt(data[1..], rest, pos) && Increasing(pos)
    ensures Increasing([0] + Shift(pos))
  {
    var shifted := Shift(pos);
    ShiftPicks(data, rest, pos);
    ShiftIncreasing(pos);
    var all := [0] + shifted;
    forall k, l | 0 <= k < l < |all| ensures all[k] < all[l] {
      assert all[l] == shifted[l - 1];
      if k > 0 {
        assert all[k] == shifted[k - 1];
      }
    }
  }

  /** When the head matches, position 0 followed by the tail's matching
      positions shifted by one are exactly the matching positions. */
  lemma KeepMatching(data: Dataset, loweredQuery: string, pos: seq<int>)
    requires |data| > 0 && TitleMatches(data[0], loweredQuery)
    requires ExactlyMatching(data[1..], pos, loweredQuery)
    ensures ExactlyMatching(data, [0] + Shift(pos), loweredQuery)
  {
    var shifted := Shift(pos);
    ShiftMatching(data, pos, loweredQuery);
    var all := [0] + shifted;
    forall i | 0 <= i < |data| ensures TitleMatches(data[i], loweredQuery) <==> i in all {
      if i > 0 {
        assert i in all <==> i in shifted;
      }
    }
  }

  /** One step of the filter when the head does not match: the tail's
      selection shifted by one selects the same records. */
  lemma SelectionStepSkip(data: Dataset, loweredQuery: string, rest: Dataset, pos: seq<int>)
    requires |data| > 0 && !TitleMatches(data[0], loweredQuery)
    requires PicksAt(data[1..], rest, pos) && Increasing(pos)
    requires ExactlyMatching(data[1..], pos, loweredQuery)
    ensures PicksAt(data, rest, Shift(pos)) && Increasing(Shift(pos))
    ensures ExactlyMatching(data, Shift(pos), loweredQuery)
  {
    ShiftPicks(data, rest, pos);
    ShiftIncreasing(pos);
    ShiftMatching(data, pos, loweredQuery);
  }

  /** The filter keeps every matching record, drops every other one, and
      keeps dataset order. */
  lemma {:induction false} FilterIsOrderedSelection(data: Dataset, loweredQuery: string)
    ensures IsOrderedSelection(data, FilterByTitle(data, loweredQuery), loweredQuery)
  {
    if data == [] {
      var pos: seq<int> := [];
      assert PicksAt(data, FilterByTitle(data, loweredQuery), pos);
    } else {
      FilterIsOrderedSelection(data[1..], loweredQuery);
      var rest := FilterByTitle(data[1..], loweredQuery);
      var pos :| PicksAt(data[1..], rest, pos) && Increasing(pos)
        && ExactlyMatching(data[1..], pos, loweredQuery);
      if TitleMatches(data[0], loweredQuery) {
        KeepPicks(data, rest, pos);
        KeepIncreasing(data, rest, pos);
        KeepMatching(data, loweredQuery, pos);
        assert ExactlyMatching(data, [0] + Shift(pos), loweredQuery);
      } else {
        SelectionStepSkip(data, loweredQuery, rest, pos);
        assert ExactlyMatching(data, Shift(pos), loweredQuery);
      }
    }
  }

  /** The title route: a missing `title` parameter throws at
      `.toLowerCase()`; otherwise a non-empty filter result is rendered and
      an empty one is the 404 page. */
  function SearchByTitle(data: Dataset, title: Option<string>): (r: Outcome<Dataset>)
    ensures title.None? <==> r == TypeError
    ensures title.Some? ==>
      (r.Found? <==> exists i :: 0 <= i < |data| && TitleMatches(data[i], Lower(title.value)))
    ensures r.Found? ==> |r.value| > 0 && IsOrderedSelection(data, r.value, Lower(title.value))
    ensures r.NotFound? ==> r.message == TitleMissMessage
  {
    match title
    case None => TypeError
    case Some(q) =>
      var results := FilterByTitle(data, Lower(q));
      FilterIsOrderedSelection(data, Lower(q));
      assert |results| > 0 ==> results[0] in data && TitleMatches(results[0], Lower(q));
      if |results| > 0 then Found(results) else NotFound(TitleMissMessage)
  }

  /** Search ignores letter case: two queries that differ only in the case
      of their letters render the same outcome. */
  lemma SearchIgnoresCase(data: Dataset, q1: string, q2: string)
    requires EqualIgnoringCase(q1, q2)
    ensures SearchByTitle(data, Some(q1)) == SearchByTitle(data, Some(q2))
  {
    LowerEqualIff(q1, q2);
  }

  /** When every record matches, the filter returns the dataset itself. */
  lemma {:induction false} FilterKeepsAllWhenAllMatch(data: Dataset, loweredQuery: string)
    requires forall m :: m in data ==> TitleMatches(m, loweredQuery)
    ensures FilterByTitle(data, loweredQuery) == data
  {
    if data != [] {
      FilterKeepsAllWhenAllMatch(data[1..], loweredQuery);
    }
  }

  /** The empty query matches every record: the whole dataset is rendered,
      and only an empty dataset gives the 404 page. */
  lemma EmptyQueryMatchesAll(data: Dataset)
    ensures FilterByTitle(data, Lower("")) == data
    ensures SearchByTitle(data, Some("")) ==
      if |data| > 0 then Found(data) else NotFound(TitleMissMessage)
  {
    assert Lower("") == "";
    forall m | m in data ensures TitleMatches(m, "") {
      IncludesEmpty(Lower(m.title));
    }
    FilterKeepsAllWhenAllMatch(data, "");
  }

  /** Refining a query never finds more: when the lower-cased longer query
      includes the shorter one, every record found by the longer query is
      found by the shorter one. */
  lemma NarrowerQueryFindsSubset(data: Dataset, shorter: string, longer: string, m: Movie)
    requires Includes(Lower(longer), Lower(shorter))
    requires m in FilterByTitle(data, Lower(longer))
    ensures m in FilterByTitle(data, Lower(shorter))
  {
    IncludesTransitive(Lower(m.title), Lower(longer), Lower(shorter));
    var i :| 0 <= i < |data| && data[i] == m;
  }

  // ---------------------------------------------------------------------
  // A worked example

  /** Three records: Alpha with an empty website, Beta with "N/A", Gamma
      with a real address. */
  function ExampleData(): Dataset {
    [ Movie(1, "Alpha", Some("")),
      Movie(2, "Beta", Some("N/A")),
      Movie(3, "Gamma", Some("http://g.example")) ]
  }

  lemma ExampleLookups()
    ensures ById(ExampleData(), Some(2)) == Found(ExampleData()[1])
    ensures ById(ExampleData(), None) == NotFound(IdMissMessage)
    ensures ByIndex(ExampleData(), Some(5)) == NotFound(IndexMissMessage)
    ensures ByIndex(ExampleData(), Some(-1)) == NotFound(IndexMissMessage)
  {
    assert IsFirstWithId(ExampleData(), 2, 1);
  }
}
