/**
 * The offline poster backfill: one pass over the dataset's rows, looking up a
 * poster for every row whose Poster_URL cell is null and writing back any
 * non-empty URL the lookup returns. The HTTP request and its JSON decoding are
 * an oracle `api`; what `fetch_poster_url` does with the decoded reply is modelled.
 */
module PosterBackfill {
  import opened Wrappers

  /**
   * One row of the dataset: title, year, the Poster_URL cell (None where it is
   * null) and every other column, kept as it is.
   */
  datatype Row = Row(movieName: string, year: int, poster: Option<string>, otherColumns: seq<string>)

  /**
   * What the request produced: an exception (network error, undecodable body, a
   * body that is not a JSON object), or a JSON object whose values are strings or null.
   */
  datatype Reply = Raised | Object(fields: map<string, Option<string>>)

  /** `data.get(key)`: None for a missing key as for a null value. */
  function Get(fields: map<string, Option<string>>, key: string): (v: Option<string>)
    ensures v.Some? ==> key in fields && fields[key] == v
    ensures key in fields ==> v == fields[key]
  {
    if key in fields then fields[key] else None
  }

  /** The reply announces success: its "Response" field is the string "True". */
  predicate Succeeded(reply: Reply)
  {
    reply.Object? && Get(reply.fields, "Response") == Some("True")
  }

  /** `fetch_poster_url` after the request: the "Poster" field of a successful reply, else None. */
  function FetchPosterUrl(reply: Reply): (url: Option<string>)
    ensures url.Some? ==> Succeeded(reply)
    ensures Succeeded(reply) ==> url == Get(reply.fields, "Poster")
  {
    match reply
    case Raised => None
    case Object(fields) => if Get(fields, "Response") == Some("True") then Get(fields, "Poster") else None
  }

  /** Python truthiness of the lookup's result: a non-empty string. */
  predicate Truthy(url: Option<string>)
  {
    url.Some? && url.value != ""
  }

  /**
   * The effect of the pass on one row: only a null Poster_URL cell can change, and
   * it receives the lookup's URL when that is a non-empty string.
   */
  function FillRow(r: Row, api: (string, int) -> Reply): (after: Row)
    ensures after.movieName == r.movieName && after.year == r.year && after.otherColumns == r.otherColumns
    ensures r.poster.Some? ==> after == r
    ensures after.poster.Some? ==> Truthy(after.poster) || after == r
    ensures r.poster.None? ==>
      (after.poster.Some? <==> Truthy(FetchPosterUrl(api(r.movieName, r.year))))
    ensures after.poster.Some? && r.poster.None? ==>
      after.poster == FetchPosterUrl(api(r.movieName, r.year))
  {
    if r.poster.None? then
      var url := FetchPosterUrl(api(r.movieName, r.year));
      if Truthy(url) then r.(poster := url) else r
    else r
  }

  /** The table after the pass has visited every row of `rows`, in order. */
  function Backfilled(rows: seq<Row>, api: (string, int) -> Reply): (after: seq<Row>)
    ensures |after| == |rows|
  {
    if rows == [] then []
    else Backfilled(rows[..|rows| - 1], api) + [FillRow(rows[|rows| - 1], api)]
  }

  /** The rows looked up by the pass over `rows`, in the order the lookups happen. */
  function Lookups(rows: seq<Row>): (looked: seq<nat>)
    ensures |looked| <= |rows|
    ensures forall k :: 0 <= k < |looked| ==> looked[k] < |rows|
  {
    if rows == [] then []
    else Lookups(rows[..|rows| - 1]) + (if rows[|rows| - 1].poster.None? then [|rows| - 1] else [])
  }

  ghost function NullRows(rows: seq<Row>): set<nat>
  {
    set i: nat | i < |rows| && rows[i].poster.None?
  }

  /** The loop of the backfill script: updates `table` in place, row by row. */
  method BackfillPosters(table: array<Row>, api: (string, int) -> Reply) returns (lookups: seq<nat>, sleeps: nat)
    modifies table
    ensures table[..] == Backfilled(old(table[..]), api)
    ensures lookups == Lookups(old(table[..]))
    ensures sleeps == |lookups|
  {
    ghost var rows := table[..];
    lookups, sleeps := [], 0;
    var i: nat := 0;
    while i < table.Length
      invariant i <= table.Length
      invariant table[..i] == Backfilled(rows[..i], api)
      invariant table[i..] == rows[i..]
      invariant lookups == Lookups(rows[..i])
      invariant sleeps == |lookups|
    {
      PrefixStep(rows, api, i);
      ghost var before := table[..];
      assert before[i] == rows[i];
      var row := table[i];
      if row.poster.None? {
        var url := FetchPosterUrl(api(row.movieName, row.year));
        lookups := lookups + [i];
        if Truthy(url) {
          table[i] := row.(poster := url);
        }
        sleeps := sleeps + 1;
      }
      assert table[..] == before[i := FillRow(rows[i], api)];
      assert table[..i + 1] == before[..i] + [FillRow(rows[i], api)];
      i := i + 1;
    }
    assert rows[..table.Length] == rows;
  }

  /** Extending the prefix by one row extends both the table and the lookups by that row's step. */
  lemma PrefixStep(rows: seq<Row>, api: (string, int) -> Reply, i: nat)
    requires i < |rows|
    ensures Backfilled(rows[..i + 1], api) == Backfilled(rows[..i], api) + [FillRow(rows[i], api)]
    ensures Lookups(rows[..i + 1]) == Lookups(rows[..i]) + (if rows[i].poster.None? then [i] else [])
  {
    assert rows[..i + 1][..i] == rows[..i];
  }

  /** Row k of the result is row k of the input after its own lookup, if any. */
  lemma {:induction false} BackfilledAt(rows: seq<Row>, api: (string, int) -> Reply, k: nat)
    requires k < |rows|
    ensures Backfilled(rows, api)[k] == FillRow(rows[k], api)
  {
    var n := |rows| - 1;
    if k < n {
      BackfilledAt(rows[..n], api, k);
    }
  }

  /**
   * What the pass changes: nothing but Poster_URL cells that were null, each
   * receiving its lookup's URL when that is a non-empty string.
   */
  lemma {:induction false} BackfillFrame(rows: seq<Row>, api: (string, int) -> Reply)
    ensures forall k :: 0 <= k < |rows| ==>
      var after := Backfilled(rows, api)[k];
      after.movieName == rows[k].movieName && after.year == rows[k].year &&
      after.otherColumns == rows[k].otherColumns
    ensures forall k :: 0 <= k < |rows| && rows[k].poster.Some? ==> Backfilled(rows, api)[k] == rows[k]
    ensures forall k :: 0 <= k < |rows| && rows[k].poster.None? ==>
      var url := FetchPosterUrl(api(rows[k].movieName, rows[k].year));
      Backfilled(rows, api)[k].poster == if Truthy(url) then url else None
  {
    forall k | 0 <= k < |rows| ensures Backfilled(rows, api)[k] == FillRow(rows[k], api) {
      BackfilledAt(rows, api, k);
    }
  }

  /** A stored poster is always the non-empty "Poster" field of a successful reply for that row. */
  lemma {:induction false} StoredPosterCameFromSuccess(rows: seq<Row>, api: (string, int) -> Reply, k: nat)
    requires k < |rows| && rows[k].poster.None?
    requires Backfilled(rows, api)[k].poster.Some?
    ensures var reply := api(rows[k].movieName, rows[k].year);
      Succeeded(reply) && Backfilled(rows, api)[k].poster == Get(reply.fields, "Poster") &&
      Backfilled(rows, api)[k].poster.value != ""
  {
    BackfilledAt(rows, api, k);
  }

  /** Lookups happen in ascending row order, each row at most once. */
  lemma {:induction false} LookupsAscending(rows: seq<Row>)
    ensures forall a, b :: 0 <= a < b < |Lookups(rows)| ==> Lookups(rows)[a] < Lookups(rows)[b]
  {
    if rows != [] {
      var n := |rows| - 1;
      var before := Lookups(rows[..n]);
      LookupsAscending(rows[..n]);
      if rows[n].poster.None? {
        var after := Lookups(rows);
        assert after == before + [n];
        forall a, b | 0 <= a < b < |after| ensures after[a] < after[b] {
          assert after[a] == before[a] && before[a] in before;
          if b < |before| { assert after[b] == before[b]; }
        }
      }
    }
  }

  /** A row is looked up exactly when its Poster_URL cell was null. */
  lemma {:induction false} LookupsAreNullRows(rows: seq<Row>)
    ensures forall j :: j in Lookups(rows) <==> 0 <= j < |rows| && rows[j].poster.None?
  {
    if rows != [] {
      var n := |rows| - 1;
      var init := rows[..n];
      LookupsAreNullRows(init);
      assert forall j :: 0 <= j < n ==> init[j] == rows[j];
      assert Lookups(rows) == Lookups(init) + (if rows[n].poster.None? then [n] else []);
    }
  }

  /** There are as many lookups, and so as many sleeps, as null Poster_URL cells. */
  lemma {:induction false} LookupCount(rows: seq<Row>)
    ensures |Lookups(rows)| == |NullRows(rows)|
  {
    if rows != [] {
      var n := |rows| - 1;
      var init := rows[..n];
      LookupCount(init);
      assert forall j :: 0 <= j < n ==> init[j] == rows[j];
      if rows[n].poster.None? {
        assert NullRows(rows) == NullRows(init) + {n};
      } else {
        assert NullRows(rows) == NullRows(init);
      }
    }
  }
}
