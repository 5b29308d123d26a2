/**
 * The `post` table that the firehose subscription fills and the vibes algorithm rescores,
 * evicts and pages through. Its primary key is `uri`, so it is held as a map from uri to row.
 */
module Store {
  import opened Wrappers

  /** A row of `post`: scores are reals, times integer milliseconds since the epoch. */
  datatype Row = Row(uri: string, cid: string, firstIndexed: int, score: real, lastScored: int, mod: real)

  /** What getPostThread reports about a post: its like and repost counts, either possibly missing. */
  datatype PostView = PostView(likeCount: Option<nat>, repostCount: Option<nat>)

  /** A feed skeleton page: post uris and an optional cursor for the next page. */
  datatype FeedPage = FeedPage(feed: seq<string>, cursor: Option<string>)

  type Table = map<string, Row>

  /** Every row sits under its own uri (the primary key). */
  predicate KeyedByUri(t: Table) {
    forall u :: u in t ==> t[u].uri == u
  }

  /** The table invariant every operation keeps: keyed by uri, and no row scored before it was indexed. */
  predicate Consistent(t: Table) {
    forall u :: u in t ==> t[u].uri == u && t[u].firstIndexed <= t[u].lastScored
  }

  /** Row i is the first of rows with uri u. */
  predicate FirstWithUri(rows: seq<Row>, u: string, i: int) {
    0 <= i < |rows| && rows[i].uri == u && forall j :: 0 <= j < i ==> rows[j].uri != u
  }

  /** `DELETE FROM post WHERE uri IN uris`. */
  function WithoutUris(t: Table, uris: seq<string>): Table {
    t - (set u | u in uris)
  }

  /** The uris of a batch of rows. */
  function Uris(rows: seq<Row>): (us: set<string>)
    ensures forall i :: 0 <= i < |rows| ==> rows[i].uri in us
    ensures forall u :: u in us ==> exists i :: 0 <= i < |rows| && rows[i].uri == u
  {
    if rows == [] then {} else {rows[0].uri} + Uris(rows[1..])
  }

  /**
   * `INSERT INTO post VALUES rows ON CONFLICT DO NOTHING`: the rows go in one by one, and a row
   * whose uri is already present, in the table or earlier in the batch, is dropped.
   */
  function InsertOrIgnore(t: Table, rows: seq<Row>): (r: Table)
    ensures r.Keys == t.Keys + Uris(rows)
    ensures forall u :: u in t ==> r[u] == t[u]
    decreases |rows|
  {
    if rows == [] then t
    else InsertOrIgnore(if rows[0].uri in t then t else t[rows[0].uri := rows[0]], rows[1..])
  }

  /** A uri the table did not hold gets the first row of the batch that carries it. */
  lemma {:induction false} InsertOrIgnoreTakesFirst(t: Table, rows: seq<Row>, u: string)
    requires u in Uris(rows) && u !in t
    ensures exists i :: FirstWithUri(rows, u, i) && InsertOrIgnore(t, rows)[u] == rows[i]
    decreases |rows|
  {
    var t' := if rows[0].uri in t then t else t[rows[0].uri := rows[0]];
    if u == rows[0].uri {
      assert FirstWithUri(rows, u, 0);
    } else {
      InsertOrIgnoreTakesFirst(t', rows[1..], u);
      var i :| FirstWithUri(rows[1..], u, i) && InsertOrIgnore(t', rows[1..])[u] == rows[1..][i];
      assert FirstWithUri(rows, u, i + 1);
    }
  }

  /** Inserting rows that were not scored before they were indexed keeps the table consistent. */
  lemma InsertOrIgnoreKeepsConsistent(t: Table, rows: seq<Row>)
    requires Consistent(t)
    requires forall i :: 0 <= i < |rows| ==> rows[i].firstIndexed <= rows[i].lastScored
    ensures Consistent(InsertOrIgnore(t, rows))
  {
    var r := InsertOrIgnore(t, rows);
    forall u | u in r && u !in t
      ensures r[u].uri == u && r[u].firstIndexed <= r[u].lastScored
    {
      InsertOrIgnoreTakesFirst(t, rows, u);
    }
  }

  /** The `post` table of the database, changed in place by the statements the source issues. */
  class PostTable {
    var rows: Table

    ghost predicate Valid()
      reads this
    {
      Consistent(rows)
    }

    constructor ()
      ensures Valid() && rows == map[]
    {
      rows := map[];
    }

    method DeleteWhereUriIn(uris: seq<string>)
      requires Valid()
      modifies this
      ensures Valid()
      ensures rows == WithoutUris(old(rows), uris)
    {
      rows := WithoutUris(rows, uris);
    }

    method InsertOrIgnoreRows(newRows: seq<Row>)
      requires Valid()
      requires forall i :: 0 <= i < |newRows| ==> newRows[i].firstIndexed <= newRows[i].lastScored
      modifies this
      ensures Valid()
      ensures rows == InsertOrIgnore(old(rows), newRows)
    {
      InsertOrIgnoreKeepsConsistent(rows, newRows);
      rows := InsertOrIgnore(rows, newRows);
    }

    /**
     * `INSERT INTO post VALUES row ON CONFLICT DO UPDATE SET score, last_scored`: an existing row
     * keeps its other columns; a missing one is inserted whole.
     */
    method UpsertScore(row: Row, score: real, lastScored: int)
      requires Valid()
      requires row.uri in rows ==> rows[row.uri].firstIndexed <= lastScored
      requires row.uri !in rows ==> row.firstIndexed <= lastScored
      modifies this
      ensures Valid()
      ensures rows == if row.uri in old(rows)
                      then old(rows)[row.uri := old(rows)[row.uri].(score := score, lastScored := lastScored)]
                      else old(rows)[row.uri := row.(score := score, lastScored := lastScored)]
    {
      if row.uri in rows {
        rows := rows[row.uri := rows[row.uri].(score := score, lastScored := lastScored)];
      } else {
        rows := rows[row.uri := row.(score := score, lastScored := lastScored)];
      }
    }
  }
}
