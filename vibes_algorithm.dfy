/**
 * The "tech-vibes" algorithm: posts are scored by engagement decayed with age, rescored when
 * their score is older than six minutes, evicted when old and low-scoring, and served highest
 * score first, with the configured pinned posts in front.
 */
module VibesAlgorithm {
  import opened Wrappers
  import opened Text
  import opened Store
  import opened Ranking

  const MS_PER_HOUR: int := 3600000
  /** A row is rescored once its score is older than six minutes. */
  const MIN_DELAY: int := 360000
  /** Rows older than a day and a half may be evicted. */
  const ONE_AND_A_HALF_DAYS: int := 129600000
  /** ... when their score is below this. */
  const STALE_SCORE: real := 0.1

  // ---------------------------------------------------------------- scoring

  /** `Math.pow(x, n)` for a whole exponent n. */
  function Pow(x: real, n: nat): real {
    if n == 0 then 1.0 else x * Pow(x, n - 1)
  }

  lemma {:induction false} PowPositive(x: real, n: nat)
    requires x > 0.0
    ensures Pow(x, n) > 0.0
  {
    if n > 0 {
      PowPositive(x, n - 1);
      assert x * Pow(x, n - 1) > 0.0;
    }
  }

  lemma {:induction false} PowMonotonic(x: real, y: real, n: nat)
    requires 0.0 < x <= y
    ensures Pow(x, n) <= Pow(y, n)
  {
    if n > 0 {
      PowMonotonic(x, y, n - 1);
      PowPositive(x, n - 1);
      PowPositive(y, n - 1);
      assert x * Pow(x, n - 1) <= y * Pow(x, n - 1);
      assert Pow(x, n - 1) * y <= Pow(y, n - 1) * y;
    }
  }

  /** The square of a non-zero number is positive. */
  lemma SquarePositive(x: real)
    requires x != 0.0
    ensures Pow(x, 2) > 0.0
  {
    if x > 0.0 {
      PowPositive(x, 2);
    } else {
      assert Pow(x, 1) == x * 1.0;
      assert Pow(x, 2) == x * Pow(x, 1);
      assert x * (x * 1.0) > 0.0;
    }
  }

  /**
   * The Hacker News ranking: engagement over (age in hours + 2) squared. The score has the sign
   * of the engagement, and is zero exactly when the engagement is.
   */
  function CalculateScore(timeInHours: real, likes: real): (score: real)
    requires timeInHours != -2.0
    ensures score > 0.0 <==> likes > 0.0
    ensures score == 0.0 <==> likes == 0.0
  {
    SquarePositive(timeInHours + 2.0);
    var d := Pow(timeInHours + 2.0, 2);
    assert (likes / d) * d == likes;
    likes / d
  }

  /** The score times (age in hours + 2) squared gives back the engagement. */
  lemma ScoreTimesSquaredAge(timeInHours: real, likes: real)
    requires timeInHours != -2.0
    ensures CalculateScore(timeInHours, likes) * Pow(timeInHours + 2.0, 2) == likes
  {
    var d := Pow(timeInHours + 2.0, 2);
    SquarePositive(timeInHours + 2.0);
    var q := likes / d;
    assert q * d == likes;
  }

  /** With fixed non-negative engagement, an older post never scores higher. */
  lemma ScoreNonIncreasingWithAge(t1: real, t2: real, likes: real)
    requires -2.0 < t1 <= t2 && likes >= 0.0
    ensures CalculateScore(t2, likes) <= CalculateScore(t1, likes)
  {
    PowPositive(t1 + 2.0, 2);
    PowMonotonic(t1 + 2.0, t2 + 2.0, 2);
    var d1, d2 := Pow(t1 + 2.0, 2), Pow(t2 + 2.0, 2);
    assert (likes / d1) * d1 == likes;
    assert (likes / d2) * d2 == likes;
  }

  /** At a fixed age, more engagement never scores lower. */
  lemma ScoreNonDecreasingWithEngagement(t: real, likes1: real, likes2: real)
    requires t != -2.0 && likes1 <= likes2
    ensures CalculateScore(t, likes1) <= CalculateScore(t, likes2)
  {
    SquarePositive(t + 2.0);
    var d := Pow(t + 2.0, 2);
    assert (likes1 / d) * d == likes1;
    assert (likes2 / d) * d == likes2;
  }

  /** Hours from `since` to `now`. */
  function HoursSince(now: int, since: int): real {
    (now - since) as real / MS_PER_HOUR as real
  }

  /** A row's score from a fetched view: likes + reposts (a missing count is 0) + the row's modifier. */
  function EngagementScore(row: Row, view: PostView, now: int): real
    requires row.firstIndexed <= now
  {
    CalculateScore(HoursSince(now, row.firstIndexed),
                   (view.likeCount.GetOr(0) + view.repostCount.GetOr(0)) as real + row.mod)
  }

  // ---------------------------------------------------------------- refresh

  /** The row's score is more than six minutes old. */
  predicate DueForRefresh(row: Row, now: int) {
    row.lastScored < now - MIN_DELAY
  }

  function DueAt(now: int): Row -> bool {
    (row: Row) => DueForRefresh(row, now)
  }

  /** `ORDER BY first_indexed DESC`. */
  predicate IndexedNoEarlier(a: Row, b: Row) {
    a.firstIndexed >= b.firstIndexed
  }

  lemma IndexedNoEarlierIsTotalPreorder()
    ensures TotalPreorder(IndexedNoEarlier)
  {
  }

  /** A due row whose fetch succeeded, after the upsert: new score, scored now, nothing else changed. */
  function Rescore(row: Row, view: PostView, now: int): Row
    requires row.firstIndexed <= now
  {
    row.(score := EngagementScore(row, view, now), lastScored := now)
  }

  /**
   * The table after a refresh pass at `now`, with `fetch` standing for getPostThread: only due
   * rows whose fetch succeeded change, and only in score and last_scored; no row appears or goes.
   */
  function Refreshed(t: Table, now: int, fetch: string -> Option<PostView>): (r: Table)
    requires Consistent(t)
    ensures r.Keys == t.Keys
    ensures Consistent(r)
    ensures forall u :: u in t ==>
      && r[u].uri == t[u].uri && r[u].cid == t[u].cid
      && r[u].firstIndexed == t[u].firstIndexed && r[u].mod == t[u].mod
      && r[u].lastScored >= t[u].lastScored
    ensures forall u :: u in t && DueForRefresh(t[u], now) && fetch(u).Some? ==>
      r[u].lastScored == now && r[u].score == EngagementScore(t[u], fetch(u).value, now)
    ensures forall u :: u in t && !(DueForRefresh(t[u], now) && fetch(u).Some?) ==> r[u] == t[u]
  {
    map u | u in t :: if DueForRefresh(t[u], now) && fetch(u).Some? then Rescore(t[u], fetch(u).value, now) else t[u]
  }

  /**
   * Two passes at the same instant leave the table as one pass does: a rescored row is no longer
   * due, and a failed fetch fails again, so an overlapping pass is a redundant write.
   */
  lemma RefreshIdempotent(t: Table, now: int, fetch: string -> Option<PostView>)
    requires Consistent(t)
    ensures Refreshed(Refreshed(t, now, fetch), now, fetch) == Refreshed(t, now, fetch)
  {
    var r := Refreshed(t, now, fetch);
    var rr := Refreshed(r, now, fetch);
    forall u | u in t ensures rr[u] == r[u] {
      if DueForRefresh(t[u], now) && fetch(u).Some? {
        assert !DueForRefresh(r[u], now);
      }
    }
  }

  /**
   * The loop of refreshScores over the selected rows: fetch each in turn and upsert the score and
   * last_scored of each one whose fetch succeeded; a failed fetch leaves its row as it was.
   */
  method RescoreVisited(db: PostTable, visited: seq<string>, now: int, fetch: string -> Option<PostView>)
    requires db.Valid()
    requires forall i :: 0 <= i < |visited| ==> visited[i] in db.rows && DueForRefresh(db.rows[visited[i]], now)
    requires forall i, j :: 0 <= i < j < |visited| ==> visited[i] != visited[j]
    modifies db
    ensures db.Valid()
    ensures db.rows.Keys == old(db.rows).Keys
    ensures forall u :: u in old(db.rows) ==>
      db.rows[u] == if u in visited && DueForRefresh(old(db.rows)[u], now) && fetch(u).Some?
                    then Rescore(old(db.rows)[u], fetch(u).value, now) else old(db.rows)[u]
  {
    var t0 := db.rows;
    var res := seq(|visited|, i requires 0 <= i < |visited| => t0[visited[i]]);
    for i := 0 to |visited|
      invariant db.Valid()
      invariant db.rows.Keys == t0.Keys
      invariant forall u :: u in t0 ==>
        db.rows[u] == if u in visited[..i] && DueForRefresh(t0[u], now) && fetch(u).Some?
                      then Rescore(t0[u], fetch(u).value, now) else t0[u]
    {
      assert visited[..i + 1] == visited[..i] + [visited[i]];
      assert visited[i] !in visited[..i];
      var row := res[i];
      assert row == t0[row.uri] && DueForRefresh(row, now);
      var post := fetch(row.uri);
      if post.None? {
        continue;
      }
      var likeCount := post.value.likeCount.GetOr(0);
      var repostCount := post.value.repostCount.GetOr(0);
      var score := CalculateScore(HoursSince(now, row.firstIndexed), (likeCount + repostCount) as real + row.mod);
      db.UpsertScore(row, score, now);
    }
    assert visited[..|visited|] == visited;
  }

  /**
   * refreshScores: select the due rows newest first, then fetch and rescore them in turn. The
   * selection has no LIMIT, so every due row is visited.
   */
  method RefreshScores(db: PostTable, now: int, fetch: string -> Option<PostView>) returns (visited: seq<string>)
    requires db.Valid()
    modifies db
    ensures db.Valid()
    ensures IsOrderedSelection(old(db.rows), DueAt(now), IndexedNoEarlier, None, visited)
    ensures db.rows == Refreshed(old(db.rows), now, fetch)
  {
    IndexedNoEarlierIsTotalPreorder();
    visited := SelectOrdered(db.rows, DueAt(now), IndexedNoEarlier, None);
    var t0 := db.rows;
    forall i | 0 <= i < |visited|
      ensures visited[i] in t0 && DueForRefresh(t0[visited[i]], now)
    {
      assert DueAt(now)(t0[visited[i]]);
    }
    RescoreVisited(db, visited, now, fetch);
    var r := Refreshed(t0, now, fetch);
    forall u | u in t0
      ensures db.rows[u] == r[u]
    {
      if DueForRefresh(t0[u], now) {
        assert DueAt(now)(t0[u]);
        assert u in visited;
      }
    }
    assert db.rows == r;
  }

  // ---------------------------------------------------------------- eviction

  /** Older than a day and a half AND scoring below 0.1. */
  predicate Stale(row: Row, now: int) {
    row.firstIndexed < now - ONE_AND_A_HALF_DAYS && row.score < STALE_SCORE
  }

  /** The table after deleteStalePosts at `now`: exactly the stale rows are gone, the rest untouched. */
  function WithoutStale(t: Table, now: int): (r: Table)
    ensures forall u :: u in r <==> u in t && !Stale(t[u], now)
    ensures forall u :: u in r ==> r[u] == t[u]
  {
    map u | u in t && !Stale(t[u], now) :: t[u]
  }

  /** Neither age nor a low score alone evicts a row. */
  lemma EvictionNeedsAgeAndLowScore(t: Table, now: int, u: string)
    requires u in t
    requires t[u].firstIndexed >= now - ONE_AND_A_HALF_DAYS || t[u].score >= STALE_SCORE
    ensures u in WithoutStale(t, now) && WithoutStale(t, now)[u] == t[u]
  {
  }

  method DeleteStalePosts(db: PostTable, now: int)
    requires db.Valid()
    modifies db
    ensures db.Valid()
    ensures db.rows == WithoutStale(old(db.rows), now)
  {
    db.rows := WithoutStale(db.rows, now);
  }

  // ---------------------------------------------------------------- links

  /** https://bsky.app/profile/<segment 2>/post/<last segment> of the uri split at "/". */
  function UriToUrl(uri: string): string {
    var split := Split(uri, '/');
    "https://bsky.app/profile/" + (if |split| > 2 then split[2] else "undefined") + "/post/" + split[|split| - 1]
  }

  /** For an at:// post uri the link names the author's DID and the record key. */
  lemma UriToUrlOfPostUri(did: string, collection: string, rkey: string)
    requires '/' !in did && '/' !in collection && '/' !in rkey
    ensures UriToUrl("at://" + did + "/" + collection + "/" + rkey)
         == "https://bsky.app/profile/" + did + "/post/" + rkey
  {
    var uri := "at://" + did + "/" + collection + "/" + rkey;
    assert uri == "at:" + ['/'] + ([] + ['/'] + (did + ['/'] + (collection + ['/'] + rkey)));
    SplitWithoutSeparator(rkey, '/');
    SplitAtFirst(collection, '/', rkey);
    SplitAtFirst(did, '/', collection + ['/'] + rkey);
    SplitAtFirst([], '/', did + ['/'] + (collection + ['/'] + rkey));
    SplitAtFirst("at:", '/', [] + ['/'] + (did + ['/'] + (collection + ['/'] + rkey)));
    assert Split(uri, '/') == ["at:", [], did, collection, rkey];
  }

  /** A uri without any "/" has no segment 2, and the template literal prints it as "undefined". */
  lemma UriToUrlWithoutSlash(uri: string)
    requires '/' !in uri
    ensures UriToUrl(uri) == "https://bsky.app/profile/undefined/post/" + uri
  {
    SplitWithoutSeparator(uri, '/');
  }

  // ---------------------------------------------------------------- serving

  /** How the request's cursor bounds first_indexed: not at all, strictly below a time, or (NaN) excluding every row. */
  datatype CursorBound = Unbounded | Before(time: int) | NaNBound

  /** `if (params.cursor) ... where first_indexed < parseInt(params.cursor, 10)`. */
  function CursorBoundOf(cursor: Option<string>): CursorBound {
    if cursor.None? || cursor.value == "" then Unbounded
    else match ParseInt(cursor.value)
      case None => NaNBound
      case Some(n) => Before(n)
  }

  predicate Admits(bound: CursorBound, firstIndexed: int) {
    bound.Unbounded? || (bound.Before? && firstIndexed < bound.time)
  }

  /** `WHERE score > 0` and the cursor bound. */
  function EligibleFor(bound: CursorBound): Row -> bool {
    (row: Row) => row.score > 0.0 && Admits(bound, row.firstIndexed)
  }

  /** `ORDER BY score DESC, first_indexed DESC`. */
  predicate RanksAtLeast(a: Row, b: Row) {
    a.score > b.score || (a.score == b.score && a.firstIndexed >= b.firstIndexed)
  }

  lemma RanksAtLeastIsTotalPreorder()
    ensures TotalPreorder(RanksAtLeast)
  {
  }

  /**
   * res answers the handler's query: at most `limit` distinct rows of the table with a positive
   * score inside the cursor bound, best first, and any such row left out ranks no higher than every
   * row returned and was left out only because the page is full.
   */
  ghost predicate IsRankedPage(t: Table, limit: nat, bound: CursorBound, res: seq<Row>) {
    && |res| <= limit
    && (forall i :: 0 <= i < |res| ==>
          res[i].uri in t && t[res[i].uri] == res[i] && res[i].score > 0.0 && Admits(bound, res[i].firstIndexed))
    && (forall i, j :: 0 <= i < j < |res| ==> res[i].uri != res[j].uri)
    && (forall i, j :: 0 <= i < j < |res| ==> RanksAtLeast(res[i], res[j]))
    && (forall u :: u in t && t[u].score > 0.0 && Admits(bound, t[u].firstIndexed) && u !in Uris(res) ==>
          |res| == limit && forall i :: 0 <= i < |res| ==> RanksAtLeast(res[i], t[u]))
  }

  /** The rows behind an answer to the query over keys are an answer to the query over rows. */
  lemma SelectionIsRankedPage(t: Table, limit: nat, bound: CursorBound, ks: seq<string>, res: seq<Row>)
    requires KeyedByUri(t)
    requires IsOrderedSelection(t, EligibleFor(bound), RanksAtLeast, Some(limit), ks)
    requires |res| == |ks| && forall i :: 0 <= i < |ks| ==> res[i] == t[ks[i]]
    ensures IsRankedPage(t, limit, bound, res)
  {
    forall i | 0 <= i < |res|
      ensures res[i].uri == ks[i] && res[i].score > 0.0 && Admits(bound, res[i].firstIndexed)
    {
      assert EligibleFor(bound)(t[ks[i]]);
    }
    forall u | u in t && t[u].score > 0.0 && Admits(bound, t[u].firstIndexed) && u !in Uris(res)
      ensures |res| == limit && forall i :: 0 <= i < |res| ==> RanksAtLeast(res[i], t[u])
    {
      assert EligibleFor(bound)(t[u]);
      assert u !in ks by {
        forall i | 0 <= i < |ks| ensures ks[i] != u {
          assert res[i].uri in Uris(res);
        }
      }
    }
  }

  /** The query of the handler: positive score, cursor bound, best first, at most `limit` rows. */
  method QueryPage(t: Table, limit: nat, cursor: Option<string>) returns (res: seq<Row>)
    requires KeyedByUri(t)
    ensures IsRankedPage(t, limit, CursorBoundOf(cursor), res)
  {
    var bound := CursorBoundOf(cursor);
    RanksAtLeastIsTotalPreorder();
    var ks := SelectOrdered(t, EligibleFor(bound), RanksAtLeast, Some(limit));
    res := seq(|ks|, i requires 0 <= i < |ks| => t[ks[i]]);
    SelectionIsRankedPage(t, limit, bound, ks, res);
  }

  /** The next page's cursor: the last queried row's first_indexed as decimal text; none for an empty page. */
  function NextCursor(res: seq<Row>): (cursor: Option<string>)
    ensures cursor.None? <==> res == []
    ensures cursor.Some? ==> CursorBoundOf(cursor) == Before(res[|res| - 1].firstIndexed)
  {
    if res == [] then None
    else
      var n := res[|res| - 1].firstIndexed;
      ParseIntOfIntToString(n);
      Some(IntToString(n))
  }

  /** Every row of the page a returned cursor asks for is strictly older than the last row served. */
  lemma NextPageIsOlder(t: Table, limit: nat, page: seq<Row>, t': Table, limit': nat, next: seq<Row>)
    requires page != []
    requires IsRankedPage(t', limit', CursorBoundOf(NextCursor(page)), next)
    ensures forall i :: 0 <= i < |next| ==> next[i].firstIndexed < page[|page| - 1].firstIndexed
  {
  }

  /**
   * Because pages are ordered by score while the cursor bounds first_indexed, a row can be served
   * again on the page its own page's cursor asks for: of two rows, the older one scoring higher,
   * a two-row page holds both, and its cursor (the newer row's time) lets the older row through again.
   */
  lemma RowCanReappearOnNextPage(a: Row, b: Row)
    requires a.uri != b.uri && a.score > b.score > 0.0 && a.firstIndexed < b.firstIndexed
    ensures var t := map[a.uri := a, b.uri := b];
      && IsRankedPage(t, 2, CursorBoundOf(None), [a, b])
      && IsRankedPage(t, 2, CursorBoundOf(NextCursor([a, b])), [a])
  {
    var t := map[a.uri := a, b.uri := b];
    assert t.Keys == {a.uri, b.uri};
    assert Uris([a, b]) == {a.uri, b.uri};
    assert Uris([a]) == {a.uri};
    assert RanksAtLeast(a, b);
    assert IsRankedPage(t, 2, CursorBoundOf(None), [a, b]);
    assert CursorBoundOf(NextCursor([a, b])) == Before(b.firstIndexed);
    assert !Admits(Before(b.firstIndexed), b.firstIndexed);
    assert IsRankedPage(t, 2, Before(b.firstIndexed), [a]);
  }

  /** Each pinned post is put in front of the feed in turn, so they end up in reverse order. */
  method PrependPinned(pinned: seq<string>, feed: seq<string>) returns (r: seq<string>)
    ensures |r| == |pinned| + |feed|
    ensures forall i :: 0 <= i < |pinned| ==> r[i] == pinned[|pinned| - 1 - i]
    ensures r[|pinned|..] == feed
  {
    r := feed;
    for i := 0 to |pinned|
      invariant |r| == i + |feed|
      invariant forall k :: 0 <= k < i ==> r[k] == pinned[i - 1 - k]
      invariant r[i..] == feed
    {
      r := [pinned[i]] + r;
    }
  }

  /** The response: pinned posts in reverse configured order, then the page's uris, and the page's cursor. */
  ghost predicate IsFeedResponse(t: Table, pinned: seq<string>, limit: nat, cursor: Option<string>, response: FeedPage) {
    exists res: seq<Row> ::
      && IsRankedPage(t, limit, CursorBoundOf(cursor), res)
      && |response.feed| == |pinned| + |res|
      && (forall i :: 0 <= i < |pinned| ==> response.feed[i] == pinned[|pinned| - 1 - i])
      && (forall i :: 0 <= i < |res| ==> response.feed[|pinned| + i] == res[i].uri)
      && response.cursor == NextCursor(res)
  }

  /** The module-level state of vibes-algorithm.ts: the pinned posts and whether the timers are set. */
  class FeedGenerator {
    const pinnedPosts: seq<string>
    var intervalsScheduled: bool

    constructor (pinnedPosts: seq<string>)
      ensures this.pinnedPosts == pinnedPosts && !intervalsScheduled
    {
      this.pinnedPosts := pinnedPosts;
      intervalsScheduled := false;
    }

    /** The feed request: mark the timers scheduled, query the page, put the pinned posts in front. */
    method Handler(db: PostTable, limit: nat, cursor: Option<string>) returns (response: FeedPage)
      requires db.Valid()
      modifies this`intervalsScheduled
      ensures intervalsScheduled
      ensures IsFeedResponse(db.rows, pinnedPosts, limit, cursor, response)
    {
      if !intervalsScheduled {
        intervalsScheduled := true;
      }
      var res := QueryPage(db.rows, limit, cursor);
      var feed := seq(|res|, i requires 0 <= i < |res| => res[i].uri);
      feed := PrependPinned(pinnedPosts, feed);
      response := FeedPage(feed, NextCursor(res));
      assert forall i :: 0 <= i < |res| ==> response.feed[|pinnedPosts| + i] == response.feed[|pinnedPosts|..][i];
    }
  }
}
