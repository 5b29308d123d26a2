/**
 * The "vibes" feed, the handler the feed generator registers: each request first rescores the
 * fifty newest posts with their current like count, then serves posts newest first (ties by cid,
 * descending), with the last post's time as the cursor. Its rows are the schema's `Post`: uri,
 * cid, indexedAt and score; indexedAt is held as milliseconds since the epoch.
 */
module Vibes {
  import opened Wrappers
  import opened Text
  import opened Ranking
  import opened Store

  /** `new Date(ms)` is a valid date only within 8.64e15 ms of the epoch. */
  const MAX_TIME_MS: int := 8640000000000000
  /** How many of the newest posts every request rescores. */
  const SCORE_BATCH: nat := 50

  datatype Post = Post(uri: string, cid: string, indexedAt: int, score: real)

  type Posts = map<string, Post>

  /** Why a request fails: a getPostThread call rejected, or the cursor is not a valid time. */
  datatype HandlerError = FetchFailed(uri: string) | InvalidTime

  predicate IsTimeValue(ms: int) {
    -MAX_TIME_MS <= ms <= MAX_TIME_MS
  }

  /** The table invariant: keyed by uri, and every indexedAt a valid date. */
  predicate WellFormed(t: Posts) {
    forall u :: u in t ==> t[u].uri == u && IsTimeValue(t[u].indexedAt)
  }

  // ---------------------------------------------------------------- order

  /** `ORDER BY indexedAt DESC, cid DESC`. */
  predicate NewerFirst(a: Post, b: Post) {
    a.indexedAt > b.indexedAt || (a.indexedAt == b.indexedAt && LexLeq(b.cid, a.cid))
  }

  lemma NewerFirstIsTotalPreorder()
    ensures TotalPreorder(NewerFirst)
  {
    forall a: Post, b: Post
      ensures NewerFirst(a, b) || NewerFirst(b, a)
    {
      LexLeqTotal(a.cid, b.cid);
    }
    forall a: Post, b: Post, c: Post | NewerFirst(a, b) && NewerFirst(b, c)
      ensures NewerFirst(a, c)
    {
      if a.indexedAt == b.indexedAt == c.indexedAt {
        LexLeqTransitive(c.cid, b.cid, a.cid);
      }
    }
  }

  /** Two posts the order cannot tell apart share indexedAt and cid: only posts equal on both tie. */
  lemma NewerFirstTiesShareKey(a: Post, b: Post)
    requires NewerFirst(a, b) && NewerFirst(b, a)
    ensures a.indexedAt == b.indexedAt && a.cid == b.cid
  {
    LexLeqAntisymmetric(a.cid, b.cid);
  }

  /** The rescoring query has no WHERE clause. */
  predicate AnyPost(p: Post) {
    true
  }

  // ---------------------------------------------------------------- rescoring

  /** The score calculateScores stores: the fetched like count, 0 when the count is absent. */
  function LikeScore(view: PostView): (score: real)
    ensures score >= 0.0
  {
    view.likeCount.GetOr(0) as real
  }

  /**
   * How many of `uris`, taken in order, are rescored before a fetch rejects: the loop awaits
   * each getPostThread without a catch, so the first rejection ends it.
   */
  function SucceedingPrefix(uris: seq<string>, fetch: string -> Option<PostView>): (n: nat)
    ensures n <= |uris|
    ensures forall i :: 0 <= i < n ==> fetch(uris[i]).Some?
    ensures n < |uris| ==> fetch(uris[n]).None?
  {
    if uris == [] || fetch(uris[0]).None? then 0 else 1 + SucceedingPrefix(uris[1..], fetch)
  }

  /** The prefix above is the only one whose fetches all succeed up to a failing one or the end. */
  lemma SucceedingPrefixUnique(uris: seq<string>, fetch: string -> Option<PostView>, n: nat)
    requires n <= |uris|
    requires forall i :: 0 <= i < n ==> fetch(uris[i]).Some?
    requires n < |uris| ==> fetch(uris[n]).None?
    ensures SucceedingPrefix(uris, fetch) == n
  {
  }

  /** The table once the posts of `uris` have been rescored from `fetch`. */
  function WithLikeScores(t: Posts, uris: seq<string>, fetch: string -> Option<PostView>): Posts {
    map u | u in t :: if u in uris && fetch(u).Some? then t[u].(score := LikeScore(fetch(u).value)) else t[u]
  }

  /**
   * Rescoring gives each post of `uris` its like count as score and keeps its uri, cid and
   * indexedAt; no post is added or removed, no other post changes, and the table stays well formed.
   */
  lemma WithLikeScoresEffect(t: Posts, uris: seq<string>, fetch: string -> Option<PostView>)
    requires forall i :: 0 <= i < |uris| ==> fetch(uris[i]).Some?
    ensures var r := WithLikeScores(t, uris, fetch);
      && r.Keys == t.Keys
      && (forall u :: u in t ==> r[u].uri == t[u].uri && r[u].cid == t[u].cid && r[u].indexedAt == t[u].indexedAt)
      && (forall i :: 0 <= i < |uris| && uris[i] in t ==> r[uris[i]].score == LikeScore(fetch(uris[i]).value))
      && (forall u :: u in t && u !in uris ==> r[u] == t[u])
      && (WellFormed(t) ==> WellFormed(r))
  {
  }

  /** Rescoring the same posts again with the same answers changes nothing. */
  lemma WithLikeScoresIdempotent(t: Posts, uris: seq<string>, fetch: string -> Option<PostView>)
    requires forall i :: 0 <= i < |uris| ==> fetch(uris[i]).Some?
    ensures WithLikeScores(WithLikeScores(t, uris, fetch), uris, fetch) == WithLikeScores(t, uris, fetch)
  {
    var r := WithLikeScores(t, uris, fetch);
    var rr := WithLikeScores(r, uris, fetch);
    WithLikeScoresEffect(t, uris, fetch);
    WithLikeScoresEffect(r, uris, fetch);
    forall u | u in r
      ensures rr[u] == r[u]
    {
      if u in uris {
        var i :| 0 <= i < |uris| && uris[i] == u;
        assert rr[uris[i]].score == r[uris[i]].score;
      }
    }
  }

  /** Rescoring one more post, not yet rescored, updates that post's score alone. */
  lemma WithLikeScoresStep(t: Posts, uris: seq<string>, fetch: string -> Option<PostView>, u: string)
    requires forall i :: 0 <= i < |uris| ==> fetch(uris[i]).Some?
    requires u in t && u !in uris && fetch(u).Some?
    ensures u in WithLikeScores(t, uris, fetch) && WithLikeScores(t, uris, fetch)[u] == t[u]
    ensures WithLikeScores(t, uris + [u], fetch)
         == WithLikeScores(t, uris, fetch)[u := t[u].(score := LikeScore(fetch(u).value))]
  {
    var a := WithLikeScores(t, uris + [u], fetch);
    var b := WithLikeScores(t, uris, fetch)[u := t[u].(score := LikeScore(fetch(u).value))];
    forall v | v in t
      ensures a[v] == b[v]
    {
      assert v in uris + [u] <==> v in uris || v == u;
    }
  }

  /** The posts table of the vibes feed. */
  class VibesTable {
    var rows: Posts

    ghost predicate Valid()
      reads this
    {
      WellFormed(rows)
    }

    constructor ()
      ensures Valid() && rows == map[]
    {
      rows := map[];
    }

    /**
     * `INSERT INTO post VALUES post ON CONFLICT DO UPDATE SET score`: an existing post keeps its
     * other columns; a missing one is inserted whole.
     */
    method UpsertScore(post: Post, score: real)
      requires Valid()
      requires post.uri !in rows ==> IsTimeValue(post.indexedAt)
      modifies this
      ensures Valid()
      ensures rows == if post.uri in old(rows)
                      then old(rows)[post.uri := old(rows)[post.uri].(score := score)]
                      else old(rows)[post.uri := post.(score := score)]
    {
      if post.uri in rows {
        rows := rows[post.uri := rows[post.uri].(score := score)];
      } else {
        rows := rows[post.uri := post.(score := score)];
      }
    }
  }

  /** One rescoring pass from t0 to t1: the newest fifty, rescored in order up to the first failed fetch. */
  ghost predicate IsRescoring(t0: Posts, fetch: string -> Option<PostView>, batch: seq<string>, t1: Posts) {
    && IsOrderedSelection(t0, AnyPost, NewerFirst, Some(SCORE_BATCH), batch)
    && t1 == WithLikeScores(t0, batch[..SucceedingPrefix(batch, fetch)], fetch)
  }

  /**
   * The loop of calculateScores over the selected posts: fetch each in order and upsert its like
   * count as its score; a rejected fetch ends the loop, leaving the rest unscored.
   */
  method RescoreInOrder(db: VibesTable, batch: seq<string>, fetch: string -> Option<PostView>) returns (scored: nat)
    requires db.Valid()
    requires forall i :: 0 <= i < |batch| ==> batch[i] in db.rows
    requires forall i, j :: 0 <= i < j < |batch| ==> batch[i] != batch[j]
    modifies db
    ensures db.Valid()
    ensures scored == SucceedingPrefix(batch, fetch)
    ensures db.rows == WithLikeScores(old(db.rows), batch[..scored], fetch)
  {
    var t0 := db.rows;
    scored := 0;
    while scored < |batch|
      invariant scored <= |batch|
      invariant forall i :: 0 <= i < scored ==> fetch(batch[i]).Some?
      invariant db.rows == WithLikeScores(t0, batch[..scored], fetch)
    {
      var uri := batch[scored];
      var row := t0[uri];
      assert row.uri == uri;
      var post := fetch(row.uri);
      if post.None? {
        break;
      }
      ghost var done := batch[..scored];
      assert uri !in done by {
        forall i | 0 <= i < scored
          ensures done[i] != uri
        {
        }
      }
      WithLikeScoresStep(t0, done, fetch, uri);
      db.UpsertScore(row, LikeScore(post.value));
      assert db.rows == WithLikeScores(t0, done + [uri], fetch);
      assert batch[..scored + 1] == done + [uri];
      scored := scored + 1;
    }
    SucceedingPrefixUnique(batch, fetch, scored);
    WithLikeScoresEffect(t0, batch[..scored], fetch);
  }

  /**
   * calculateScores: select the fifty newest posts and rescore them in order. `scored` is the
   * number of posts rescored; it is short of the batch exactly when a fetch failed.
   */
  method CalculateScores(db: VibesTable, fetch: string -> Option<PostView>) returns (batch: seq<string>, scored: nat)
    requires db.Valid()
    modifies db
    ensures db.Valid()
    ensures scored == SucceedingPrefix(batch, fetch)
    ensures IsRescoring(old(db.rows), fetch, batch, db.rows)
  {
    NewerFirstIsTotalPreorder();
    batch := SelectOrdered(db.rows, AnyPost, NewerFirst, Some(SCORE_BATCH));
    scored := RescoreInOrder(db, batch, fetch);
  }

  // ---------------------------------------------------------------- serving

  /**
   * The cursor's time bound: none without a cursor (or with an empty one), and an error where
   * `new Date(parseInt(cursor, 10)).toISOString()` throws, that is when the cursor has no leading
   * integer or names a time outside the valid date range.
   */
  function CursorTime(cursor: Option<string>): (r: Result<Option<int>, HandlerError>)
    ensures cursor.None? || cursor.value == "" ==> r == Success(None)
    ensures r.Success? && r.value.Some? ==> IsTimeValue(r.value.value) && ParseInt(cursor.value) == Some(r.value.value)
    ensures cursor.Some? && cursor.value != "" && ParseInt(cursor.value).Some? && IsTimeValue(ParseInt(cursor.value).value) ==>
      r == Success(ParseInt(cursor.value))
    ensures r.Failure? <==>
      (cursor.Some? && cursor.value != "" &&
       (ParseInt(cursor.value).None? || !IsTimeValue(ParseInt(cursor.value).value)))
  {
    if cursor.None? || cursor.value == "" then Success(None)
    else match ParseInt(cursor.value)
      case None => Failure(InvalidTime)
      case Some(n) => if IsTimeValue(n) then Success(Some(n)) else Failure(InvalidTime)
  }

  /** `WHERE indexedAt < cursor time`, when there is a cursor. */
  predicate Earlier(bound: Option<int>, indexedAt: int) {
    bound.None? || indexedAt < bound.value
  }

  function EarlierThan(bound: Option<int>): Post -> bool {
    (p: Post) => Earlier(bound, p.indexedAt)
  }

  /**
   * res answers the handler's query: at most `limit` distinct posts of the table inside the
   * cursor bound, newest first, and any such post left out was left out because the page is full
   * and sorts no earlier than every post on it.
   */
  ghost predicate IsNewestPage(t: Posts, limit: nat, bound: Option<int>, res: seq<Post>) {
    && |res| <= limit
    && (forall i :: 0 <= i < |res| ==> res[i].uri in t && t[res[i].uri] == res[i] && Earlier(bound, res[i].indexedAt))
    && (forall i, j :: 0 <= i < j < |res| ==> res[i].uri != res[j].uri)
    && (forall i, j :: 0 <= i < j < |res| ==> NewerFirst(res[i], res[j]))
    && (forall u :: u in t && Earlier(bound, t[u].indexedAt) && (forall i :: 0 <= i < |res| ==> res[i].uri != u) ==>
          |res| == limit && forall i :: 0 <= i < |res| ==> NewerFirst(res[i], t[u]))
  }

  /** The posts behind an answer to the query over keys are an answer to the query over posts. */
  lemma SelectionIsNewestPage(t: Posts, limit: nat, bound: Option<int>, ks: seq<string>, res: seq<Post>)
    requires WellFormed(t)
    requires IsOrderedSelection(t, EarlierThan(bound), NewerFirst, Some(limit), ks)
    requires |res| == |ks| && forall i :: 0 <= i < |ks| ==> res[i] == t[ks[i]]
    ensures IsNewestPage(t, limit, bound, res)
  {
    forall i | 0 <= i < |res|
      ensures res[i].uri == ks[i] && Earlier(bound, res[i].indexedAt)
    {
      assert EarlierThan(bound)(t[ks[i]]);
    }
    forall u | u in t && Earlier(bound, t[u].indexedAt) && (forall i :: 0 <= i < |res| ==> res[i].uri != u)
      ensures |res| == limit && forall i :: 0 <= i < |res| ==> NewerFirst(res[i], t[u])
    {
      assert EarlierThan(bound)(t[u]);
      assert u !in ks by {
        forall i | 0 <= i < |ks| ensures ks[i] != u {
          assert res[i].uri != u;
        }
      }
    }
  }

  /** The handler's query: inside the cursor bound, newest first, at most `limit` posts. */
  method QueryPage(t: Posts, limit: nat, bound: Option<int>) returns (res: seq<Post>)
    requires WellFormed(t)
    ensures IsNewestPage(t, limit, bound, res)
  {
    NewerFirstIsTotalPreorder();
    var ks := SelectOrdered(t, EarlierThan(bound), NewerFirst, Some(limit));
    res := seq(|ks|, i requires 0 <= i < |ks| => t[ks[i]]);
    SelectionIsNewestPage(t, limit, bound, ks, res);
  }

  /**
   * The next page's cursor: the last post's time in milliseconds as decimal text, none for an
   * empty page; read back, it bounds the next page strictly before that post.
   */
  function NextCursor(res: seq<Post>): (cursor: Option<string>)
    ensures cursor.None? <==> res == []
    ensures cursor.Some? && IsTimeValue(res[|res| - 1].indexedAt) ==>
      CursorTime(cursor) == Success(Some(res[|res| - 1].indexedAt))
  {
    if res == [] then None
    else
      var n := res[|res| - 1].indexedAt;
      ParseIntOfIntToString(n);
      Some(IntToString(n))
  }

  /**
   * A post left off a full page with the same indexedAt as the page's last post is on no page the
   * returned cursor asks for: the cursor carries only the time, not the cid that breaks the tie.
   */
  lemma TiedPostIsSkipped(t: Posts, limit: nat, bound: Option<int>, page: seq<Post>, u: string,
                          t': Posts, limit': nat, next: seq<Post>)
    requires WellFormed(t) && IsNewestPage(t, limit, bound, page) && page != []
    requires u in t && t[u].indexedAt == page[|page| - 1].indexedAt
    requires CursorTime(NextCursor(page)).Success?
    requires IsNewestPage(t', limit', CursorTime(NextCursor(page)).value, next)
    ensures forall i :: 0 <= i < |next| ==> next[i].uri != u || next[i].indexedAt != t[u].indexedAt
  {
    var last := page[|page| - 1];
    assert last.uri in t;
    assert IsTimeValue(last.indexedAt);
  }

  /** Two posts at the same instant, one per page: the second is never served. */
  lemma TiedPostSkippedExample(a: Post, b: Post)
    requires a.uri != b.uri && a.indexedAt == b.indexedAt && IsTimeValue(a.indexedAt) && LexLeq(b.cid, a.cid)
    ensures var t := map[a.uri := a, b.uri := b];
      && IsNewestPage(t, 1, None, [a])
      && CursorTime(NextCursor([a])) == Success(Some(a.indexedAt))
      && IsNewestPage(t, 1, Some(a.indexedAt), [])
  {
    var t := map[a.uri := a, b.uri := b];
    assert t.Keys == {a.uri, b.uri};
    assert NewerFirst(a, b);
    assert forall u :: u in t ==> t[u].indexedAt == a.indexedAt;
    assert IsNewestPage(t, 1, None, [a]);
    assert IsNewestPage(t, 1, Some(a.indexedAt), []);
  }

  /** The handler's answer for table t: the cursor error, or the page's uris and its cursor. */
  ghost predicate IsVibesResponse(t: Posts, limit: nat, cursor: Option<string>, r: Result<FeedPage, HandlerError>) {
    match CursorTime(cursor)
    case Failure(e) => r == Failure(e)
    case Success(bound) =>
      && r.Success?
      && exists res: seq<Post> ::
        && IsNewestPage(t, limit, bound, res)
        && |r.value.feed| == |res|
        && (forall i :: 0 <= i < |res| ==> r.value.feed[i] == res[i].uri)
        && r.value.cursor == NextCursor(res)
  }

  /** What one request leaves behind: a rescoring pass, then the failed fetch or the answer. */
  ghost predicate IsHandlerOutcome(t0: Posts, fetch: string -> Option<PostView>, limit: nat, cursor: Option<string>,
                                   t1: Posts, r: Result<FeedPage, HandlerError>) {
    exists batch :: IsRescoring(t0, fetch, batch, t1) && AnswersAfterRescoring(batch, fetch, limit, cursor, t1, r)
  }

  ghost predicate AnswersAfterRescoring(batch: seq<string>, fetch: string -> Option<PostView>, limit: nat,
                                        cursor: Option<string>, t1: Posts, r: Result<FeedPage, HandlerError>) {
    if SucceedingPrefix(batch, fetch) < |batch|
    then r == Failure(FetchFailed(batch[SucceedingPrefix(batch, fetch)]))
    else IsVibesResponse(t1, limit, cursor, r)
  }

  /**
   * The feed request: rescore the newest fifty (a failed fetch fails the request before any
   * query), then answer from the rescored table.
   */
  method Handler(db: VibesTable, fetch: string -> Option<PostView>, limit: nat, cursor: Option<string>)
      returns (r: Result<FeedPage, HandlerError>)
    requires db.Valid()
    modifies db
    ensures db.Valid()
    ensures IsHandlerOutcome(old(db.rows), fetch, limit, cursor, db.rows, r)
  {
    var batch, scored := CalculateScores(db, fetch);
    if scored < |batch| {
      r := Failure(FetchFailed(batch[scored]));
      assert AnswersAfterRescoring(batch, fetch, limit, cursor, db.rows, r);
      return;
    }
    var time := CursorTime(cursor);
    if time.Failure? {
      r := Failure(time.error);
      assert AnswersAfterRescoring(batch, fetch, limit, cursor, db.rows, r);
      return;
    }
    var res := QueryPage(db.rows, limit, time.value);
    var feed := seq(|res|, i requires 0 <= i < |res| => res[i].uri);
    r := Success(FeedPage(feed, NextCursor(res)));
    assert IsVibesResponse(db.rows, limit, cursor, r) by {
      assert IsNewestPage(db.rows, limit, time.value, res);
    }
    assert AnswersAfterRescoring(batch, fetch, limit, cursor, db.rows, r);
  }
}
