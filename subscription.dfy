/**
 * The firehose subscription: every commit event carries post deletions and post creations; a
 * creation is kept when its text matches the keyword policy and the post cap has room, and the
 * `post` table then loses the deleted uris and gains a zero-score row per kept creation.
 */
module Subscription {
  import opened Wrappers
  import opened Text
  import opened Store

  /** The most posts one subscription ever accepts. */
  const MAX_POSTS: nat := 500
  /** Settings are reloaded once more than this many milliseconds have passed since the last load. */
  const SETTINGS_RELOAD_MS: int := 10000

  /** The part of settings.json the subscription reads. */
  datatype Settings = Settings(keywords: seq<string>, negativeKeywords: seq<string>)

  /** A created post record: its text, whether it replies to another post, and its declared languages. */
  datatype PostRecord = PostRecord(text: string, isReply: bool, langs: Option<seq<string>>)

  datatype CreateOp = CreateOp(uri: string, cid: string, record: PostRecord)

  /** A repository event: a commit with its post deletions and creations, or any other kind. */
  datatype Event = Commit(deletes: seq<string>, creates: seq<CreateOp>) | NotCommit

  /** The outcome of filtering a batch of creations: those kept, and the post counter afterwards. */
  datatype Admission = Admission(accepted: seq<CreateOp>, count: nat)

  predicate ReloadDue(settingsLastUpdated: int, now: int) {
    now - settingsLastUpdated > SETTINGS_RELOAD_MS
  }

  /** Some word of `words` occurs in the lower-cased text (the words themselves are not lower-cased). */
  predicate MentionsAny(text: string, words: seq<string>) {
    exists i :: 0 <= i < |words| && Contains(ToLower(text), words[i])
  }

  /** No language list, or one that includes "en". */
  predicate LanguageAccepted(langs: Option<seq<string>>) {
    langs.None? || "en" in langs.value
  }

  /** The keyword policy on one creation, leaving the post cap aside. */
  predicate ContentMatches(c: CreateOp, keywords: seq<string>, negativeKeywords: seq<string>) {
    && !c.record.isReply
    && LanguageAccepted(c.record.langs)
    && MentionsAny(c.record.text, keywords)
    && !MentionsAny(c.record.text, negativeKeywords)
  }

  /** The filter's decision on one creation when `count` posts have been accepted so far. */
  predicate Matched(c: CreateOp, count: nat, keywords: seq<string>, negativeKeywords: seq<string>) {
    count < MAX_POSTS && ContentMatches(c, keywords, negativeKeywords)
  }

  /**
   * The creations the filter keeps, in order, and the counter after it: the counter grows by one
   * per kept creation, never passes the cap, and nothing is kept once the cap is reached.
   */
  function Admit(creates: seq<CreateOp>, count: nat, keywords: seq<string>, negativeKeywords: seq<string>)
    : (a: Admission)
    ensures a.count == count + |a.accepted|
    ensures count <= MAX_POSTS ==> a.count <= MAX_POSTS
    ensures count >= MAX_POSTS ==> a.accepted == []
    ensures forall c :: c in a.accepted ==> c in creates && ContentMatches(c, keywords, negativeKeywords)
    decreases |creates|
  {
    if creates == [] then Admission([], count)
    else if Matched(creates[0], count, keywords, negativeKeywords) then
      var rest := Admit(creates[1..], count + 1, keywords, negativeKeywords);
      Admission([creates[0]] + rest.accepted, rest.count)
    else
      Admit(creates[1..], count, keywords, negativeKeywords)
  }

  /** The creations that satisfy the keyword policy, in order, ignoring the cap. */
  function MatchingCreates(creates: seq<CreateOp>, keywords: seq<string>, negativeKeywords: seq<string>)
    : seq<CreateOp>
  {
    if creates == [] then []
    else if ContentMatches(creates[0], keywords, negativeKeywords)
    then [creates[0]] + MatchingCreates(creates[1..], keywords, negativeKeywords)
    else MatchingCreates(creates[1..], keywords, negativeKeywords)
  }

  /** The first n elements of s, or all of s when it is shorter. */
  function Take<T>(s: seq<T>, n: int): seq<T> {
    if n >= |s| then s else if n <= 0 then [] else s[..n]
  }

  /** The filter keeps exactly the first (MAX_POSTS - count) creations the keyword policy accepts. */
  lemma {:induction false} AdmitTakesFirstMatches(creates: seq<CreateOp>, count: nat,
                                                   keywords: seq<string>, negativeKeywords: seq<string>)
    requires count <= MAX_POSTS
    ensures Admit(creates, count, keywords, negativeKeywords).accepted
         == Take(MatchingCreates(creates, keywords, negativeKeywords), MAX_POSTS - count)
    decreases |creates|
  {
    if creates != [] {
      var c := creates[0];
      var rest := MatchingCreates(creates[1..], keywords, negativeKeywords);
      if ContentMatches(c, keywords, negativeKeywords) && count < MAX_POSTS {
        AdmitTakesFirstMatches(creates[1..], count + 1, keywords, negativeKeywords);
        var n := MAX_POSTS - count;
        if n - 1 < |rest| {
          assert ([c] + rest)[..n] == [c] + rest[..n - 1];
        }
      } else if ContentMatches(c, keywords, negativeKeywords) {
        assert Admit(creates[1..], count, keywords, negativeKeywords).accepted == [];
      } else {
        AdmitTakesFirstMatches(creates[1..], count, keywords, negativeKeywords);
      }
    }
  }

  /** A negative keyword in the text vetoes the creation, whatever keyword also occurs. */
  lemma NegativeKeywordVetoes(c: CreateOp, count: nat, keywords: seq<string>, negativeKeywords: seq<string>, j: int)
    requires 0 <= j < |negativeKeywords| && Contains(ToLower(c.record.text), negativeKeywords[j])
    ensures !Matched(c, count, keywords, negativeKeywords)
  {
  }

  /** Matching reads the text only through its lower-cased form, so the text's case never matters. */
  lemma MatchIgnoresTextCase(c: CreateOp, text: string, count: nat, keywords: seq<string>, negativeKeywords: seq<string>)
    requires ToLower(text) == ToLower(c.record.text)
    ensures Matched(c.(record := c.record.(text := text)), count, keywords, negativeKeywords)
        == Matched(c, count, keywords, negativeKeywords)
  {
  }

  /** A keyword with an upper-case letter never matches, so a policy made only of such keywords accepts nothing. */
  lemma UpperCaseKeywordsNeverMatch(text: string, keywords: seq<string>)
    requires forall i :: 0 <= i < |keywords| ==> exists p :: 0 <= p < |keywords[i]| && IsUpper(keywords[i][p])
    ensures !MentionsAny(text, keywords)
  {
    forall i | 0 <= i < |keywords|
      ensures !Contains(ToLower(text), keywords[i])
    {
      var p :| 0 <= p < |keywords[i]| && IsUpper(keywords[i][p]);
      UpperCaseNeverInLowered(text, keywords[i], p);
    }
  }

  /** The row built for a kept creation: score 0, indexed and scored at the same instant. */
  function NewRow(c: CreateOp, now: int): Row {
    Row(c.uri, c.cid, now, 0.0, now, 0.0)
  }

  function NewRows(accepted: seq<CreateOp>, now: int): (rows: seq<Row>)
    ensures |rows| == |accepted|
    ensures forall i :: 0 <= i < |rows| ==> rows[i] == NewRow(accepted[i], now)
  {
    seq(|accepted|, i requires 0 <= i < |accepted| => NewRow(accepted[i], now))
  }

  /** The table after a commit: the deleted uris go first, then the new rows are inserted or ignored. */
  function ApplyCommit(t: Table, deletes: seq<string>, accepted: seq<CreateOp>, now: int): Table {
    InsertOrIgnore(WithoutUris(t, deletes), NewRows(accepted, now))
  }

  /**
   * What a commit does to the table: a row whose uri was not deleted is untouched; a deleted uri
   * stays only if the same commit re-creates it; every kept creation's uri is present afterwards,
   * so a uri deleted and re-created in one commit survives; every row the commit adds is a fresh
   * zero-score row of a kept creation; and nothing else appears.
   */
  lemma CommitEffect(t: Table, deletes: seq<string>, accepted: seq<CreateOp>, now: int)
    ensures var r := ApplyCommit(t, deletes, accepted, now);
      && (forall u :: u in t && u !in deletes ==> u in r && r[u] == t[u])
      && (forall u :: u in r ==> (u in t && u !in deletes) || exists i :: 0 <= i < |accepted| && accepted[i].uri == u)
      && (forall u :: u in deletes && u in r ==> exists i :: 0 <= i < |accepted| && accepted[i].uri == u)
      && (forall i :: 0 <= i < |accepted| ==> accepted[i].uri in r)
      && (forall u :: u in r && (u !in t || u in deletes) ==>
            && r[u].uri == u && r[u].score == 0.0 && r[u].firstIndexed == now && r[u].lastScored == now
            && exists i :: 0 <= i < |accepted| && accepted[i].uri == u && r[u].cid == accepted[i].cid)
  {
    var rows := NewRows(accepted, now);
    var d := WithoutUris(t, deletes);
    var r := InsertOrIgnore(d, rows);
    forall u | u in r && u !in d
      ensures r[u].uri == u && r[u].score == 0.0 && r[u].firstIndexed == now && r[u].lastScored == now
      ensures exists i :: 0 <= i < |accepted| && accepted[i].uri == u && r[u].cid == accepted[i].cid
    {
      InsertOrIgnoreTakesFirst(d, rows, u);
      var i :| FirstWithUri(rows, u, i) && r[u] == rows[i];
      assert accepted[i].uri == u;
    }
    forall i | 0 <= i < |accepted|
      ensures accepted[i].uri in r
    {
      assert rows[i].uri == accepted[i].uri;
    }
    forall u | u in r
      ensures (u in t && u !in deletes) || exists i :: 0 <= i < |accepted| && accepted[i].uri == u
    {
      if u !in d {
        var i :| 0 <= i < |rows| && rows[i].uri == u;
        assert accepted[i].uri == u;
      }
    }
  }

  /** A commit keeps the table consistent. */
  lemma CommitKeepsConsistent(t: Table, deletes: seq<string>, accepted: seq<CreateOp>, now: int)
    requires Consistent(t)
    ensures Consistent(ApplyCommit(t, deletes, accepted, now))
  {
    InsertOrIgnoreKeepsConsistent(WithoutUris(t, deletes), NewRows(accepted, now));
  }

  /** The subscription object: its post counter, its keyword policy and the shared `post` table. */
  class FirehoseSubscription {
    const db: PostTable
    var count: nat
    var settings: Settings
    var keywords: seq<string>
    var negativeKeywords: seq<string>
    var settingsLastUpdated: int

    ghost predicate Valid()
      reads this, db
    {
      count <= MAX_POSTS && db.Valid()
    }

    constructor (db: PostTable, loaded: Settings, now: int)
      requires db.Valid()
      ensures Valid() && this.db == db && count == 0
      ensures settings == loaded && keywords == loaded.keywords && negativeKeywords == loaded.negativeKeywords
      ensures settingsLastUpdated == now
    {
      this.db := db;
      count := 0;
      settings := loaded;
      keywords := loaded.keywords;
      negativeKeywords := loaded.negativeKeywords;
      settingsLastUpdated := now;
    }

    /** Replaces the keyword policy with `loaded` and records the reload time. */
    method UpdateSettings(loaded: Settings, now: int)
      modifies this`settings, this`keywords, this`negativeKeywords, this`settingsLastUpdated
      ensures settingsLastUpdated == now && settings == loaded
      ensures keywords == loaded.keywords && negativeKeywords == loaded.negativeKeywords
    {
      settingsLastUpdated := now;
      settings := loaded;
      keywords := settings.keywords;
      negativeKeywords := settings.negativeKeywords;
    }

    /** The filter callback over the creations, bumping the counter for each creation it keeps. */
    method FilterCreates(creates: seq<CreateOp>) returns (accepted: seq<CreateOp>)
      modifies this`count
      ensures Admit(creates, old(count), keywords, negativeKeywords) == Admission(accepted, count)
    {
      accepted := [];
      var i := 0;
      while i < |creates|
        invariant 0 <= i <= |creates|
        invariant Admit(creates, old(count), keywords, negativeKeywords)
               == Admission(accepted + Admit(creates[i..], count, keywords, negativeKeywords).accepted,
                            Admit(creates[i..], count, keywords, negativeKeywords).count)
      {
        assert creates[i..][1..] == creates[i + 1..];
        var matched := Matched(creates[i], count, keywords, negativeKeywords);
        if matched {
          count := count + 1;
          accepted := accepted + [creates[i]];
        }
        i := i + 1;
      }
    }

    /**
     * Handles one event: reload the settings when they are due, then, for a commit, filter the
     * creations, delete the deleted uris and insert-or-ignore a row per kept creation.
     */
    method HandleEvent(evt: Event, now: int, loaded: Settings)
      requires Valid()
      modifies this, db
      ensures Valid()
      ensures ReloadDue(old(settingsLastUpdated), now) ==>
        && settingsLastUpdated == now && settings == loaded
        && keywords == loaded.keywords && negativeKeywords == loaded.negativeKeywords
      ensures !ReloadDue(old(settingsLastUpdated), now) ==>
        && settingsLastUpdated == old(settingsLastUpdated) && settings == old(settings)
        && keywords == old(keywords) && negativeKeywords == old(negativeKeywords)
      ensures evt.NotCommit? ==> count == old(count) && db.rows == old(db.rows)
      ensures evt.Commit? ==>
        var a := Admit(evt.creates, old(count), keywords, negativeKeywords);
        && count == a.count
        && db.rows == ApplyCommit(old(db.rows), evt.deletes, a.accepted, now)
    {
      if ReloadDue(settingsLastUpdated, now) {
        UpdateSettings(loaded, now);
      }
      if evt.NotCommit? {
        return;
      }
      var postsToDelete := evt.deletes;
      var accepted := FilterCreates(evt.creates);
      var postsToCreate := NewRows(accepted, now);
      ghost var before := db.rows;
      if |postsToDelete| > 0 {
        db.DeleteWhereUriIn(postsToDelete);
      }
      assert db.rows == WithoutUris(before, postsToDelete);
      if |postsToCreate| > 0 {
        db.InsertOrIgnoreRows(postsToCreate);
      }
    }
  }
}
