/**
 * What the store's operations guarantee together: fresh and distinct ids,
 * where a new record shows up in the listings, what the listings are exactly,
 * and how far referential integrity between posts and threads goes.
 */
module StoreProperties {
  import opened Wrappers
  import opened Types
  import opened StableSort
  import opened Store

  // ---------------------------------------------------------------------------
  // Identifier invariants

  predicate DistinctThreadIds(ts: seq<Thread>) {
    forall i, j :: 0 <= i < j < |ts| ==> ts[i].id != ts[j].id
  }

  predicate DistinctPostIds(ps: seq<Post>) {
    forall i, j :: 0 <= i < j < |ps| ==> ps[i].id != ps[j].id
  }

  /**
   * The shape every database the store itself produces has: in each
   * collection the ids are positive and strictly increase in store order.
   */
  predicate Valid(db: Database) {
    && (forall i :: 0 <= i < |db.threads| ==> db.threads[i].id >= 1)
    && (forall i, j :: 0 <= i < j < |db.threads| ==> db.threads[i].id < db.threads[j].id)
    && (forall i :: 0 <= i < |db.posts| ==> db.posts[i].id >= 1)
    && (forall i, j :: 0 <= i < j < |db.posts| ==> db.posts[i].id < db.posts[j].id)
  }

  lemma EmptyIsValid()
    ensures Valid(EMPTY)
  {
  }

  lemma ValidIdsDistinct(db: Database)
    requires Valid(db)
    ensures DistinctThreadIds(db.threads) && DistinctPostIds(db.posts)
  {
  }

  /** A thread insert never duplicates a thread id, whatever the database holds. */
  lemma InsertThreadKeepsIdsDistinct(db: Database, title: string, author: string, category: string,
                                     imagePath: Option<string>, now: nat)
    requires DistinctThreadIds(db.threads)
    ensures DistinctThreadIds(InsertThread(db, title, author, category, imagePath, now).db.threads)
  {
    var r := InsertThread(db, title, author, category, imagePath, now);
    assert r.db.threads == db.threads + [r.db.threads[|db.threads|]];
  }

  /** A post insert never duplicates a post id, whatever the database holds. */
  lemma InsertPostKeepsIdsDistinct(db: Database, threadId: int, author: string, body: string,
                                   imagePath: Option<string>, now: nat)
    requires DistinctPostIds(db.posts)
    ensures DistinctPostIds(InsertPost(db, threadId, author, body, imagePath, now).db.posts)
  {
    var r := InsertPost(db, threadId, author, body, imagePath, now);
    assert r.db.posts == db.posts + [r.db.posts[|db.posts|]];
  }

  /** A thread insert keeps the database valid. */
  lemma InsertThreadPreservesValid(db: Database, title: string, author: string, category: string,
                                   imagePath: Option<string>, now: nat)
    requires Valid(db)
    ensures Valid(InsertThread(db, title, author, category, imagePath, now).db)
  {
    var r := InsertThread(db, title, author, category, imagePath, now);
    assert r.db.threads == db.threads + [r.db.threads[|db.threads|]];
    if |db.threads| > 0 {
      assert db.threads[0].id < r.lastInsertRowid;
    }
  }

  /** A post insert keeps the database valid. */
  lemma InsertPostPreservesValid(db: Database, threadId: int, author: string, body: string,
                                 imagePath: Option<string>, now: nat)
    requires Valid(db)
    ensures Valid(InsertPost(db, threadId, author, body, imagePath, now).db)
  {
    var r := InsertPost(db, threadId, author, body, imagePath, now);
    assert r.db.posts == db.posts + [r.db.posts[|db.posts|]];
    if |db.posts| > 0 {
      assert db.posts[0].id < r.lastInsertRowid;
    }
  }

  /** Every statement `run` executes keeps the database valid. */
  lemma RunPreservesValid(db: Database, c: Command, now: nat)
    requires Valid(db)
    ensures Valid(Run(db, c, now).db)
  {
    match c
    case InsertThreadRow(title, author, category, imagePath) =>
      InsertThreadPreservesValid(db, title, author, category, imagePath, now);
    case InsertPostRow(threadId, author, body, imagePath) =>
      InsertPostPreservesValid(db, threadId, author, body, imagePath, now);
    case UnknownCommand =>
  }

  /**
   * The two counters are separate: a thread's id depends only on the threads,
   * and a post's id only on the posts (of every thread, not just its own).
   */
  lemma IdsAllocatedIndependently(ts: seq<Thread>, ps: seq<Post>, ts': seq<Thread>, ps': seq<Post>,
                                  title: string, author: string, category: string, threadId: int,
                                  body: string, imagePath: Option<string>, now: nat, now': nat)
    ensures InsertThread(Database(ts, ps), title, author, category, imagePath, now).lastInsertRowid
         == InsertThread(Database(ts, ps'), title, author, category, imagePath, now').lastInsertRowid
    ensures InsertPost(Database(ts, ps), threadId, author, body, imagePath, now).lastInsertRowid
         == InsertPost(Database(ts', ps), threadId, author, body, imagePath, now').lastInsertRowid
  {
  }

  // ---------------------------------------------------------------------------
  // Reading back what was written

  /** Looking up the reported row id finds the thread just appended, whatever the database held. */
  lemma InsertedThreadFound(db: Database, title: string, author: string, category: string,
                            imagePath: Option<string>, now: nat)
    ensures var r := InsertThread(db, title, author, category, imagePath, now);
      GetThread(r.db, r.lastInsertRowid) == Some(r.db.threads[|db.threads|])
  {
    var r := InsertThread(db, title, author, category, imagePath, now);
    var found := GetThread(r.db, r.lastInsertRowid);
    assert r.db.threads[|db.threads|].id == r.lastInsertRowid;
    if found.Some? {
      var i :| 0 <= i < |r.db.threads| && r.db.threads[i] == found.value && found.value.id == r.lastInsertRowid
               && forall j :: 0 <= j < i ==> r.db.threads[j].id != r.lastInsertRowid;
    }
  }

  /**
   * A thread created later than every stored thread heads every listing it
   * belongs to; the listings it does not belong to are unchanged.
   */
  lemma NewThreadListedFirst(db: Database, title: string, author: string, category: string,
                             imagePath: Option<string>, now: nat, filter: Option<string>)
    requires forall i :: 0 <= i < |db.threads| ==> db.threads[i].createdAt < now
    ensures var r := InsertThread(db, title, author, category, imagePath, now);
      var t := r.db.threads[|db.threads|];
      ListThreads(r.db, filter)
        == if InCategory(t, filter) then [t] + ListThreads(db, filter) else ListThreads(db, filter)
  {
    var r := InsertThread(db, title, author, category, imagePath, now);
    var t := r.db.threads[|db.threads|];
    assert r.db.threads == db.threads + [t];
    var keep := (t: Thread) => InCategory(t, filter);
    SelectConcat(db.threads, [t], keep);
    var before := Matching(db.threads, filter);
    if InCategory(t, filter) {
      assert Matching(r.db.threads, filter) == before + [t];
      forall i | 0 <= i < |before| ensures NewestFirst(t) < NewestFirst(before[i]) {
        SelectCount(db.threads, keep, before[i]);
      }
      SortAppendFirst(before, t, NewestFirst);
    } else {
      assert Matching(r.db.threads, filter) == before;
    }
  }

  /**
   * A post created no earlier than every stored post ends the listing of its
   * thread; the listings of other threads are unchanged.
   */
  lemma NewPostListedLast(db: Database, threadId: int, author: string, body: string,
                          imagePath: Option<string>, now: nat, listed: int)
    requires forall i :: 0 <= i < |db.posts| ==> db.posts[i].createdAt <= now
    ensures var r := InsertPost(db, threadId, author, body, imagePath, now);
      var p := r.db.posts[|db.posts|];
      ListPosts(r.db, listed)
        == if listed == threadId then ListPosts(db, listed) + [p] else ListPosts(db, listed)
  {
    var r := InsertPost(db, threadId, author, body, imagePath, now);
    var p := r.db.posts[|db.posts|];
    assert r.db.posts == db.posts + [p];
    SelectConcat(db.posts, [p], OfThread(listed));
    var before := Select(db.posts, OfThread(listed));
    if listed == threadId {
      assert Select(r.db.posts, OfThread(listed)) == before + [p];
      forall i | 0 <= i < |before| ensures OldestFirst(before[i]) <= OldestFirst(p) {
        SelectCount(db.posts, OfThread(listed), before[i]);
      }
      SortAppendLast(before, p, OldestFirst);
    } else {
      assert Select(r.db.posts, OfThread(listed)) == before;
    }
  }

  // ---------------------------------------------------------------------------
  // The listings, characterised

  /**
   * The thread listing is the one newest-first arrangement of the matching
   * threads that keeps same-instant threads in store order.
   */
  lemma ListThreadsCharacterised(db: Database, filter: Option<string>, r: seq<Thread>)
    ensures r == ListThreads(db, filter)
        <==> (forall i, j :: 0 <= i < j < |r| ==> r[i].createdAt >= r[j].createdAt)
             && SameTies(r, Matching(db.threads, filter), NewestFirst)
  {
    SortCharacterised(Matching(db.threads, filter), r, NewestFirst);
    assert Ascending(r, NewestFirst) <==> forall i, j :: 0 <= i < j < |r| ==> r[i].createdAt >= r[j].createdAt;
  }

  /**
   * The post listing is the one oldest-first arrangement of the thread's
   * posts that keeps same-instant posts in store order.
   */
  lemma ListPostsCharacterised(db: Database, threadId: int, r: seq<Post>)
    ensures r == ListPosts(db, threadId)
        <==> (forall i, j :: 0 <= i < j < |r| ==> r[i].createdAt <= r[j].createdAt)
             && SameTies(r, Select(db.posts, OfThread(threadId)), OldestFirst)
  {
    SortCharacterised(Select(db.posts, OfThread(threadId)), r, OldestFirst);
    assert Ascending(r, OldestFirst) <==> forall i, j :: 0 <= i < j < |r| ==> r[i].createdAt <= r[j].createdAt;
  }

  // ---------------------------------------------------------------------------
  // Referential integrity between posts and threads

  /** Every post names the id of a stored thread. */
  predicate Intact(db: Database) {
    forall i :: 0 <= i < |db.posts| ==> db.posts[i].threadId in ThreadIds(db.threads)
  }

  /** Creating a thread never breaks referential integrity. */
  lemma InsertThreadKeepsIntact(db: Database, title: string, author: string, category: string,
                                imagePath: Option<string>, now: nat)
    requires Intact(db)
    ensures Intact(InsertThread(db, title, author, category, imagePath, now).db)
  {
    var r := InsertThread(db, title, author, category, imagePath, now);
    assert ThreadIds(r.db.threads) == ThreadIds(db.threads) + [r.lastInsertRowid];
  }

  /**
   * The store accepts a post for any thread id: integrity survives a post
   * insert exactly when the named thread exists, and nothing checks that.
   */
  lemma InsertPostIntactIff(db: Database, threadId: int, author: string, body: string,
                            imagePath: Option<string>, now: nat)
    requires Intact(db)
    ensures Intact(InsertPost(db, threadId, author, body, imagePath, now).db)
        <==> threadId in ThreadIds(db.threads)
  {
    var r := InsertPost(db, threadId, author, body, imagePath, now);
    assert r.db.posts[|db.posts|].threadId == threadId;
  }

  /** In an intact database a thread id that no thread has lists no posts. */
  lemma MissingThreadHasNoPosts(db: Database, threadId: int)
    requires Intact(db) && threadId !in ThreadIds(db.threads)
    ensures ListPosts(db, threadId) == []
  {
    ListPostsEmpty(db, threadId);
  }

  /** A reply to a thread that does not exist is stored and then listed under that id. */
  lemma DanglingPostAccepted()
    ensures var r := InsertPost(EMPTY, 7, "名無しさん", "hi", None, 0);
      && r.lastInsertRowid == 1
      && !Intact(r.db)
      && ListPosts(r.db, 7) == [Post(1, 7, "名無しさん", "hi", None, 0)]
  {
    var r := InsertPost(EMPTY, 7, "名無しさん", "hi", None, 0);
    NewPostListedLast(EMPTY, 7, "名無しさん", "hi", None, 0, 7);
    assert ListPosts(EMPTY, 7) == [];
  }

  /** Statements outside the recognised ones read nothing and write nothing. */
  lemma UnknownStatementsInert(db: Database, now: nat)
    ensures All(db, UnknownQuery) == NoRows
    ensures Get(db, UnknownLookup) == None
    ensures Run(db, UnknownCommand, now) == RunResult(db, 0)
  {
  }
}
