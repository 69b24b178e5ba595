/**
 * The flat-file store: the whole database is one value holding the `threads`
 * and `posts` collections. Reads compute a result from that value; writes
 * return the value that would be written back to the file. Each branch of the
 * store's query-text dispatch is one explicit operation here.
 */
module Store {
  import opened Wrappers
  import opened Types
  import opened StableSort

  datatype Database = Database(threads: seq<Thread>, posts: seq<Post>)

  /** What an insert reports, together with the database it leaves behind. */
  datatype RunResult = RunResult(db: Database, lastInsertRowid: int)

  /** The contents the database file is created with when it does not exist. */
  const EMPTY: Database := Database([], [])

  // ---------------------------------------------------------------------------
  // Identifiers

  /** The ids of a collection, in store order (`map(r => r.id)`). */
  function Ids<T>(s: seq<T>, id: T -> int): (ids: seq<int>)
    ensures |ids| == |s| && forall i :: 0 <= i < |s| ==> ids[i] == id(s[i])
  {
    seq(|s|, i requires 0 <= i < |s| => id(s[i]))
  }

  function ThreadIds(ts: seq<Thread>): seq<int> {
    Ids(ts, (t: Thread) => t.id)
  }

  function PostIds(ps: seq<Post>): seq<int> {
    Ids(ps, (p: Post) => p.id)
  }

  /** The largest of a non-empty list of ids (`Math.max`). */
  function MaxId(ids: seq<int>): (m: int)
    requires |ids| > 0
    ensures m in ids
    ensures forall i :: 0 <= i < |ids| ==> ids[i] <= m
  {
    if |ids| == 1 then ids[0]
    else
      var rest := MaxId(ids[1..]);
      if ids[0] >= rest then ids[0] else rest
  }

  /**
   * The id a new record receives: one more than the largest existing id, or 1
   * when there is none. So it is the least integer above every existing id.
   */
  function NextId(ids: seq<int>): (r: int)
    ensures forall i :: 0 <= i < |ids| ==> ids[i] < r
    ensures |ids| == 0 ==> r == 1
    ensures |ids| > 0 ==> r - 1 in ids
  {
    if |ids| > 0 then MaxId(ids) + 1 else 1
  }

  /** The stored form of an `image_path` argument: an empty path is no path. */
  function StoredImage(imagePath: Option<string>): (r: Option<string>)
    ensures r.None? <==> imagePath.None? || imagePath.value == ""
    ensures r.Some? ==> r == imagePath
  {
    if imagePath.Some? && imagePath.value != "" then imagePath else None
  }

  // ---------------------------------------------------------------------------
  // Reads

  /** `t` passes the optional category filter (exact string equality). */
  predicate InCategory(t: Thread, category: Option<string>) {
    category.None? || t.category == category.value
  }

  /** The threads that pass the filter, in store order. */
  function Matching(ts: seq<Thread>, category: Option<string>): seq<Thread> {
    Select(ts, (t: Thread) => InCategory(t, category))
  }

  /** Sort rank putting the newest thread first. */
  function NewestFirst(t: Thread): int {
    -(t.createdAt as int)
  }

  /** Sort rank putting the oldest post first. */
  function OldestFirst(p: Post): int {
    p.createdAt
  }

  /**
   * The thread list, optionally restricted to one category, newest first;
   * threads created at the same instant stay in store order.
   */
  function ListThreads(db: Database, category: Option<string>): (r: seq<Thread>)
    ensures forall i, j :: 0 <= i < j < |r| ==> r[i].createdAt >= r[j].createdAt
    ensures SameTies(r, Matching(db.threads, category), NewestFirst)
  {
    var r := Sort(Matching(db.threads, category), NewestFirst);
    assert forall i, j :: 0 <= i < j < |r| ==> NewestFirst(r[i]) <= NewestFirst(r[j]);
    r
  }

  /** The thread list holds exactly the matching threads, each as often as the store does. */
  lemma ListThreadsContents(db: Database, category: Option<string>, t: Thread)
    ensures multiset(ListThreads(db, category))[t]
         == if InCategory(t, category) then multiset(db.threads)[t] else 0
    ensures t in ListThreads(db, category) <==> t in db.threads && InCategory(t, category)
  {
    var matching := Matching(db.threads, category);
    SelectCount(db.threads, (t: Thread) => InCategory(t, category), t);
    assert multiset(ListThreads(db, category)) == multiset(matching);
  }

  /** Predicate selecting the posts of one thread. */
  function OfThread(threadId: int): Post -> bool {
    (p: Post) => p.threadId == threadId
  }

  /** The posts with the given thread id, oldest first; same-instant posts stay in store order. */
  function ListPosts(db: Database, threadId: int): (r: seq<Post>)
    ensures forall i, j :: 0 <= i < j < |r| ==> r[i].createdAt <= r[j].createdAt
    ensures SameTies(r, Select(db.posts, OfThread(threadId)), OldestFirst)
  {
    var r := Sort(Select(db.posts, OfThread(threadId)), OldestFirst);
    assert forall i, j :: 0 <= i < j < |r| ==> OldestFirst(r[i]) <= OldestFirst(r[j]);
    r
  }

  /** The post list holds exactly the posts carrying the thread id, each as often as the store does. */
  lemma ListPostsContents(db: Database, threadId: int, p: Post)
    ensures multiset(ListPosts(db, threadId))[p]
         == if p.threadId == threadId then multiset(db.posts)[p] else 0
    ensures p in ListPosts(db, threadId) <==> p in db.posts && p.threadId == threadId
  {
    SelectCount(db.posts, OfThread(threadId), p);
    assert multiset(ListPosts(db, threadId)) == multiset(Select(db.posts, OfThread(threadId)));
  }

  /** The post list is empty exactly when no stored post carries the thread id. */
  lemma ListPostsEmpty(db: Database, threadId: int)
    ensures ListPosts(db, threadId) == [] <==> forall i :: 0 <= i < |db.posts| ==> db.posts[i].threadId != threadId
  {
    var r := ListPosts(db, threadId);
    if r != [] {
      ListPostsContents(db, threadId, r[0]);
    } else {
      forall i | 0 <= i < |db.posts| ensures db.posts[i].threadId != threadId {
        ListPostsContents(db, threadId, db.posts[i]);
      }
    }
  }

  /** The first thread with the given id (`Array.prototype.find`), or none. */
  function FindThread(ts: seq<Thread>, id: int): (r: Option<Thread>)
    ensures r.None? <==> forall i :: 0 <= i < |ts| ==> ts[i].id != id
    ensures r.Some? ==> exists i :: 0 <= i < |ts| && ts[i] == r.value && r.value.id == id
                                    && forall j :: 0 <= j < i ==> ts[j].id != id
  {
    if |ts| == 0 then None
    else if ts[0].id == id then
      Some(ts[0])
    else
      var r := FindThread(ts[1..], id);
      if r.Some? then
        var i :| 0 <= i < |ts[1..]| && ts[1..][i] == r.value && r.value.id == id
                 && forall j :: 0 <= j < i ==> ts[1..][j].id != id;
        assert ts[i + 1] == r.value;
        r
      else
        r
  }

  function GetThread(db: Database, id: int): Option<Thread> {
    FindThread(db.threads, id)
  }

  // ---------------------------------------------------------------------------
  // Writes

  /**
   * Appends a new thread stamped `now` whose id is one above the largest
   * thread id; the posts are untouched.
   */
  function InsertThread(db: Database, title: string, author: string, category: string,
                        imagePath: Option<string>, now: nat): (r: RunResult)
    ensures r.db.posts == db.posts
    ensures |r.db.threads| == |db.threads| + 1 && r.db.threads[..|db.threads|] == db.threads
    ensures var t := r.db.threads[|db.threads|];
      && t.id == r.lastInsertRowid
      && t.title == title && t.author == author && t.category == category && t.createdAt == now
      && (t.imagePath.None? <==> imagePath.None? || imagePath.value == "")
      && (t.imagePath.Some? ==> t.imagePath == imagePath)
    ensures forall i :: 0 <= i < |db.threads| ==> db.threads[i].id < r.lastInsertRowid
    ensures |db.threads| == 0 ==> r.lastInsertRowid == 1
    ensures |db.threads| > 0 ==> r.lastInsertRowid - 1 in ThreadIds(db.threads)
  {
    var id := NextId(ThreadIds(db.threads));
    var t := Thread(id, title, author, category, StoredImage(imagePath), now);
    assert (db.threads + [t])[..|db.threads|] == db.threads;
    RunResult(Database(db.threads + [t], db.posts), id)
  }

  /**
   * Appends a new post stamped `now` whose id is one above the largest post
   * id over all threads; `threadId` is stored as given, whether or not such a
   * thread exists. The threads are untouched.
   */
  function InsertPost(db: Database, threadId: int, author: string, body: string,
                      imagePath: Option<string>, now: nat): (r: RunResult)
    ensures r.db.threads == db.threads
    ensures |r.db.posts| == |db.posts| + 1 && r.db.posts[..|db.posts|] == db.posts
    ensures var p := r.db.posts[|db.posts|];
      && p.id == r.lastInsertRowid
      && p.threadId == threadId && p.author == author && p.body == body && p.createdAt == now
      && (p.imagePath.None? <==> imagePath.None? || imagePath.value == "")
      && (p.imagePath.Some? ==> p.imagePath == imagePath)
    ensures forall i :: 0 <= i < |db.posts| ==> db.posts[i].id < r.lastInsertRowid
    ensures |db.posts| == 0 ==> r.lastInsertRowid == 1
    ensures |db.posts| > 0 ==> r.lastInsertRowid - 1 in PostIds(db.posts)
  {
    var id := NextId(PostIds(db.posts));
    var p := Post(id, threadId, author, body, StoredImage(imagePath), now);
    assert (db.posts + [p])[..|db.posts|] == db.posts;
    RunResult(Database(db.threads, db.posts + [p]), id)
  }

  // ---------------------------------------------------------------------------
  // The statement interface: `all`, `get` and `run`, each with the statements
  // it recognises and a fall-through for any other statement.

  /** Statements answered by `all`. */
  datatype Query =
    | AllThreads                          // every thread, newest first
    | ThreadsInCategory(category: string) // threads of one category, newest first
    | PostsOfThread(threadId: int)        // posts of one thread, oldest first
    | UnknownQuery

  /** Rows returned by `all`; `NoRows` is the empty list of the fall-through. */
  datatype Rows = ThreadRows(threads: seq<Thread>) | PostRows(posts: seq<Post>) | NoRows

  /** Statements answered by `get`. */
  datatype Lookup = ThreadById(id: int) | UnknownLookup

  /** Statements executed by `run`. */
  datatype Command =
    | InsertThreadRow(title: string, author: string, category: string, imagePath: Option<string>)
    | InsertPostRow(threadId: int, author: string, body: string, imagePath: Option<string>)
    | UnknownCommand

  /**
   * The rows a read statement returns: the matching threads newest first, or
   * the thread's posts oldest first, each record as often as it is stored and
   * same-instant records in store order; no rows for an unknown statement.
   */
  function All(db: Database, q: Query): (r: Rows)
    ensures q.AllThreads? ==>
      && r.ThreadRows?
      && (forall t :: multiset(r.threads)[t] == multiset(db.threads)[t])
      && (forall t :: t in r.threads <==> t in db.threads)
    ensures q.ThreadsInCategory? ==>
      && r.ThreadRows?
      && (forall t :: multiset(r.threads)[t] == if t.category == q.category then multiset(db.threads)[t] else 0)
      && (forall t :: t in r.threads <==> t in db.threads && t.category == q.category)
    ensures r.ThreadRows? ==>
      && (forall i, j :: 0 <= i < j < |r.threads| ==> r.threads[i].createdAt >= r.threads[j].createdAt)
      && SameTies(r.threads, Matching(db.threads, if q.ThreadsInCategory? then Some(q.category) else None), NewestFirst)
    ensures q.PostsOfThread? ==>
      && r.PostRows?
      && (forall p :: multiset(r.posts)[p] == if p.threadId == q.threadId then multiset(db.posts)[p] else 0)
      && (forall p :: p in r.posts <==> p in db.posts && p.threadId == q.threadId)
      && (forall i, j :: 0 <= i < j < |r.posts| ==> r.posts[i].createdAt <= r.posts[j].createdAt)
      && SameTies(r.posts, Select(db.posts, OfThread(q.threadId)), OldestFirst)
    ensures q.UnknownQuery? ==> r == NoRows
  {
    match q
    case AllThreads =>
      forall t ensures multiset(ListThreads(db, None))[t] == multiset(db.threads)[t]
                    && (t in ListThreads(db, None) <==> t in db.threads) {
        ListThreadsContents(db, None, t);
      }
      ThreadRows(ListThreads(db, None))
    case ThreadsInCategory(c) =>
      forall t ensures multiset(ListThreads(db, Some(c)))[t]
                       == (if t.category == c then multiset(db.threads)[t] else 0)
                    && (t in ListThreads(db, Some(c)) <==> t in db.threads && t.category == c) {
        ListThreadsContents(db, Some(c), t);
      }
      ThreadRows(ListThreads(db, Some(c)))
    case PostsOfThread(id) =>
      forall p ensures multiset(ListPosts(db, id))[p] == (if p.threadId == id then multiset(db.posts)[p] else 0)
                    && (p in ListPosts(db, id) <==> p in db.posts && p.threadId == id) {
        ListPostsContents(db, id, p);
      }
      PostRows(ListPosts(db, id))
    case UnknownQuery => NoRows
  }

  /** The thread a lookup finds: the first one with the id, if any; nothing for an unknown statement. */
  function Get(db: Database, l: Lookup): (r: Option<Thread>)
    ensures r.Some? ==> r.value in db.threads && l.ThreadById? && r.value.id == l.id
    ensures l.ThreadById? ==> (r.None? <==> forall i :: 0 <= i < |db.threads| ==> db.threads[i].id != l.id)
  {
    match l
    case ThreadById(id) =>
      var r := GetThread(db, id);
      assert r.Some? ==> r.value in db.threads;
      r
    case UnknownLookup => None
  }

  /**
   * Executes a write stamped `now`: an insert appends one record to its own
   * collection, leaves the other alone and reports the new record's id; an
   * unrecognised statement writes nothing and reports row 0.
   */
  function Run(db: Database, c: Command, now: nat): (r: RunResult)
    ensures c.InsertThreadRow? ==>
      && r.db.posts == db.posts
      && |r.db.threads| == |db.threads| + 1 && r.db.threads[..|db.threads|] == db.threads
      && r.db.threads[|db.threads|].id == r.lastInsertRowid
      && forall i :: 0 <= i < |db.threads| ==> db.threads[i].id < r.lastInsertRowid
    ensures c.InsertPostRow? ==>
      && r.db.threads == db.threads
      && |r.db.posts| == |db.posts| + 1 && r.db.posts[..|db.posts|] == db.posts
      && r.db.posts[|db.posts|].id == r.lastInsertRowid
      && forall i :: 0 <= i < |db.posts| ==> db.posts[i].id < r.lastInsertRowid
    ensures c.UnknownCommand? ==> r == RunResult(db, 0)
  {
    match c
    case InsertThreadRow(title, author, category, imagePath) =>
      InsertThread(db, title, author, category, imagePath, now)
    case InsertPostRow(threadId, author, body, imagePath) =>
      InsertPost(db, threadId, author, body, imagePath, now)
    case UnknownCommand => RunResult(db, 0)
  }
}
