# anon-bbs: the flat-file store and the thread handler, in Dafny

This project models the core of anon-bbs, an anonymous bulletin board. Clients open threads in one of three
categories and reply to them with posts. The model covers three parts:

- **The record model** (`lib/types.ts`): the three-value `Category` with its Japanese labels, the
  `CATEGORIES` list, and the `Thread` and `Post` records (module `Types`).
- **The flat-file store** (`lib/db.ts`): one JSON file holding a `threads` and a `posts` collection.
  - The store answers a small set of SQL texts through `prepare(sql).all/get/run`.
  - The model replaces that text matching with one operation per branch, plus the fall-through of each
    entry point (module `Store`).
  - The database is a value: a read computes its rows from it, and a write returns the database that
    would be written back.
  - Timestamps are natural numbers (milliseconds since the epoch) supplied by the caller.
- **The `/api/threads` handler** (`pages/api/threads/index.ts`), module `ThreadsApi`:
  - GET lists threads, filtered by the `category` query parameter unless it is absent, empty or `all`.
  - POST trims and validates the title, checks that a category is present, and defaults a blank
    author to `名無しさん`. It drops an empty image path, inserts the thread, and answers 201 with
    the row read back under the new id.
  - Every other method gets 405 with `Allow: GET, POST`.

Supporting modules:

- `Wrappers` defines `Option`.
- `JsText` models `String.prototype.trim` with the full ECMAScript WhiteSpace and LineTerminator set.
- `StableSort` holds the two list operations the store applies:
  - `Array.prototype.filter`, as `Select`;
  - `Array.prototype.sort`, which ECMAScript requires to be stable since its 2019 edition, as an
    insertion sort by an integer rank. Threads are ranked `-createdAt` and posts `createdAt`.

Properties are stated in `StoreProperties`, `ThreadsApiProperties` and `ThreadCreation`.
`ThreadExamples` states, as lemmas, the model's answer to four concrete requests and the trim of one concrete title.

Three places where the code does less than its own declarations suggest; the model follows the code:

- **Category values are not checked.** `Thread.category` and the handler's body type are declared as
  `Category` (`lib/types.ts:8`, `pages/api/threads/index.ts:28`), but that type is erased at run time and the
  handler only checks that a category is present (`pages/api/threads/index.ts:36`). So `Thread.category` is
  a raw string here, and `UnknownCategoryStored` shows that `"not-a-real-category"` is stored.
- **Dangling posts are accepted.** The relational schema declares `thread_id ... REFERENCES threads(id)`
  (`scripts/setup-db.js:26`), but the flat-file store's post insert does not check that the thread exists
  (`lib/db.ts:93-105`). `InsertPostIntactIff` and `DanglingPostAccepted` show a post for a missing thread
  being stored and then listed under that id.
- **An empty image path is stored as absent.** The handler passes `image_path || null`
  (`pages/api/threads/index.ts:45`), and both inserts store `image_path || undefined` (`lib/db.ts:85`,
  `lib/db.ts:100`). An empty string therefore never reaches the store; `Store.StoredImage` states the rule.

## Model

| member | source | states |
|---|---|---|
| Types.ParseCategory | lib/types.ts:2 | a label names a category exactly when it is one of the three labels, and then it names the one whose label it is |
| Types.LabelRoundTrip | lib/types.ts:2 | every category is recovered from its label, so the three labels are distinct |
| Types.CategoriesListsEachOnce | lib/types.ts:22 | `CATEGORIES` holds each category exactly once, in the order 雑談, ニュース, プログラミング |
| JsText.Trim | pages/api/threads/index.ts:32 | the trim of `s` is the infix left after the leading blanks; only blanks precede and follow it; it starts and ends with a non-blank; it is empty exactly when `s` is blank |
| JsText.TrimPadded | pages/api/threads/index.ts:40 | blanks, then a part that is empty or has non-blank ends, then blanks, trim to exactly that part |
| JsText.TrimIdempotent | pages/api/threads/index.ts:45 | trimming an already trimmed string changes nothing |
| StableSort.SelectCount | lib/db.ts:45 | filtering keeps every occurrence of a kept value and no other value |
| StableSort.SortCharacterised | lib/db.ts:49-51 | a sequence is the stable sort of `s` exactly when it is ascending by rank and keeps each class of equal-rank elements in its order in `s` |
| Store.MaxId | lib/db.ts:81 | `Math.max` over a non-empty id list returns one of the ids, and no id exceeds it |
| Store.NextId | lib/db.ts:81 | the new id is above every existing id, is 1 for an empty collection, and otherwise is one more than an existing id |
| Store.ListThreads | lib/db.ts:40-51 | the thread list is ordered newest first, and threads created at the same instant stay in store order |
| Store.ListThreadsContents | lib/db.ts:43-46 | the thread list holds exactly the stored threads that pass the category filter, each as often as stored |
| StoreProperties.ListThreadsCharacterised | lib/db.ts:40-51 | the thread list is the only newest-first arrangement of the matching threads that keeps same-instant threads in store order |
| Store.ListPosts | lib/db.ts:54-60 | the post list is ordered oldest first, and posts created at the same instant stay in store order |
| Store.ListPostsContents | lib/db.ts:56-57 | the post list holds exactly the stored posts carrying the thread id, each as often as stored |
| Store.ListPostsEmpty | lib/db.ts:54-60 | the post list is empty exactly when no stored post carries the thread id |
| StoreProperties.ListPostsCharacterised | lib/db.ts:54-60 | the post list is the only oldest-first arrangement of the thread's posts that keeps same-instant posts in store order |
| Store.FindThread | lib/db.ts:70 | `find` returns the first thread with the id, and returns nothing exactly when no thread has it |
| Store.Get | lib/db.ts:65-74 | a lookup by id returns a stored thread with that id, and returns nothing exactly when no thread has the id; any other statement returns nothing |
| Store.All | lib/db.ts:36-64 | the unfiltered thread statement returns every stored thread, the filtered one exactly those whose category equals the argument, each as often as stored, newest first with same-instant threads in store order; the post statement returns exactly the posts carrying the thread id, each as often as stored, oldest first with same-instant posts in store order; any other statement returns no rows |
| Store.StoredImage | lib/db.ts:85 | an image path argument is stored as absent exactly when it is absent or empty, and verbatim otherwise |
| Store.InsertThread | lib/db.ts:78-91 | appends exactly one thread carrying the given fields and `now`, with an empty image path stored as absent and any other path verbatim; reports the new id, which is above every old id; leaves the posts alone |
| Store.InsertPost | lib/db.ts:93-106 | appends exactly one post carrying the given fields and `now`, for any thread id, with the same image rule; reports the new id, which is above every old post id of any thread; leaves the threads alone |
| Store.Run | lib/db.ts:75-109 | a thread insert appends one thread and leaves the posts alone, a post insert appends one post and leaves the threads alone, each reporting the new record's id, which is above every old id of its collection; any other statement writes nothing and reports row 0 |
| StoreProperties.UnknownStatementsInert | lib/db.ts:108 | an unrecognised statement returns no rows from `all`, nothing from `get`, and row 0 from `run`, and writes nothing |
| StoreProperties.EmptyIsValid | lib/db.ts:15-18 | the initial empty database has positive, strictly increasing ids |
| StoreProperties.ValidIdsDistinct | lib/db.ts:81 | positive, strictly increasing ids are pairwise distinct |
| StoreProperties.InsertThreadKeepsIdsDistinct | lib/db.ts:81 | distinct thread ids stay distinct after a thread insert into any database |
| StoreProperties.InsertPostKeepsIdsDistinct | lib/db.ts:96 | distinct post ids stay distinct after a post insert into any database |
| StoreProperties.InsertThreadPreservesValid | lib/db.ts:81-88 | a thread insert keeps thread ids positive and strictly increasing |
| StoreProperties.InsertPostPreservesValid | lib/db.ts:96-103 | a post insert keeps post ids positive and strictly increasing |
| StoreProperties.RunPreservesValid | lib/db.ts:75-109 | every statement `run` executes keeps the database valid |
| StoreProperties.IdsAllocatedIndependently | lib/db.ts:96 | a thread's id depends only on the threads, and a post's id only on the posts of all threads |
| StoreProperties.InsertedThreadFound | lib/db.ts:90 | looking up the reported row id finds exactly the thread just appended |
| StoreProperties.NewThreadListedFirst | lib/db.ts:49-51 | a thread newer than every stored one heads each listing it matches, and leaves the other listings unchanged |
| StoreProperties.NewPostListedLast | lib/db.ts:56-60 | a post no older than every stored one ends its thread's listing, and leaves other threads' listings unchanged |
| StoreProperties.InsertThreadKeepsIntact | lib/db.ts:78-91 | a thread insert never leaves a post without its thread |
| StoreProperties.InsertPostIntactIff | lib/db.ts:93-103 | after a post insert, every post still names a stored thread exactly when the new post's thread exists; nothing checks this |
| StoreProperties.MissingThreadHasNoPosts | lib/db.ts:54-60 | when every post names a stored thread, a thread id that no thread has lists no posts |
| StoreProperties.DanglingPostAccepted | lib/db.ts:93-105 | a reply to thread 7 in an empty store is stored with id 1 and listed under thread 7 |
| ThreadsApi.ListQuery | pages/api/threads/index.ts:13-19 | a GET filters by category exactly when the parameter is present, not empty and not `all`, and then by the parameter's value |
| ThreadsApi.AuthorOrDefault | pages/api/threads/index.ts:40 | the stored author is never empty and is already trimmed; it is the trimmed name when that is not blank, and otherwise the placeholder |
| ThreadsApi.NewThreadRow | pages/api/threads/index.ts:40-45 | the insert a valid POST runs carries the sent title trimmed, which is empty only for a blank title, the author as `AuthorOrDefault` normalises it (never empty, already trimmed), the category as sent, and the image path unless it is absent or empty |
| ThreadsApi.List | pages/api/threads/index.ts:7-21 | a GET answers 200 with the stored threads newest first, each as often as stored, dropping those of another category only when the parameter is present, not empty and not `all`; it writes nothing |
| ThreadsApi.Create | pages/api/threads/index.ts:24-52 | a POST answers 201 or 400; a 400 writes nothing; a 201 appends exactly one thread and leaves the posts and the old threads alone |
| ThreadsApi.Handle | pages/api/threads/index.ts:6-56 | the handler answers 200, 201, 400 or 405; only a 201 writes, and it appends exactly one thread |
| ThreadsApiProperties.GetListsThreads | pages/api/threads/index.ts:7-21 | GET answers 200 with the thread listing, unfiltered when the parameter is absent, empty or `all` and otherwise holding exactly the threads of that category, and writes nothing |
| ThreadsApiProperties.BlankTitleRejected | pages/api/threads/index.ts:32-34 | a missing or blank title gets 400 `タイトルは必須です` and no write, whatever the other fields hold |
| ThreadsApiProperties.MissingCategoryRejected | pages/api/threads/index.ts:36-38 | with a usable title, an absent or empty category gets 400 `カテゴリは必須です` and no write |
| ThreadsApiProperties.CreateAnswersInsertedThread | pages/api/threads/index.ts:42-51 | a valid POST answers 201 with the row its insert appended, read back by the reported id, and leaves that insert's database |
| ThreadsApiProperties.HandleDispatch | pages/api/threads/index.ts:54-55 | GET is the listing and POST is the creation; any other method gets 405 `Method Not Allowed` with `Allow: GET, POST` and writes nothing |
| ThreadsApiProperties.HandlePreservesValid | pages/api/threads/index.ts:6-56 | every request leaves a valid database valid |
| ThreadsApiProperties.HandleKeepsIntact | pages/api/threads/index.ts:24-52 | no request to the thread handler breaks the post-to-thread references |
| ThreadCreation.CreateThreadStored | pages/api/threads/index.ts:40-51 | a valid POST stores and answers one thread with the trimmed non-empty title, the normalised author, the category string as sent, the image path unless it is empty, and `now` |
| ThreadCreation.CreatedThreadIdFresh | lib/db.ts:81 | the created thread's id is above every stored thread id |
| ThreadCreation.BlankAuthorDefaulted | pages/api/threads/index.ts:40 | a missing or blank author is stored as `名無しさん` |
| ThreadCreation.CreatedThreadListedFirst | pages/api/threads/index.ts:17-18 | a thread created after every stored one heads the next unfiltered listing, which has one more entry |
| ThreadCreation.UnfilteredMatchesAll | lib/db.ts:40-46 | without a category filter, every stored thread is selected, in store order |
| ThreadExamples.EmptyTitleExample | pages/api/threads/index.ts:32-33 | a POST with title "" gets 400 even with a valid category |
| ThreadExamples.DefaultAuthorExample | pages/api/threads/index.ts:40 | an ideographic space as author counts as blank, and the placeholder is stored |
| ThreadExamples.TrimExample | pages/api/threads/index.ts:45 | `" Hello "` trims to `"Hello"` |
| ThreadExamples.TrimmedTitleStored | pages/api/threads/index.ts:45-51 | a POST titled `" Hello "` into the empty store answers 201 and stores, and answers with, the one thread titled `"Hello"` |
| ThreadExamples.UnknownCategoryStored | pages/api/threads/index.ts:36-38 | a category that names none of the three is accepted: the stored thread carries the string as sent, and the 201 answer is that stored thread |

## Left out

- File persistence (`lib/db.ts:13-31`): the existence check, reading, writing and JSON (de)serialisation.
  The database is a value passed in and returned. A read returns rows and no database, so a read cannot
  write.
- The clock and date parsing. `new Date().toISOString()` becomes the `now` parameter. The sort keys
  `new Date(created_at).getTime()` become the natural number `createdAt`. Unparseable dates, which
  would compare as `NaN`, do not arise in the model.
- Concurrency. The read-modify-write cycle of each write is atomic in the model, so the lost update
  between two concurrent inserts is not represented.
- The SQL text matching itself (`sql.includes(...)`). Each recognised statement is a constructor of
  `Query`, `Lookup` or `Command`, and every other text is the `Unknown*` constructor. Parameters of the
  wrong statement kind, such as `run` with a thread statement and post parameters, cannot be expressed.
- JavaScript number semantics for ids. Ids are unbounded integers, so precision loss above 2^53 is not
  modelled. The engine's argument limit on `Math.max(...ids)` for very large collections is not
  modelled either.
- Non-string request values: a repeated query parameter (an array) and JSON bodies whose fields are not
  strings. Each field is modelled as a string that may be absent.
- The HTTP response as bytes. Status, the `Allow` header and the body kind are modelled; the JSON text is not.
- `pages/api/upload.ts`, `scripts/setup-db.js`, `pages/index.tsx`, `components/layout/MainLayout.tsx`,
  `pages/threads/[id].tsx` and `pages/api/posts/[threadId].ts`. These are the upload plumbing, the
  relational schema, the UI, and the post routes, whose request validation is not part of this model.
  The store-level post insert and post list that those routes call are modelled.
