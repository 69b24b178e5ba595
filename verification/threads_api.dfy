/**
 * The `/api/threads` request handler: GET lists threads (optionally by
 * category), POST validates and normalises a new thread, inserts it and
 * answers with the record read back by its new id, and every other method is
 * refused with 405.
 */
module ThreadsApi {
  import opened Wrappers
  import opened Types
  import opened JsText
  import opened Store

  /** The author name stored when the request gives none. */
  const DEFAULT_AUTHOR: string := "名無しさん"

  const TITLE_REQUIRED: string := "タイトルは必須です"
  const CATEGORY_REQUIRED: string := "カテゴリは必須です"
  const METHOD_NOT_ALLOWED: string := "Method Not Allowed"

  /** The JSON body of a POST; each field may be missing. */
  datatype ThreadForm = ThreadForm(
    title: Option<string>,
    author: Option<string>,
    category: Option<string>,
    imagePath: Option<string>)

  /** A request: its HTTP method, the `category` query parameter and the body. */
  datatype Request = Request(verb: string, categoryParam: Option<string>, form: ThreadForm)

  datatype Payload =
    | ThreadList(threads: seq<Thread>)
    | CreatedThread(thread: Option<Thread>)
    | ErrorMessage(message: string)
    | PlainText(text: string)

  /** Status, `Allow` header (empty when not set) and body. */
  datatype Response = Response(status: int, allow: seq<string>, payload: Payload)

  /** The response together with the database the request leaves behind. */
  datatype Outcome = Outcome(response: Response, db: Database)

  /** A string counts as given when it is present and not "" (JavaScript truthiness). */
  predicate Given(s: Option<string>) {
    s.Some? && s.value != ""
  }

  /** The statement a GET runs: no filter when the parameter is absent, "" or "all". */
  function ListQuery(categoryParam: Option<string>): (q: Query)
    ensures q.AllThreads? || q.ThreadsInCategory?
    ensures q.ThreadsInCategory? <==> Given(categoryParam) && categoryParam.value != "all"
    ensures q.ThreadsInCategory? ==> q.category == categoryParam.value
  {
    if Given(categoryParam) && categoryParam.value != "all" then ThreadsInCategory(categoryParam.value)
    else AllThreads
  }

  /** The category a GET filters by, as the statement `ListQuery` chooses it: none means every thread. */
  function FilterOf(categoryParam: Option<string>): Option<string> {
    var q := ListQuery(categoryParam);
    if q.ThreadsInCategory? then Some(q.category) else None
  }

  /** The author to store: the trimmed name when it is not blank, otherwise the placeholder. */
  function AuthorOrDefault(author: Option<string>): (r: string)
    ensures r != [] && Trim(r) == r
    ensures r != DEFAULT_AUTHOR ==> author.Some? && r == Trim(author.value)
    ensures author.Some? && !IsBlank(author.value) ==> r == Trim(author.value)
  {
    if author.Some? && Trim(author.value) != "" then
      TrimIdempotent(author.value);
      Trim(author.value)
    else
      assert !IsSpace(DEFAULT_AUTHOR[0]) && !IsSpace(DEFAULT_AUTHOR[|DEFAULT_AUTHOR| - 1]);
      TrimKeeps(DEFAULT_AUTHOR);
      DEFAULT_AUTHOR
  }

  /** The title is missing or blank. */
  predicate TitleMissing(form: ThreadForm) {
    !Given(form.title) || Trim(form.title.value) == ""
  }

  /** The insert a valid POST runs: trimmed title, normalised author, empty image path dropped. */
  function NewThreadRow(form: ThreadForm): (c: Command)
    requires form.title.Some? && form.category.Some?
    ensures c.InsertThreadRow?
    ensures c.title == Trim(form.title.value)
    ensures Trim(c.title) == c.title && (c.title == [] <==> IsBlank(form.title.value))
    ensures c.author == AuthorOrDefault(form.author)
    ensures c.author != [] && Trim(c.author) == c.author
    ensures c.category == form.category.value
    ensures c.imagePath.None? <==> form.imagePath.None? || form.imagePath.value == ""
    ensures c.imagePath.Some? ==> c.imagePath == form.imagePath
  {
    TrimIdempotent(form.title.value);
    InsertThreadRow(Trim(form.title.value), AuthorOrDefault(form.author), form.category.value,
                    if Given(form.imagePath) then form.imagePath else None)
  }

  /**
   * GET: 200 with the stored threads, newest first, restricted to the
   * requested category unless the parameter is absent, "" or "all"; nothing
   * is written.
   */
  function List(db: Database, categoryParam: Option<string>): (out: Outcome)
    ensures out.db == db && out.response.status == 200 && out.response.allow == []
    ensures out.response.payload.ThreadList?
    ensures var ts := out.response.payload.threads;
      && (forall i, j :: 0 <= i < j < |ts| ==> ts[i].createdAt >= ts[j].createdAt)
      && forall t :: multiset(ts)[t]
           == if Given(categoryParam) && categoryParam.value != "all" && t.category != categoryParam.value
              then 0 else multiset(db.threads)[t]
  {
    var rows := All(db, ListQuery(categoryParam));
    Outcome(Response(200, [], ThreadList(rows.threads)), db)
  }

  /** POST: validate, insert, and answer with the thread read back under the new id. */
  function Create(db: Database, form: ThreadForm, now: nat): (out: Outcome)
    ensures out.response.status in {201, 400}
    ensures out.response.status == 400 ==> out.db == db
    ensures out.response.status == 201 ==>
      && out.db.posts == db.posts
      && |out.db.threads| == |db.threads| + 1
      && out.db.threads[..|db.threads|] == db.threads
  {
    if TitleMissing(form) then
      Outcome(Response(400, [], ErrorMessage(TITLE_REQUIRED)), db)
    else if !Given(form.category) then
      Outcome(Response(400, [], ErrorMessage(CATEGORY_REQUIRED)), db)
    else
      var inserted := Run(db, NewThreadRow(form), now);
      var thread := Get(inserted.db, ThreadById(inserted.lastInsertRowid));
      Outcome(Response(201, [], CreatedThread(thread)), inserted.db)
  }

  /** The handler: dispatch on the HTTP method; anything but GET and POST is refused. */
  function Handle(db: Database, req: Request, now: nat): (out: Outcome)
    ensures out.response.status in {200, 201, 400, 405}
    ensures out.response.status != 201 ==> out.db == db
    ensures out.response.status == 201 ==>
      && out.db.posts == db.posts
      && |out.db.threads| == |db.threads| + 1
      && out.db.threads[..|db.threads|] == db.threads
  {
    if req.verb == "GET" then List(db, req.categoryParam)
    else if req.verb == "POST" then Create(db, req.form, now)
    else Outcome(Response(405, ["GET", "POST"], PlainText(METHOD_NOT_ALLOWED)), db)
  }
}
