/**
 * What the `/api/threads` handler promises its clients: which threads a GET
 * returns, which POSTs are refused and why, what a successful POST stores and
 * answers, and that the store's invariants survive every request.
 */
module ThreadsApiProperties {
  import opened Wrappers
  import opened Types
  import opened JsText
  import opened Store
  import opened StoreProperties
  import opened ThreadsApi

  /**
   * GET answers 200 with the listing for the requested category: every
   * thread when the parameter is absent, "" or "all", otherwise exactly the
   * threads whose category equals it. Nothing is written.
   */
  lemma GetListsThreads(db: Database, categoryParam: Option<string>)
    ensures var out := List(db, categoryParam);
      && out.db == db
      && out.response == Response(200, [], ThreadList(ListThreads(db, FilterOf(categoryParam))))
      && forall t :: t in out.response.payload.threads
           <==> t in db.threads && (FilterOf(categoryParam).Some? ==> t.category == categoryParam.value)
  {
    var out := List(db, categoryParam);
    forall t ensures t in out.response.payload.threads
           <==> t in db.threads && (FilterOf(categoryParam).Some? ==> t.category == categoryParam.value) {
      ListThreadsContents(db, FilterOf(categoryParam), t);
    }
  }

  /** A POST whose title is missing or blank is refused first, whatever else it holds. */
  lemma BlankTitleRejected(db: Database, form: ThreadForm, now: nat)
    requires form.title.None? || IsBlank(form.title.value)
    ensures Create(db, form, now) == Outcome(Response(400, [], ErrorMessage(TITLE_REQUIRED)), db)
  {
  }

  /** A POST with a usable title but no category (absent or "") is refused. */
  lemma MissingCategoryRejected(db: Database, form: ThreadForm, now: nat)
    requires form.title.Some? && !IsBlank(form.title.value)
    requires form.category.None? || form.category.value == ""
    ensures Create(db, form, now) == Outcome(Response(400, [], ErrorMessage(CATEGORY_REQUIRED)), db)
  {
  }

  /** A valid POST answers with the row its insert appended, and leaves the database that insert produced. */
  lemma CreateAnswersInsertedThread(db: Database, form: ThreadForm, now: nat)
    requires form.title.Some? && !IsBlank(form.title.value)
    requires form.category.Some? && form.category.value != ""
    ensures var cmd := NewThreadRow(form);
      var ins := InsertThread(db, cmd.title, cmd.author, cmd.category, cmd.imagePath, now);
      Create(db, form, now) == Outcome(Response(201, [], CreatedThread(Some(ins.db.threads[|db.threads|]))), ins.db)
  {
    assert !TitleMissing(form);
    var cmd := NewThreadRow(form);
    var ins := InsertThread(db, cmd.title, cmd.author, cmd.category, cmd.imagePath, now);
    InsertedThreadFound(db, cmd.title, cmd.author, cmd.category, cmd.imagePath, now);
    assert Run(db, cmd, now) == ins;
  }

  /**
   * GET is answered by the listing and POST by the creation branch; any other
   * method is refused with 405 and `Allow: GET, POST`, and nothing is written.
   */
  lemma HandleDispatch(db: Database, req: Request, now: nat)
    ensures req.verb == "GET" ==> Handle(db, req, now) == List(db, req.categoryParam)
    ensures req.verb == "POST" ==> Handle(db, req, now) == Create(db, req.form, now)
    ensures req.verb != "GET" && req.verb != "POST" ==>
      Handle(db, req, now) == Outcome(Response(405, ["GET", "POST"], PlainText(METHOD_NOT_ALLOWED)), db)
  {
  }

  /** What a POST writes: nothing when it is refused, otherwise what its insert writes. */
  lemma CreateWrites(db: Database, form: ThreadForm, now: nat)
    ensures Create(db, form, now).db
         == if TitleMissing(form) || !Given(form.category) then db else Run(db, NewThreadRow(form), now).db
  {
  }

  /** What any request writes: nothing unless it is a POST that passes validation. */
  lemma HandleWrites(db: Database, req: Request, now: nat)
    ensures Handle(db, req, now).db
         == if req.verb == "POST" && !TitleMissing(req.form) && Given(req.form.category)
            then Run(db, NewThreadRow(req.form), now).db
            else db
  {
    HandleDispatch(db, req, now);
    if req.verb == "POST" {
      CreateWrites(db, req.form, now);
    }
  }

  /** Every request leaves a valid database valid. */
  lemma HandlePreservesValid(db: Database, req: Request, now: nat)
    requires Valid(db)
    ensures Valid(Handle(db, req, now).db)
  {
    HandleWrites(db, req, now);
    if req.verb == "POST" && !TitleMissing(req.form) && Given(req.form.category) {
      RunPreservesValid(db, NewThreadRow(req.form), now);
    }
  }

  /** The thread handler never creates posts, so it never breaks referential integrity. */
  lemma HandleKeepsIntact(db: Database, req: Request, now: nat)
    requires Intact(db)
    ensures Intact(Handle(db, req, now).db)
  {
    HandleWrites(db, req, now);
    if req.verb == "POST" && !TitleMissing(req.form) && Given(req.form.category) {
      var cmd := NewThreadRow(req.form);
      InsertThreadKeepsIntact(db, cmd.title, cmd.author, cmd.category, cmd.imagePath, now);
    }
  }
}
