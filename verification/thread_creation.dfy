/**
 * What a successful thread creation stores and answers, and where the new
 * thread then appears.
 */
module ThreadCreation {
  import opened Wrappers
  import opened Types
  import opened JsText
  import opened Store
  import opened StoreProperties
  import opened ThreadsApi
  import opened ThreadsApiProperties

  /**
   * A POST with a non-blank title and some category appends one thread and
   * answers 201 with exactly that thread: trimmed (hence non-empty) title,
   * trimmed author or the placeholder, the category string as sent, the
   * image path unless empty, stamped `now`.
   */
  lemma CreateThreadStored(db: Database, form: ThreadForm, now: nat)
    requires form.title.Some? && !IsBlank(form.title.value)
    requires form.category.Some? && form.category.value != ""
    ensures var out := Create(db, form, now);
      && out.response.status == 201
      && out.db.posts == db.posts
      && |out.db.threads| == |db.threads| + 1
      && out.db.threads[..|db.threads|] == db.threads
      && var t := out.db.threads[|db.threads|];
      && out.response.payload == CreatedThread(Some(t))
      && t.title == Trim(form.title.value) && t.title != []
      && t.author == AuthorOrDefault(form.author)
      && t.category == form.category.value
      && (t.imagePath.None? <==> form.imagePath.None? || form.imagePath.value == "")
      && (t.imagePath.Some? ==> t.imagePath == form.imagePath)
      && t.createdAt == now
  {
    CreateAnswersInsertedThread(db, form, now);
  }

  /** The thread a valid POST creates gets an id above every id already stored. */
  lemma CreatedThreadIdFresh(db: Database, form: ThreadForm, now: nat)
    requires form.title.Some? && !IsBlank(form.title.value)
    requires form.category.Some? && form.category.value != ""
    ensures var out := Create(db, form, now);
      && |out.db.threads| == |db.threads| + 1
      && forall i :: 0 <= i < |db.threads| ==> db.threads[i].id < out.db.threads[|db.threads|].id
  {
    CreateAnswersInsertedThread(db, form, now);
  }

  /** A POST whose author is missing or blank stores the placeholder name. */
  lemma BlankAuthorDefaulted(db: Database, form: ThreadForm, now: nat)
    requires form.title.Some? && !IsBlank(form.title.value)
    requires form.category.Some? && form.category.value != ""
    requires form.author.None? || IsBlank(form.author.value)
    ensures Create(db, form, now).db.threads[|db.threads|].author == DEFAULT_AUTHOR
  {
    CreateThreadStored(db, form, now);
  }

  /** A thread created after every stored one heads the unfiltered listing a later GET returns. */
  lemma CreatedThreadListedFirst(db: Database, form: ThreadForm, now: nat)
    requires form.title.Some? && !IsBlank(form.title.value)
    requires form.category.Some? && form.category.value != ""
    requires forall i :: 0 <= i < |db.threads| ==> db.threads[i].createdAt < now
    ensures var created := Create(db, form, now);
      var listed := List(created.db, None);
      && created.response.payload.CreatedThread?
      && created.response.payload.thread.Some?
      && listed.response.payload.ThreadList?
      && |listed.response.payload.threads| == |db.threads| + 1
      && listed.response.payload.threads[0] == created.response.payload.thread.value
  {
    CreateAnswersInsertedThread(db, form, now);
    var cmd := NewThreadRow(form);
    NewThreadListedFirst(db, cmd.title, cmd.author, cmd.category, cmd.imagePath, now, None);
    var created := Create(db, form, now);
    GetListsThreads(created.db, None);
    assert Matching(db.threads, None) == db.threads by {
      UnfilteredMatchesAll(db.threads);
    }
    assert |ListThreads(db, None)| == |db.threads| by {
      assert |multiset(ListThreads(db, None))| == |multiset(db.threads)|;
    }
  }

  /** The unfiltered selection is the whole collection. */
  lemma {:induction false} UnfilteredMatchesAll(ts: seq<Thread>)
    ensures Matching(ts, None) == ts
  {
    if |ts| > 0 {
      UnfilteredMatchesAll(ts[1..]);
      assert ts == [ts[0]] + ts[1..];
    }
  }
}
