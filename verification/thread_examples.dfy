/** Concrete requests that show the validation and normalisation rules at work. */
module ThreadExamples {
  import opened Wrappers
  import opened Types
  import opened JsText
  import opened Store
  import opened ThreadsApi
  import opened ThreadCreation

  /** An empty title is refused even with a valid category. */
  lemma EmptyTitleExample(db: Database, now: nat)
    ensures Handle(db, Request("POST", None, ThreadForm(Some(""), Some("a"), Some("雑談"), None)), now).response.status == 400
  {
  }

  /** An ideographic space as author is blank, so the placeholder name is stored. */
  lemma DefaultAuthorExample(now: nat)
    ensures var out := Create(EMPTY, ThreadForm(Some("Hello"), Some("　"), Some("雑談"), None), now);
      && out.response.status == 201
      && out.db.threads[0].author == "名無しさん"
  {
    var form := ThreadForm(Some("Hello"), Some("　"), Some("雑談"), None);
    assert !IsSpace("Hello"[0]) && IsSpace("　"[0]);
    BlankAuthorDefaulted(EMPTY, form, now);
  }

  /** Spaces around a title are cut off. */
  lemma TrimExample()
    ensures Trim(" Hello ") == "Hello"
  {
    assert " " + "Hello" + " " == " Hello ";
    TrimPadded(" ", "Hello", " ");
  }

  /** A POST titled " Hello " stores, and answers with, a thread titled "Hello". */
  lemma TrimmedTitleStored(now: nat, s: string)
    requires s == " Hello "
    ensures var out := Create(EMPTY, ThreadForm(Some(s), None, Some("雑談"), None), now);
      && out.response.status == 201
      && |out.db.threads| == 1
      && out.db.threads[0].title == "Hello"
      && out.response.payload == CreatedThread(Some(out.db.threads[0]))
  {
    TrimExample();
    assert !IsBlank(s) by { assert !IsSpace(s[1]); }
    CreateThreadStored(EMPTY, ThreadForm(Some(s), None, Some("雑談"), None), now);
  }

  /**
   * Only the presence of a category is checked: a string that names none of
   * the three categories is stored as the new thread's category.
   */
  lemma UnknownCategoryStored(now: nat, c: string)
    requires c == "not-a-real-category"
    ensures var out := Create(EMPTY, ThreadForm(Some("t"), None, Some(c), None), now);
      && out.response.status == 201
      && out.response.payload == CreatedThread(Some(out.db.threads[0]))
      && out.db.threads[0].category == c
      && !HasKnownCategory(out.db.threads[0])
  {
    var form := ThreadForm(Some("t"), None, Some(c), None);
    assert !IsSpace("t"[0]);
    CreateThreadStored(EMPTY, form, now);
    assert ParseCategory(c).None?;
  }
}
