/**
 * The record model of the bulletin board: the closed `Category` enumeration,
 * its `CATEGORIES` list, and the `Thread` and `Post` records the store keeps.
 */
module Types {
  import opened Wrappers

  /** The three thread categories. */
  datatype Category = Chat | News | Programming

  /** The label a category is written as in requests and in stored threads. */
  function Label(c: Category): string {
    match c
    case Chat => "雑談"
    case News => "ニュース"
    case Programming => "プログラミング"
  }

  /** The category a label names, if any; the inverse of `Label`. */
  function ParseCategory(s: string): (r: Option<Category>)
    ensures r.Some? ==> Label(r.value) == s
    ensures r.None? ==> forall c: Category :: Label(c) != s
  {
    if s == "雑談" then Some(Chat)
    else if s == "ニュース" then Some(News)
    else if s == "プログラミング" then Some(Programming)
    else None
  }

  /** Every category, in the order the user interface offers them. */
  const CATEGORIES: seq<Category> := [Chat, News, Programming]

  lemma CategoriesListsEachOnce()
    ensures forall c: Category :: multiset(CATEGORIES)[c] == 1
    ensures Label(CATEGORIES[0]) == "雑談"
    ensures Label(CATEGORIES[1]) == "ニュース"
    ensures Label(CATEGORIES[2]) == "プログラミング"
  {
    forall c: Category ensures multiset(CATEGORIES)[c] == 1 {
      match c
      case Chat =>
      case News =>
      case Programming =>
    }
  }

  /** Distinct categories have distinct labels, so a label identifies its category. */
  lemma LabelRoundTrip(c: Category)
    ensures ParseCategory(Label(c)) == Some(c)
  {
  }

  /**
   * A thread. `category` holds whatever string the creator sent: the type
   * declares a `Category`, but nothing on the write path enforces it.
   * `createdAt` is the creation time in milliseconds since the epoch.
   */
  datatype Thread = Thread(
    id: int,
    title: string,
    author: string,
    category: string,
    imagePath: Option<string>,
    createdAt: nat)

  /** A reply; `threadId` names the thread it belongs to by that thread's id. */
  datatype Post = Post(
    id: int,
    threadId: int,
    author: string,
    body: string,
    imagePath: Option<string>,
    createdAt: nat)

  /** The thread's category is one of the three the type declares. */
  predicate HasKnownCategory(t: Thread) {
    ParseCategory(t.category).Some?
  }
}
