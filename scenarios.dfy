/** Client code that drives the store and the views through their contracts; `SingleRow` is the one fact proved here from a definition (`Rows` on a one-row table). */
module Scenarios {
  import opened Wrappers
  import opened Text
  import opened Models
  import opened Store
  import opened Views

  /** A table whose only key is `id` lists as that one row once the bound passes `id`. */
  lemma {:induction false} SingleRow<V>(m: map<nat, V>, n: nat, id: nat)
    requires m.Keys == {id}
    ensures Rows(m, n) == if id < n then [(id, m[id])] else []
  {
    if n > 0 {
      SingleRow(m, n - 1, id);
    }
  }

  /** One author with one book: the home page counts both and the first book page lists the book. */
  method HobbitScenario() returns (summary: Summary, visits: int, firstPage: seq<(BookId, Book)>)
    ensures summary == Summary(1, 0, 0, 1)
    ensures visits == 1
    ensures |firstPage| == 1 && firstPage[0].1.title == "The Hobbit"
  {
    var store := new Catalogue();
    var tolkien := store.InsertAuthor("J.R.R.", "Tolkien", None, None);
    var fantasy := store.InsertGenre("Fantasy");
    var r := store.InsertBook("The Hobbit", Some(tolkien), "A hobbit is swept into a quest for a dragon's hoard.", "9780261102217", [fantasy], None);
    assert r.Ok?;
    assert store.authors.Keys == {tolkien} && store.books.Keys == {r.value} && store.instances == map[];
    var session := new Session(map[]);
    VisitsGrowByOne(map[]);
    var ctx := Index(store, session);
    summary, visits := ctx.summary, ctx.numVisits;
    SingleRow(store.books, store.nextId, r.value);
    var page := BookListPage(store, 1);
    firstPage := page.value;
  }

  /** A name that differs only in case is refused with the constraint's message; an exact repeat by the unique field. */
  method LanguageScenario() returns (first: Result<LanguageId, Error>, second: Result<LanguageId, Error>,
                                    third: Result<LanguageId, Error>)
    ensures first.Ok?
    ensures second == Err(ConstraintViolation(UniqueNameConstraint, CaseInsensitiveMessage))
    ensures third == Err(UniqueViolation(NameField))
  {
    var store := new Catalogue();
    first := store.InsertLanguage("English");
    LowerEqualIff("English", "ENGLISH");
    second := store.InsertLanguage("ENGLISH");
    third := store.InsertLanguage("English");
  }

  /** A store with one author, one language, one book by that author in that language, and one copy of it. */
  method Earthsea() returns (store: Catalogue, author: AuthorId, language: LanguageId, book: BookId, copy: InstanceId)
    ensures fresh(store) && store.Valid()
    ensures store.authors.Keys == {author} && store.books.Keys == {book} && store.instances.Keys == {copy}
    ensures store.books[book].author == Some(author) && store.books[book].language == Some(language)
    ensures store.instances[copy].book == Some(book) && store.instances[copy].status == Maintenance
  {
    store := new Catalogue();
    author := store.InsertAuthor("Ursula", "Le Guin", None, None);
    var english := store.InsertLanguage("English");
    assert english.Ok?;
    language := english.value;
    var b := store.InsertBook("A Wizard of Earthsea", Some(author), "A young wizard learns the cost of power.", "9780547773742", [], Some(language));
    assert b.Ok?;
    book := b.value;
    var c := store.InsertInstance(Some(book), "Parnassus", None, None, None);
    assert c.Ok?;
    copy := c.value;
  }

  /** Deleting a language keeps its book with no language; deleting the only author then empties books and copies. */
  method CascadeScenario() returns (afterLanguage: Summary, afterAuthor: Summary, language: Option<LanguageId>)
    ensures afterLanguage == Summary(1, 1, 0, 1) && language.None?
    ensures afterAuthor == Summary(0, 0, 0, 0)
  {
    var store, author, english, book, copy := Earthsea();
    var before := store.State();
    var _ := store.DeleteLanguage(english);
    var middle := store.State();
    assert middle == WithoutLanguage(before, english);
    assert middle.authors == before.authors && middle.instances == before.instances;
    assert middle.books.Keys == before.books.Keys;
    assert middle.books[book].author == Some(author);
    afterLanguage := Counts(middle);
    language := store.books[book].language;
    var _ := store.DeleteAuthor(author);
    assert store.State() == WithoutAuthor(middle, author);
    assert book in BooksBy(middle, author);
    assert store.books.Keys == {};
    assert CopyOf(middle.instances[copy], BooksBy(middle, author));
    assert store.instances.Keys == {};
    assert store.authors.Keys == {};
    afterAuthor := Counts(store.State());
  }
}
