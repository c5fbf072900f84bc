/**
 * The catalogue store: the five tables plus the users that copies may be
 * lent to, the rules the schema enforces (a case-insensitively unique
 * language name, no dangling reference), and the referential actions that
 * deleting a record triggers: CASCADE from Author to Book and from Book to
 * BookInstance, SET_NULL from Language to Book and from User to a copy's
 * borrower.
 */
module Store {
  import opened Wrappers
  import opened Text
  import opened Sequences
  import opened Models

  datatype Db = Db(
    genres: map<GenreId, Genre>,
    languages: map<LanguageId, Language>,
    authors: map<AuthorId, Author>,
    books: map<BookId, Book>,
    instances: map<InstanceId, BookInstance>,
    users: set<UserId>)

  const EmptyDb: Db := Db(map[], map[], map[], map[], map[], {})

  /** No two languages have names that are equal after lower-casing. */
  predicate LanguagesUnique(languages: map<LanguageId, Language>) {
    forall l, m :: l in languages && m in languages && l != m ==>
      Lower(languages[l].name) != Lower(languages[m].name)
  }

  predicate BookRefsOk(db: Db, b: Book) {
    && (b.author.Some? ==> b.author.value in db.authors)
    && (b.language.Some? ==> b.language.value in db.languages)
    && (forall g :: g in b.genres ==> g in db.genres)
    && Distinct(b.genres)
  }

  predicate InstanceRefsOk(db: Db, c: BookInstance) {
    && (c.book.Some? ==> c.book.value in db.books)
    && (c.borrower.Some? ==> c.borrower.value in db.users)
  }

  /** The schema's invariant: unique language names and no reference to a missing record. */
  predicate Consistent(db: Db) {
    && LanguagesUnique(db.languages)
    && (forall b :: b in db.books ==> BookRefsOk(db, db.books[b]))
    && (forall i :: i in db.instances ==> InstanceRefsOk(db, db.instances[i]))
  }

  /** Every primary key in use is below `n`, so `n` and above are fresh. */
  predicate KeysBelow(db: Db, n: nat) {
    && (forall k :: k in db.genres ==> k < n)
    && (forall k :: k in db.languages ==> k < n)
    && (forall k :: k in db.authors ==> k < n)
    && (forall k :: k in db.books ==> k < n)
    && (forall k :: k in db.instances ==> k < n)
    && (forall k :: k in db.users ==> k < n)
  }

  const NameField := "name"
  const UniqueNameConstraint := "language_name_case_insensitive_unique"
  const CaseInsensitiveMessage := "Language already exists (case insensitive match)"

  /**
   * Validation of a new language name: the exact `unique=True` check on the
   * field comes first; a name that differs from a stored one only in case
   * then fails the `Lower('name')` constraint with its message.
   */
  function LanguageNameError(languages: map<LanguageId, Language>, name: string): (r: Option<Error>)
    ensures r.None? <==> forall l :: l in languages ==> Lower(languages[l].name) != Lower(name)
    ensures r == Some(UniqueViolation(NameField)) <==> exists l :: l in languages && languages[l].name == name
    ensures r.Some? && r.value != UniqueViolation(NameField) ==>
              r.value == ConstraintViolation(UniqueNameConstraint, CaseInsensitiveMessage)
  {
    if exists l :: l in languages && languages[l].name == name then
      Some(UniqueViolation(NameField))
    else if exists l :: l in languages && Lower(languages[l].name) == Lower(name) then
      Some(ConstraintViolation(UniqueNameConstraint, CaseInsensitiveMessage))
    else
      None
  }

  /** A name exactly equal to a stored one is always refused. */
  lemma ExactDuplicateRefused(languages: map<LanguageId, Language>, l: LanguageId, name: string)
    requires l in languages && languages[l].name == name
    ensures LanguageNameError(languages, name) == Some(UniqueViolation(NameField))
  {
  }

  /** A name equal to a stored one up to case is refused, with the constraint's message unless it is an exact duplicate. */
  lemma CaseDuplicateRefused(languages: map<LanguageId, Language>, l: LanguageId, name: string)
    requires l in languages && Lower(languages[l].name) == Lower(name)
    requires forall m :: m in languages ==> languages[m].name != name
    ensures LanguageNameError(languages, name) ==
            Some(ConstraintViolation(UniqueNameConstraint, CaseInsensitiveMessage))
  {
  }

  /** An insert that passes validation keeps the language names unique. */
  lemma AcceptedLanguageKeepsUnique(languages: map<LanguageId, Language>, id: LanguageId, name: string)
    requires LanguagesUnique(languages) && id !in languages
    requires LanguageNameError(languages, name).None?
    ensures LanguagesUnique(languages[id := Language(name)])
  {
  }

  /** The books written by `a`: what deleting `a` cascades to. */
  function BooksBy(db: Db, a: AuthorId): set<BookId> {
    set b | b in db.books && db.books[b].author == Some(a)
  }

  predicate CopyOf(c: BookInstance, gone: set<BookId>) {
    c.book.Some? && c.book.value in gone
  }

  /** Deletes the books `gone` and, by CASCADE, every copy of them. */
  function WithoutBooks(db: Db, gone: set<BookId>): (r: Db)
    ensures r.books.Keys == db.books.Keys - gone
    ensures forall b :: b in r.books ==> r.books[b] == db.books[b]
    ensures forall i :: i in r.instances <==> i in db.instances && !CopyOf(db.instances[i], gone)
    ensures forall i :: i in r.instances ==> r.instances[i] == db.instances[i]
    ensures r == db.(books := r.books, instances := r.instances)
  {
    db.(books := map b | b in db.books && b !in gone :: db.books[b],
        instances := map i | i in db.instances && !CopyOf(db.instances[i], gone) :: db.instances[i])
  }

  lemma WithoutBooksKeepsConsistent(db: Db, gone: set<BookId>)
    requires Consistent(db)
    ensures Consistent(WithoutBooks(db, gone))
  {
  }

  /** Deletes author `a`, by CASCADE every book of `a`, and by CASCADE again every copy of those books. */
  function WithoutAuthor(db: Db, a: AuthorId): (r: Db)
    ensures r.authors == db.authors - {a}
    ensures forall b :: b in r.books <==> b in db.books && db.books[b].author != Some(a)
    ensures forall b :: b in r.books ==> r.books[b] == db.books[b]
    ensures forall i :: i in r.instances <==>
              i in db.instances && !CopyOf(db.instances[i], BooksBy(db, a))
    ensures forall i :: i in r.instances ==> r.instances[i] == db.instances[i]
    ensures r == db.(authors := r.authors, books := r.books, instances := r.instances)
  {
    WithoutBooks(db, BooksBy(db, a)).(authors := db.authors - {a})
  }

  /** After the cascade nothing refers to the deleted author or to a deleted book. */
  lemma WithoutAuthorKeepsConsistent(db: Db, a: AuthorId)
    requires Consistent(db)
    ensures Consistent(WithoutAuthor(db, a))
    ensures forall b :: b in WithoutAuthor(db, a).books ==> WithoutAuthor(db, a).books[b].author != Some(a)
  {
  }

  /** Deletes language `l` and, by SET_NULL, clears the language of every book that had it. */
  function WithoutLanguage(db: Db, l: LanguageId): (r: Db)
    ensures r.languages == db.languages - {l}
    ensures r.books.Keys == db.books.Keys
    ensures forall b :: b in r.books ==>
              r.books[b].language == (if db.books[b].language == Some(l) then None else db.books[b].language)
    ensures forall b :: b in r.books ==> r.books[b].(language := db.books[b].language) == db.books[b]
    ensures r == db.(languages := r.languages, books := r.books)
  {
    var books := map b | b in db.books ::
      if db.books[b].language == Some(l) then db.books[b].(language := None) else db.books[b];
    db.(languages := db.languages - {l}, books := books)
  }

  lemma WithoutLanguageKeepsConsistent(db: Db, l: LanguageId)
    requires Consistent(db)
    ensures Consistent(WithoutLanguage(db, l))
  {
  }

  /** Deletes user `u` and, by SET_NULL, clears the borrower of every copy lent to `u`. */
  function WithoutUser(db: Db, u: UserId): (r: Db)
    ensures r.users == db.users - {u}
    ensures r.instances.Keys == db.instances.Keys
    ensures forall i :: i in r.instances ==>
              r.instances[i].borrower ==
              (if db.instances[i].borrower == Some(u) then None else db.instances[i].borrower)
    ensures forall i :: i in r.instances ==>
              r.instances[i].(borrower := db.instances[i].borrower) == db.instances[i]
    ensures r == db.(users := r.users, instances := r.instances)
  {
    var instances := map i | i in db.instances ::
      if db.instances[i].borrower == Some(u) then db.instances[i].(borrower := None) else db.instances[i];
    db.(users := db.users - {u}, instances := instances)
  }

  lemma WithoutUserKeepsConsistent(db: Db, u: UserId)
    requires Consistent(db)
    ensures Consistent(WithoutUser(db, u))
  {
  }

  /** Deletes genre `g`; the rows linking it to books go with it. */
  function WithoutGenre(db: Db, g: GenreId): (r: Db)
    ensures r.genres == db.genres - {g}
    ensures r.books.Keys == db.books.Keys
    ensures forall b, x :: b in r.books ==> (x in r.books[b].genres <==> x in db.books[b].genres && x != g)
    ensures forall b :: b in r.books ==> r.books[b].(genres := db.books[b].genres) == db.books[b]
    ensures r == db.(genres := r.genres, books := r.books)
  {
    var books := map b | b in db.books :: db.books[b].(genres := Remove(db.books[b].genres, g));
    db.(genres := db.genres - {g}, books := books)
  }

  lemma WithoutGenreKeepsConsistent(db: Db, g: GenreId)
    requires Consistent(db)
    ensures Consistent(WithoutGenre(db, g))
  {
  }

  /** Deletes one copy; nothing refers to a copy. */
  function WithoutInstance(db: Db, i: InstanceId): (r: Db)
    ensures r.instances == db.instances - {i}
    ensures Consistent(db) ==> Consistent(r)
    ensures r == db.(instances := r.instances)
  {
    db.(instances := db.instances - {i})
  }

  /** The rows of a table with keys below `n`, in ascending key order. */
  function Rows<V>(m: map<nat, V>, n: nat): (r: seq<(nat, V)>)
    ensures forall k :: 0 <= k < |r| ==> r[k].0 < n && r[k].0 in m && m[r[k].0] == r[k].1
    ensures forall id :: id in m && id < n ==> (id, m[id]) in r
    ensures forall j, k :: 0 <= j < k < |r| ==> r[j].0 < r[k].0
  {
    if n == 0 then []
    else
      var front := Rows(m, n - 1);
      if n - 1 in m then front + [(n - 1, m[n - 1])] else front
  }

  /** The keys of `m` below `n`. */
  function KeysUnder<V>(m: map<nat, V>, n: nat): set<nat>
  {
    set k | k in m && k < n
  }

  lemma KeysUnderStep<V>(m: map<nat, V>, n: nat)
    requires n > 0
    ensures |KeysUnder(m, n)| == |KeysUnder(m, n - 1)| + (if n - 1 in m then 1 else 0)
  {
    if n - 1 in m {
      assert KeysUnder(m, n) == KeysUnder(m, n - 1) + {n - 1};
    } else {
      assert KeysUnder(m, n) == KeysUnder(m, n - 1);
    }
  }

  /** `Rows` lists each key below `n` once. */
  lemma {:induction false} RowsLength<V>(m: map<nat, V>, n: nat)
    ensures |Rows(m, n)| == |KeysUnder(m, n)|
  {
    if n > 0 {
      RowsLength(m, n - 1);
      KeysUnderStep(m, n);
    }
  }

  /** When every key is below `n`, `Rows` lists the whole table. */
  lemma RowsOfWholeTable<V>(m: map<nat, V>, n: nat)
    requires forall k :: k in m ==> k < n
    ensures |Rows(m, n)| == |m|
  {
    RowsLength(m, n);
    assert KeysUnder(m, n) == m.Keys;
  }

  /** The names of the given genres, in the given order. */
  function GenreNames(genres: map<GenreId, Genre>, ids: seq<GenreId>): (r: seq<string>)
    requires forall g :: g in ids ==> g in genres
    ensures |r| == |ids|
    ensures forall k :: 0 <= k < |ids| ==> r[k] == genres[ids[k]].name
  {
    seq(|ids|, k requires 0 <= k < |ids| => genres[ids[k]].name)
  }

  /** `Book.display_genre` for a stored book. */
  function BookDisplayGenre(db: Db, b: BookId): string
    requires Consistent(db) && b in db.books
  {
    assert BookRefsOk(db, db.books[b]);
    DisplayGenre(GenreNames(db.genres, db.books[b].genres))
  }

  /** The genre summary of a stored book names its first three genres. */
  lemma BookDisplayGenreFirstThree(db: Db, b: BookId)
    requires Consistent(db) && b in db.books && |db.books[b].genres| >= 3
    ensures var gs := db.books[b].genres;
            BookDisplayGenre(db, b) ==
            db.genres[gs[0]].name + ", " + db.genres[gs[1]].name + ", " + db.genres[gs[2]].name
  {
    assert BookRefsOk(db, db.books[b]);
    DisplayGenreCases(GenreNames(db.genres, db.books[b].genres));
  }

  /** The author listing: every author exactly as stored, sorted by last name. */
  function AuthorsInOrder(authors: map<AuthorId, Author>, bound: nat): (r: seq<(AuthorId, Author)>)
    requires forall a :: a in authors ==> a < bound
    ensures Sorted(r, AuthorBefore)
    ensures multiset(r) == multiset(Rows(authors, bound))
    ensures |r| == |authors|
    ensures forall x :: x in r <==> x.0 in authors && authors[x.0] == x.1
  {
    AuthorOrderIsTotalPreorder();
    RowsOfWholeTable(authors, bound);
    var rows := Rows(authors, bound);
    var r := SortBy(rows, AuthorBefore);
    assert forall x :: x in r <==> x in multiset(rows);
    r
  }

  /** The copies listing: every copy exactly as stored, sorted by due date. */
  function InstancesInOrder(instances: map<InstanceId, BookInstance>, bound: nat): (r: seq<(InstanceId, BookInstance)>)
    requires forall i :: i in instances ==> i < bound
    ensures Sorted(r, DueBefore)
    ensures multiset(r) == multiset(Rows(instances, bound))
    ensures |r| == |instances|
    ensures forall x :: x in r <==> x.0 in instances && instances[x.0] == x.1
  {
    DueOrderIsTotalPreorder();
    RowsOfWholeTable(instances, bound);
    var rows := Rows(instances, bound);
    var r := SortBy(rows, DueBefore);
    assert forall x :: x in r <==> x in multiset(rows);
    r
  }

  /** The store as the application sees it: tables that the operations below change in place. */
  class Catalogue {
    var genres: map<GenreId, Genre>
    var languages: map<LanguageId, Language>
    var authors: map<AuthorId, Author>
    var books: map<BookId, Book>
    var instances: map<InstanceId, BookInstance>
    var users: set<UserId>
    var nextId: nat

    function State(): Db
      reads this
    {
      Db(genres, languages, authors, books, instances, users)
    }

    ghost predicate Valid()
      reads this
    {
      Consistent(State()) && KeysBelow(State(), nextId)
    }

    constructor ()
      ensures Valid() && State() == EmptyDb
    {
      genres, languages, authors, books, instances, users := map[], map[], map[], map[], map[], {};
      nextId := 0;
    }

    /** Replaces every table by those of `db`. */
    method Load(db: Db)
      requires Consistent(db) && KeysBelow(db, nextId)
      modifies this
      ensures State() == db && nextId == old(nextId)
      ensures Valid()
    {
      genres, languages, authors, books, instances, users :=
        db.genres, db.languages, db.authors, db.books, db.instances, db.users;
    }

    /** Hands out a key no table uses. */
    method FreshId() returns (id: nat)
      requires Valid()
      modifies this`nextId
      ensures Valid() && nextId == id + 1 && id == old(nextId)
    {
      id := nextId;
      nextId := nextId + 1;
    }

    method InsertGenre(name: string) returns (id: GenreId)
      requires Valid()
      modifies this
      ensures Valid()
      ensures id !in old(genres)
      ensures State() == old(State()).(genres := old(genres)[id := Genre(name)])
    {
      id := FreshId();
      genres := genres[id := Genre(name)];
    }

    /** Saves a language unless its name clashes, exactly or up to case, with a stored one. */
    method InsertLanguage(name: string) returns (r: Result<LanguageId, Error>)
      requires Valid()
      modifies this
      ensures Valid()
      ensures r.Err? <==> LanguageNameError(old(languages), name).Some?
      ensures r.Err? ==> Some(r.error) == LanguageNameError(old(languages), name) && State() == old(State())
      ensures r.Ok? ==> r.value !in old(languages) &&
                        State() == old(State()).(languages := old(languages)[r.value := Language(name)])
    {
      var clash := LanguageNameError(languages, name);
      if clash.Some? {
        return Err(clash.value);
      }
      var id := FreshId();
      AcceptedLanguageKeepsUnique(languages, id, name);
      languages := languages[id := Language(name)];
      r := Ok(id);
    }

    method InsertAuthor(firstName: string, lastName: string, dateOfBirth: Option<Date>, dateOfDeath: Option<Date>)
      returns (id: AuthorId)
      requires Valid()
      modifies this
      ensures Valid()
      ensures id !in old(authors)
      ensures State() == old(State()).(authors := old(authors)[id := Author(firstName, lastName, dateOfBirth, dateOfDeath)])
    {
      id := FreshId();
      authors := authors[id := Author(firstName, lastName, dateOfBirth, dateOfDeath)];
    }

    /**
     * Saves a book. A reference to a missing author, language or genre is
     * refused; a genre given twice is linked once.
     */
    method InsertBook(title: string, author: Option<AuthorId>, summary: string, isbn: string,
                      genreIds: seq<GenreId>, language: Option<LanguageId>)
      returns (r: Result<BookId, Error>)
      requires Valid()
      modifies this
      ensures Valid()
      ensures r.Err? <==> (author.Some? && author.value !in old(authors)) ||
                          (language.Some? && language.value !in old(languages)) ||
                          (exists g :: g in genreIds && g !in old(genres))
      ensures r.Err? ==> r.error.ForeignKeyViolation? && State() == old(State())
      ensures r.Ok? ==> r.value !in old(books) &&
                        State() == old(State()).(books := old(books)[r.value :=
                          Book(title, author, summary, isbn, Dedup(genreIds), language)])
    {
      if author.Some? && author.value !in authors {
        return Err(ForeignKeyViolation("author"));
      }
      if language.Some? && language.value !in languages {
        return Err(ForeignKeyViolation("language"));
      }
      if exists g :: g in genreIds && g !in genres {
        return Err(ForeignKeyViolation("genre"));
      }
      var id := FreshId();
      var db := State();
      books := books[id := Book(title, author, summary, isbn, Dedup(genreIds), language)];
      assert forall b :: b in db.books ==> BookRefsOk(db, db.books[b]);
      assert forall i :: i in db.instances ==> InstanceRefsOk(db, db.instances[i]);
      r := Ok(id);
    }

    /** Saves a copy of a book; a copy saved without a status gets `DefaultStatus`. */
    method InsertInstance(book: Option<BookId>, imprint: string, dueBack: Option<Date>,
                          borrower: Option<UserId>, status: Option<LoanStatus>)
      returns (r: Result<InstanceId, Error>)
      requires Valid()
      modifies this
      ensures Valid()
      ensures r.Err? <==> (book.Some? && book.value !in old(books)) ||
                          (borrower.Some? && borrower.value !in old(users))
      ensures r.Err? ==> r.error.ForeignKeyViolation? && State() == old(State())
      ensures r.Ok? ==> r.value !in old(instances) &&
                        State() == old(State()).(instances := old(instances)[r.value :=
                          BookInstance(book, imprint, dueBack, borrower,
                                       if status.None? then DefaultStatus else status.value)])
    {
      if book.Some? && book.value !in books {
        return Err(ForeignKeyViolation("book"));
      }
      if borrower.Some? && borrower.value !in users {
        return Err(ForeignKeyViolation("borrower"));
      }
      var id := FreshId();
      var s := if status.None? then DefaultStatus else status.value;
      instances := instances[id := BookInstance(book, imprint, dueBack, borrower, s)];
      r := Ok(id);
    }

    /** Registers a user of the identity system, so that copies can be lent to it. */
    method AddUser() returns (u: UserId)
      requires Valid()
      modifies this
      ensures Valid()
      ensures u !in old(users)
      ensures State() == old(State()).(users := old(users) + {u})
    {
      u := FreshId();
      var db := State();
      users := users + {u};
      assert forall b :: b in db.books ==> BookRefsOk(db, db.books[b]);
      assert forall i :: i in db.instances ==> InstanceRefsOk(db, db.instances[i]);
    }

    method DeleteGenre(g: GenreId) returns (r: Outcome<Error>)
      requires Valid()
      modifies this
      ensures Valid()
      ensures r.Fail? <==> g !in old(genres)
      ensures r.Fail? ==> r.error == NotFound && State() == old(State())
      ensures r.Pass? ==> State() == WithoutGenre(old(State()), g)
    {
      if g !in genres {
        return Fail(NotFound);
      }
      WithoutGenreKeepsConsistent(State(), g);
      Load(WithoutGenre(State(), g));
      r := Pass;
    }

    /** Deletes a language; the books in it stay, with no language. */
    method DeleteLanguage(l: LanguageId) returns (r: Outcome<Error>)
      requires Valid()
      modifies this
      ensures Valid()
      ensures r.Fail? <==> l !in old(languages)
      ensures r.Fail? ==> r.error == NotFound && State() == old(State())
      ensures r.Pass? ==> State() == WithoutLanguage(old(State()), l)
    {
      if l !in languages {
        return Fail(NotFound);
      }
      WithoutLanguageKeepsConsistent(State(), l);
      Load(WithoutLanguage(State(), l));
      r := Pass;
    }

    /** Deletes an author, the author's books and the copies of those books. */
    method DeleteAuthor(a: AuthorId) returns (r: Outcome<Error>)
      requires Valid()
      modifies this
      ensures Valid()
      ensures r.Fail? <==> a !in old(authors)
      ensures r.Fail? ==> r.error == NotFound && State() == old(State())
      ensures r.Pass? ==> State() == WithoutAuthor(old(State()), a)
    {
      if a !in authors {
        return Fail(NotFound);
      }
      WithoutAuthorKeepsConsistent(State(), a);
      Load(WithoutAuthor(State(), a));
      r := Pass;
    }

    /** Deletes a book and its copies. */
    method DeleteBook(b: BookId) returns (r: Outcome<Error>)
      requires Valid()
      modifies this
      ensures Valid()
      ensures r.Fail? <==> b !in old(books)
      ensures r.Fail? ==> r.error == NotFound && State() == old(State())
      ensures r.Pass? ==> State() == WithoutBooks(old(State()), {b})
    {
      if b !in books {
        return Fail(NotFound);
      }
      WithoutBooksKeepsConsistent(State(), {b});
      Load(WithoutBooks(State(), {b}));
      r := Pass;
    }

    method DeleteInstance(i: InstanceId) returns (r: Outcome<Error>)
      requires Valid()
      modifies this
      ensures Valid()
      ensures r.Fail? <==> i !in old(instances)
      ensures r.Fail? ==> r.error == NotFound && State() == old(State())
      ensures r.Pass? ==> State() == WithoutInstance(old(State()), i)
    {
      if i !in instances {
        return Fail(NotFound);
      }
      Load(WithoutInstance(State(), i));
      r := Pass;
    }

    /** Deletes a user; the copies lent to it stay, with no borrower. */
    method DeleteUser(u: UserId) returns (r: Outcome<Error>)
      requires Valid()
      modifies this
      ensures Valid()
      ensures r.Fail? <==> u !in old(users)
      ensures r.Fail? ==> r.error == NotFound && State() == old(State())
      ensures r.Pass? ==> State() == WithoutUser(old(State()), u)
    {
      if u !in users {
        return Fail(NotFound);
      }
      WithoutUserKeepsConsistent(State(), u);
      Load(WithoutUser(State(), u));
      r := Pass;
    }
  }
}
