/**
 * The five record kinds of the catalogue (Genre, Language, Author, Book,
 * BookInstance), the loan-status choices, and the values the records derive:
 * a book's genre summary, whether a copy is overdue, an author's display
 * name, and the default orderings of authors and copies.
 */
module Models {
  import opened Wrappers
  import opened Text
  import opened Sequences

  /** A calendar date as a day number; Python compares dates the same way. */
  type Date = int

  /** Primary keys. Each stands for a fresh value the store hands out. */
  type GenreId = nat
  type LanguageId = nat
  type AuthorId = nat
  type BookId = nat
  type InstanceId = nat
  type UserId = nat

  datatype Genre = Genre(name: string)

  datatype Language = Language(name: string)

  datatype Author = Author(
    firstName: string,
    lastName: string,
    dateOfBirth: Option<Date>,
    dateOfDeath: Option<Date>)

  /** `genres` lists the rows of the many-to-many relation in the order the database returns them. */
  datatype Book = Book(
    title: string,
    author: Option<AuthorId>,
    summary: string,
    isbn: string,
    genres: seq<GenreId>,
    language: Option<LanguageId>)

  datatype LoanStatus = Maintenance | OnLoan | Available | Reserved

  datatype BookInstance = BookInstance(
    book: Option<BookId>,
    imprint: string,
    dueBack: Option<Date>,
    borrower: Option<UserId>,
    status: LoanStatus)

  /** The failures the store reports: a missing record, or a violated field, constraint or reference. */
  datatype Error =
    | NotFound
    | UniqueViolation(field: string)
    | ConstraintViolation(constraint: string, message: string)
    | ForeignKeyViolation(field: string)

  /** `LOAN_STATUS`: the stored one-letter code and its label, in declaration order. */
  const LoanStatusChoices: seq<(char, string)> :=
    [('m', "Maintenance"), ('o', "On loan"), ('a', "Available"), ('r', "Reserved")]

  /** The status a new copy gets when none is given. */
  const DefaultStatus: LoanStatus := Maintenance

  /** The choice (stored code, label) a status is saved as. */
  function Choice(s: LoanStatus): (c: (char, string))
    ensures c in LoanStatusChoices
  {
    match s
    case Maintenance => LoanStatusChoices[0]
    case OnLoan => LoanStatusChoices[1]
    case Available => LoanStatusChoices[2]
    case Reserved => LoanStatusChoices[3]
  }

  /** Reads a stored code back; only the codes of `LoanStatusChoices` are accepted. */
  function ParseStatus(c: char): (r: Option<LoanStatus>)
    ensures r.Some? <==> exists k :: 0 <= k < |LoanStatusChoices| && LoanStatusChoices[k].0 == c
    ensures r.Some? ==> Choice(r.value).0 == c
  {
    if c == 'm' then assert LoanStatusChoices[0].0 == c; Some(Maintenance)
    else if c == 'o' then assert LoanStatusChoices[1].0 == c; Some(OnLoan)
    else if c == 'a' then assert LoanStatusChoices[2].0 == c; Some(Available)
    else if c == 'r' then assert LoanStatusChoices[3].0 == c; Some(Reserved)
    else None
  }

  /** Every status is saved as a code that reads back as that same status. */
  lemma StatusRoundTrip(s: LoanStatus)
    ensures ParseStatus(Choice(s).0) == Some(s)
  {
  }

  lemma DefaultStatusIsMaintenance()
    ensures Choice(DefaultStatus) == ('m', "Maintenance")
  {
  }

  function Min(a: int, b: int): int {
    if a <= b then a else b
  }

  /** `Book.display_genre`: the names of the first three genres, joined by ", ". */
  function DisplayGenre(names: seq<string>): string
  {
    Join(names[..Min(3, |names|)], ", ")
  }

  /** The genre summary written out for each number of genres. */
  lemma DisplayGenreCases(names: seq<string>)
    ensures |names| == 0 ==> DisplayGenre(names) == ""
    ensures |names| == 1 ==> DisplayGenre(names) == names[0]
    ensures |names| == 2 ==> DisplayGenre(names) == names[0] + ", " + names[1]
    ensures |names| >= 3 ==> DisplayGenre(names) == names[0] + ", " + names[1] + ", " + names[2]
  {
    if |names| >= 3 {
      var first := names[..3];
      assert first[1..] == names[1..3];
      assert names[1..3][1..] == [names[2]];
      assert Join([names[2]], ", ") == names[2];
      assert Join(names[1..3], ", ") == names[1] + ", " + names[2];
    } else if |names| == 2 {
      assert names[..2][1..] == [names[1]];
      assert Join([names[1]], ", ") == names[1];
    }
  }

  /** A fourth or later genre has no effect on the summary. */
  lemma DisplayGenreIgnoresTail(names: seq<string>, more: seq<string>)
    requires |names| >= 3
    ensures DisplayGenre(names + more) == DisplayGenre(names)
  {
    assert (names + more)[..3] == names[..3];
  }

  /** `BookInstance.is_overdue` as of the date `today`. */
  function IsOverdue(dueBack: Option<Date>, today: Date): bool
  {
    dueBack.Some? && today > dueBack.value
  }

  /** A copy with no due date is never overdue, and one with a due date is overdue exactly from the day after. */
  lemma OverdueExactlyAfterDue(dueBack: Option<Date>, today: Date)
    ensures dueBack.None? ==> !IsOverdue(dueBack, today)
    ensures dueBack.Some? ==> (IsOverdue(dueBack, today) <==> today >= dueBack.value + 1)
  {
  }

  /** Once overdue, a copy stays overdue on every later day. */
  lemma OverdueStaysOverdue(dueBack: Option<Date>, today: Date, later: Date)
    requires IsOverdue(dueBack, today) && today <= later
    ensures IsOverdue(dueBack, later)
  {
  }

  /** `Author.__str__`: "last_name, first_name". */
  function AuthorName(a: Author): string
  {
    a.lastName + ", " + a.firstName
  }

  /** Splits a rendered author name at its first ", ". */
  function ParseAuthorName(s: string): (r: Option<(string, string)>)
    ensures r.Some? ==> r.value.0 + ", " + r.value.1 == s && ',' !in r.value.0
  {
    var k := IndexOf(s, ',');
    if k + 1 < |s| && s[k + 1] == ' ' then
      assert s == s[..k] + ", " + s[k + 2..];
      Some((s[..k], s[k + 2..]))
    else None
  }

  /** The display name determines the author's names when the last name holds no comma. */
  lemma AuthorNameRoundTrip(a: Author)
    requires ',' !in a.lastName
    ensures ParseAuthorName(AuthorName(a)) == Some((a.lastName, a.firstName))
  {
    var s := AuthorName(a);
    var n := |a.lastName|;
    assert s[n] == ',';
    assert forall i :: 0 <= i < n ==> s[i] == a.lastName[i];
    assert IndexOf(s, ',') == n;
    assert s[..n] == a.lastName;
    assert s[n + 2..] == a.firstName;
  }

  /** `Author.Meta.ordering`: by last name, rows given as (primary key, record). */
  predicate AuthorBefore(x: (AuthorId, Author), y: (AuthorId, Author)) {
    LexLe(x.1.lastName, y.1.lastName)
  }

  lemma AuthorOrderIsTotalPreorder()
    ensures Total(AuthorBefore) && Transitive(AuthorBefore)
  {
    forall x: (AuthorId, Author), y: (AuthorId, Author) ensures AuthorBefore(x, y) || AuthorBefore(y, x) {
      LexLeTotal(x.1.lastName, y.1.lastName);
    }
    forall x: (AuthorId, Author), y: (AuthorId, Author), z: (AuthorId, Author)
      | AuthorBefore(x, y) && AuthorBefore(y, z)
      ensures AuthorBefore(x, z)
    {
      LexLeTransitive(x.1.lastName, y.1.lastName, z.1.lastName);
    }
  }

  /** Ascending due dates; a missing date sorts first, as a NULL does in an ascending SQLite ordering. */
  predicate DueBackLe(a: Option<Date>, b: Option<Date>) {
    a.None? || (b.Some? && a.value <= b.value)
  }

  /** `BookInstance.Meta.ordering`: by due date. */
  predicate DueBefore(x: (InstanceId, BookInstance), y: (InstanceId, BookInstance)) {
    DueBackLe(x.1.dueBack, y.1.dueBack)
  }

  lemma DueOrderIsTotalPreorder()
    ensures Total(DueBefore) && Transitive(DueBefore)
  {
  }
}
