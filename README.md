# Local library catalogue: a Dafny model

This project models the core of a small library catalogue (a Django application; its `catalog` app).
The catalogue records genres, languages, authors, books and the physical copies of books ("book instances"). Each copy carries a loan status.

The model has two parts. The first is the store and the rules the schema puts on it:

- a language's name is unique even after lower-casing;
- deleting an author deletes that author's books, and deleting a book deletes its copies (CASCADE);
- deleting a language clears the language of its books, and deleting a user clears the borrower of the copies lent to that user (SET_NULL);
- the loan-status choices, with Maintenance as the default;
- the default orderings: authors by last name, copies by due date;
- the values a record derives: a book's genre summary, whether a copy is overdue, and an author's display name.

The second part is the read side: the home page's four counts and per-session visit counter, the book and author lists served ten to a page, and the detail lookups.

Layout, one module per file:

- `wrappers.dfy` (`Wrappers`): `Option`, `Result`, `Outcome`.
- `text.dfy` (`Text`): ASCII lower-casing (the `Lower('name')` of the constraint), Python's `str.join`, and the code-point lexicographic order (`LexLe`) that a binary collation sorts strings by.
- `sequences.dfy` (`Sequences`): sortedness, an insertion sort `SortBy` proved to return a sorted permutation, and duplicate-free sequences.
- `models.dfy` (`Models`): the five record kinds, `LOAN_STATUS`, `display_genre`, `is_overdue`, `Author.__str__` and the two `Meta.ordering`s.
- `store.dfy` (`Store`): the value `Db` of all tables and its invariant `Consistent`. There is one pure function per delete, giving the state after its referential actions, and a lemma that each delete keeps `Consistent`. The class `Catalogue` holds the tables as map fields that its insert and delete methods update in place. Each method's `ensures` equates the new state with the pure function of the old one.
- `views.dfy` (`Views`): the counts of `index`, and a `Session` class whose `data` map `Index` reads, increments and writes back. Also pagination with `paginate_by = 10`, the list pages and the detail lookups.
- `scenarios.dfy` (`Scenarios`): client methods that call the store's and the views' methods and functions and rely on their contracts; one local lemma, `SingleRow`, unfolds `Store.Rows` for a one-row table. They check an author with one book and the home page's counts, a language insert refused for a case-only clash and for an exact repeat, and a language delete followed by an author delete.

Decisions that the source leaves to the framework:

- Primary keys (auto-increment ids and the copies' `uuid4`) are abstract. The store hands out a fresh key from a counter `nextId`, and `KeysBelow` keeps every key in use below it.
- A date is a day number (`Date = int`). The clock `date.today()` becomes the parameter `today`.
- `Lower` lower-cases the ASCII letters only.
- Inserting a language's exact duplicate fails on the field's `unique=True` (`UniqueViolation("name")`). A name that differs from a stored one only in case fails the `Lower('name')` constraint with its message `"Language already exists (case insensitive match)"`. Reporting only the field error for an exact repeat is a modelling choice: the framework code that orders the two checks is not part of this model. The message is the one in `locallibrary/catalog/models.py:38`.
- A reference to a missing author, language, genre, book or user is refused with `ForeignKeyViolation`, as the database's foreign-key check would refuse it.
- Strings sort by code point (`LexLe`), which is how SQLite's default binary collation orders UTF-8 text. An absent due date sorts first, as a NULL does in an ascending SQLite ordering.
- `Book` declares no ordering, so the book list comes out in primary-key order (`Rows`).
- A book's genres are the rows of its many-to-many relation, kept in the order they were linked. A genre given twice is linked once (`Dedup`). `display_genre` takes the first three of that order. The query has no `ORDER BY`, so the order a real database returns may differ.

## Model

| member | source | states |
|---|---|---|
| `Text.LowerChar` | locallibrary/catalog/models.py:36 | the result is never an upper-case ASCII letter; a character that is not one is kept; an upper-case letter moves by the distance from 'A' to 'a' |
| `Text.Lower` | locallibrary/catalog/models.py:36 | keeps the length and leaves no upper-case ASCII letter |
| `Text.LowerIdempotent` | locallibrary/catalog/models.py:36 | lower-casing twice is lower-casing once |
| `Text.LowerEqualIff` | locallibrary/catalog/models.py:33-40 | two names clash under the constraint exactly when they have the same length and agree character by character up to case |
| `Text.Join` | locallibrary/catalog/models.py:64 | `', '.join`: the parts in order with the separator between neighbours; its length and its growth by one part are stated by `Text.JoinLength` and `Text.JoinSnoc` |
| `Text.JoinLength` | locallibrary/catalog/models.py:64 | a join holds every part plus one separator between each two neighbouring parts |
| `Text.JoinSnoc` | locallibrary/catalog/models.py:64 | joining one more part appends the separator and that part |
| `Text.LexLeReflexive` | locallibrary/catalog/models.py:113 | the string order puts every string at or before itself |
| `Text.LexLeTotal` | locallibrary/catalog/models.py:113 | any two strings are ordered one way or the other |
| `Text.LexLeTransitive` | locallibrary/catalog/models.py:113 | the string order is transitive |
| `Text.LexLeAntisymmetric` | locallibrary/catalog/models.py:113 | only equal strings are ordered both ways |
| `Sequences.Insert` | locallibrary/catalog/models.py:112-113 | inserting into a sorted listing gives a sorted listing with exactly one more element |
| `Sequences.SortBy` | locallibrary/catalog/models.py:112-113 | the result is sorted by the given total preorder and is a permutation of the input |
| `Sequences.Dedup` | locallibrary/catalog/models.py:51 | the result has no repeats and holds exactly the input's elements, and a repeat-free input is kept as it is |
| `Sequences.Remove` | locallibrary/catalog/models.py:51 | the result holds exactly the elements other than the removed one, and removal keeps a sequence repeat-free |
| `Models.Choice` | locallibrary/catalog/models.py:76-83 | every status is saved as one of the four (code, label) pairs of `LOAN_STATUS` |
| `Models.ParseStatus` | locallibrary/catalog/models.py:76-83 | a code is accepted exactly when it is one of the codes of `LOAN_STATUS`, and it reads as the status saved under it |
| `Models.StatusRoundTrip` | locallibrary/catalog/models.py:76-81 | every status's code reads back as that same status |
| `Models.DefaultStatusIsMaintenance` | locallibrary/catalog/models.py:83 | the default status is saved as `('m', "Maintenance")` |
| `Models.DisplayGenre` | locallibrary/catalog/models.py:63-64 | the names of at most the first three genres, joined by ", "; `Models.DisplayGenreCases` and `Models.DisplayGenreIgnoresTail` state what it shows for each number of genres |
| `Models.DisplayGenreCases` | locallibrary/catalog/models.py:63-64 | with no genres the summary is ""; with one, two or three or more it is the first one, two or three names separated by ", " |
| `Models.DisplayGenreIgnoresTail` | locallibrary/catalog/models.py:63-64 | genres after the third do not change the summary |
| `Models.IsOverdue` | locallibrary/catalog/models.py:93-95 | a copy is overdue when it has a due date and today is after it; `Models.OverdueExactlyAfterDue` and `Models.OverdueStaysOverdue` state both directions and monotonicity in the date |
| `Models.OverdueExactlyAfterDue` | locallibrary/catalog/models.py:93-95 | a copy without a due date is never overdue; one with a due date is overdue exactly from the day after it |
| `Models.OverdueStaysOverdue` | locallibrary/catalog/models.py:93-95 | a copy that is overdue on one day is overdue on every later day |
| `Models.AuthorName` | locallibrary/catalog/models.py:109-110 | an author renders as "last_name, first_name"; `Models.AuthorNameRoundTrip` states that the rendering can be split back into the two names |
| `Models.ParseAuthorName` | locallibrary/catalog/models.py:109-110 | a successful split gives a last name without a comma and a first name that render back to the input |
| `Models.AuthorNameRoundTrip` | locallibrary/catalog/models.py:109-110 | "last_name, first_name" splits back into the two names when the last name has no comma |
| `Models.AuthorBefore` | locallibrary/catalog/models.py:112-113 | authors are ordered by last name; `Models.AuthorOrderIsTotalPreorder` states that this is a total preorder, so sorting by it is well defined |
| `Models.AuthorOrderIsTotalPreorder` | locallibrary/catalog/models.py:112-113 | ordering authors by last name is total and transitive |
| `Models.DueBackLe` | locallibrary/catalog/models.py:86-87 | due dates ordered ascending with a missing date first; `Models.DueOrderIsTotalPreorder` states that the induced copy order is total and transitive |
| `Models.DueBefore` | locallibrary/catalog/models.py:86-87 | copies are ordered by due date; `Models.DueOrderIsTotalPreorder` states that this is a total preorder |
| `Models.DueOrderIsTotalPreorder` | locallibrary/catalog/models.py:86-87 | ordering copies by due date, absent dates first, is total and transitive |
| `Store.LanguagesUnique` | locallibrary/catalog/models.py:33-40 | no two stored languages have the same name after lower-casing; `Store.AcceptedLanguageKeepsUnique` and `Store.Catalogue.InsertLanguage` state that inserts keep it |
| `Store.Consistent` | locallibrary/catalog/models.py:33-74 | the invariant every operation keeps: language names are unique after lower-casing; every book's author, language and genres and every copy's book and borrower name a stored record; a book links each genre once |
| `Store.LanguageNameError` | locallibrary/catalog/models.py:22-40 | a name is accepted exactly when no stored name equals it after lower-casing; an exact repeat is a `unique=True` violation on `name`; any other refusal is the constraint's violation with its name and message |
| `Store.ExactDuplicateRefused` | locallibrary/catalog/models.py:23-24 | a name equal to a stored one is always refused as a unique-field violation |
| `Store.CaseDuplicateRefused` | locallibrary/catalog/models.py:33-40 | a name that equals a stored one only up to case is refused with "Language already exists (case insensitive match)" |
| `Store.AcceptedLanguageKeepsUnique` | locallibrary/catalog/models.py:33-40 | an accepted insert keeps the stored names pairwise distinct after lower-casing |
| `Store.WithoutBooks` | locallibrary/catalog/models.py:71 | deleting books removes exactly those books and exactly the copies that refer to them, and changes nothing else |
| `Store.WithoutBooksKeepsConsistent` | locallibrary/catalog/models.py:71 | after the cascade no copy refers to a missing book and no other reference dangles |
| `Store.WithoutAuthor` | locallibrary/catalog/models.py:47 | deleting an author removes that author, exactly the books whose author it was, and exactly the copies of those books, and changes nothing else |
| `Store.WithoutAuthorKeepsConsistent` | locallibrary/catalog/models.py:47 | after the cascade no book refers to the deleted author and no reference dangles |
| `Store.WithoutLanguage` | locallibrary/catalog/models.py:52 | deleting a language keeps every book, clears the language of exactly the books that had it, and changes no other field |
| `Store.WithoutLanguageKeepsConsistent` | locallibrary/catalog/models.py:52 | after the set-null no reference dangles |
| `Store.WithoutUser` | locallibrary/catalog/models.py:74 | deleting a user keeps every copy, clears the borrower of exactly the copies lent to that user, and changes no other field |
| `Store.WithoutUserKeepsConsistent` | locallibrary/catalog/models.py:74 | after the set-null no reference dangles |
| `Store.WithoutGenre` | locallibrary/catalog/models.py:51 | deleting a genre keeps every book and unlinks exactly that genre from each, changing no other field |
| `Store.WithoutGenreKeepsConsistent` | locallibrary/catalog/models.py:51 | after the unlinking no book refers to a missing genre |
| `Store.WithoutInstance` | locallibrary/catalog/models.py:69-74 | deleting a copy removes only that copy and keeps the store consistent |
| `Store.Rows` | locallibrary/catalog/views.py:30-32 | a table lists as its rows exactly, each once, in ascending key order |
| `Store.RowsOfWholeTable` | locallibrary/catalog/views.py:30-32 | when every key is below the bound, the listing has exactly as many rows as the table |
| `Store.GenreNames` | locallibrary/catalog/models.py:64 | the k-th name is the name of the k-th linked genre |
| `Store.BookDisplayGenre` | locallibrary/catalog/models.py:63-64 | a stored book's genre summary built from its linked genres' names; `Store.BookDisplayGenreFirstThree` states that it names the first three |
| `Store.BookDisplayGenreFirstThree` | locallibrary/catalog/models.py:63-64 | a stored book with three or more genres shows the names of its first three linked genres, comma-separated |
| `Store.AuthorsInOrder` | locallibrary/catalog/models.py:112-113 | the author listing holds exactly the stored authors, each once (as many rows as authors), sorted by last name |
| `Store.InstancesInOrder` | locallibrary/catalog/models.py:86-87 | the copies listing holds exactly the stored copies, each once (as many rows as copies), sorted by due date |
| `Store.Catalogue.constructor` | locallibrary/catalog/models.py:14-113 | a new store is empty and consistent |
| `Store.Catalogue.InsertGenre` | locallibrary/catalog/models.py:14-16 | adds one genre under a fresh key and changes nothing else |
| `Store.Catalogue.InsertLanguage` | locallibrary/catalog/models.py:22-40 | fails, changing nothing, exactly when the name clashes with a stored one (same error as `LanguageNameError`); otherwise adds the language under a fresh key; names stay unique up to case |
| `Store.Catalogue.InsertAuthor` | locallibrary/catalog/models.py:99-103 | adds one author under a fresh key and changes nothing else |
| `Store.Catalogue.InsertBook` | locallibrary/catalog/models.py:44-52 | fails, changing nothing, exactly when the author, the language or a genre does not exist; otherwise adds the book with each genre linked once |
| `Store.Catalogue.InsertInstance` | locallibrary/catalog/models.py:69-83 | fails, changing nothing, exactly when the book or the borrower does not exist; otherwise adds the copy under a fresh key, with status Maintenance unless one is given |
| `Store.Catalogue.AddUser` | locallibrary/catalog/models.py:74 | adds one user under a fresh key and changes nothing else |
| `Store.Catalogue.DeleteGenre` | locallibrary/catalog/models.py:51 | not found, changing nothing, exactly when the genre is absent; otherwise the state becomes `WithoutGenre` of the old |
| `Store.Catalogue.DeleteLanguage` | locallibrary/catalog/models.py:52 | not found, changing nothing, exactly when the language is absent; otherwise the state becomes `WithoutLanguage` of the old |
| `Store.Catalogue.DeleteAuthor` | locallibrary/catalog/models.py:47 | not found, changing nothing, exactly when the author is absent; otherwise the state becomes `WithoutAuthor` of the old |
| `Store.Catalogue.DeleteBook` | locallibrary/catalog/models.py:71 | not found, changing nothing, exactly when the book is absent; otherwise the book and its copies are removed (`WithoutBooks`) |
| `Store.Catalogue.DeleteInstance` | locallibrary/catalog/models.py:69-71 | not found, changing nothing, exactly when the copy is absent; otherwise only that copy is removed |
| `Store.Catalogue.DeleteUser` | locallibrary/catalog/models.py:74 | not found, changing nothing, exactly when the user is absent; otherwise the state becomes `WithoutUser` of the old |
| `Views.AvailableCopies` | locallibrary/catalog/views.py:9 | holds exactly the copies whose stored status code is 'a' |
| `Views.Counts` | locallibrary/catalog/views.py:7-10 | the book, copy and author counts are the table sizes; the available count is the number of copies with status 'a' and is at most the number of copies |
| `Views.Visits` | locallibrary/catalog/views.py:12-13 | the stored `num_visits` count, 0 when the session has none; `Views.VisitsGrowByOne` states that the index view's update raises it by exactly one |
| `Views.VisitsGrowByOne` | locallibrary/catalog/views.py:12-14 | a missing counter reads as 0, and writing back the read value plus one makes the counter read exactly one more |
| `Views.Index` | locallibrary/catalog/views.py:6-23 | returns the counts of the current store; writes the old visit count (0 if missing) plus one under `num_visits` and changes no other session key; returns that same value; leaves the store unchanged |
| `Views.PageCount` | locallibrary/catalog/views.py:32 | there is at least one page, all records fit on the pages, and only an empty list has an empty last page |
| `Views.Page` | locallibrary/catalog/views.py:30-32 | a page exists exactly for numbers 1 to the page count (otherwise not found); it holds at most 10 consecutive records starting at (number - 1) * 10, exactly min(10, records left from there) of them, so every page but the last is full and no page of a non-empty list is empty |
| `Views.PageOfIndex` | locallibrary/catalog/views.py:30-32 | the record at position i is on page i / 10 + 1, at position i % 10 |
| `Views.BookListPage` | locallibrary/catalog/views.py:30-32 | a book page exists exactly for numbers 1 to the page count of the book table (otherwise not found); it is the slice of the key-ordered book listing starting at (number - 1) * 10, exactly min(10, books left from there) books, each as stored |
| `Views.AuthorListPage` | locallibrary/catalog/views.py:40-42 | an author page exists exactly for numbers 1 to the page count of the author table (otherwise not found); it is the slice of the last-name-ordered author listing starting at (number - 1) * 10, exactly min(10, authors left from there) authors, each as stored |
| `Views.BookDetail` | locallibrary/catalog/views.py:36-37 | finds the stored book exactly when its key is present, and reports not found otherwise |
| `Views.AuthorDetail` | locallibrary/catalog/views.py:45-46 | finds the stored author exactly when its key is present, and reports not found otherwise |
| `Scenarios.HobbitScenario` | locallibrary/catalog/views.py:6-14 | after adding one author and one book, the home page counts one book, no copies and one author; a first visit counts 1; the first book page lists that book alone |
| `Scenarios.LanguageScenario` | locallibrary/catalog/models.py:22-40 | "English" is accepted; "ENGLISH" is then refused with the constraint's message; "English" again is refused on the unique field |
| `Scenarios.CascadeScenario` | locallibrary/catalog/models.py:47-52 | deleting the language keeps the book and its copy, with no language; deleting the author then leaves no book and no copy |

## Left out

- Everything in `locallibrary/catalog/admin.py`: list columns, field groups, filters and inlines with no extra rows. It is display configuration with no logic. Updating records through the admin forms is left out with it, so no operation changes a stored record other than by the referential actions above.
- The ORM, query and SQL mechanics, and `get_absolute_url`. The latter builds URLs with `reverse()`, framework code that is not part of this model.
- Template rendering in `index`. `Views.Index` returns the context the template would receive.
- Random UUID generation for copies. Keys are abstract fresh values from a counter.
- The clock. `is_overdue` takes `today` as a parameter.
- Unicode case folding. `Text.Lower` lower-cases the ASCII letters only.
- The user and authentication subsystem. Users are a set of keys that `AddUser` extends and `DeleteUser` shrinks. Permissions (`can_mark_returned`), `help_text`, `verbose_name` and other translated strings are left out too.
- `max_length` bounds (200, 100, 13 and 1000 characters). Neither inserts nor the invariant check them.
- Required (non-blank) character fields: `Genre.name` (`locallibrary/catalog/models.py:16`), `Language.name` (`:23`), `Book.title`, `Book.summary` and `Book.isbn` (`:46`, `:49`, `:50`), `BookInstance.imprint` (`:72`) and `Author.first_name` and `Author.last_name` (`:100-101`). Django's forms refuse these when empty; the model's inserts accept an empty string, so `InsertLanguage("")` succeeds. The required references are left out under the same rule: `Book.author` (`:47`), `Book.genre` (`:51`), `Book.language` (`:52`) and `BookInstance.book` (`:71`) declare no `blank=True`, so a form demands them. The model follows the schema's `null=True` instead: `InsertBook` accepts no author, no language and an empty genre list, and `InsertInstance` accepts no book.
- `Store.LanguageNameError`: an exact repeat of a stored name reports only the field's `UniqueViolation("name")`. A validation path that also checks the `Lower('name')` constraint would report its message too; the model reports one error.
- `Models.ParseStatus`: does not accept the empty code. `blank=True` on `status` lets an admin form save an empty status; the model's statuses are the four choices only.
- `BookInstance.__str__`. It formats the UUID, which the model keeps abstract. It also reads `self.book.title`, which raises when the copy has no book. The trivial `__str__` of Genre, Language and Book, which return the name or title, is left out too.
- Concurrent requests and concurrent session updates. Isolation is the storage layer's concern, and each request is modelled as one sequential call.
- Pagination internals. `Views.Page` covers numbered pages with the empty first page allowed. The page aliases `last` and non-numeric page parameters are left out.
- `Views.BookListPage`: the book list's order is primary-key order; a real database without `ORDER BY` promises no order.
