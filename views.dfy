/**
 * The read side of the catalogue: the home page's counts and visit
 * counter, the book and author lists served ten records to a page, and the
 * detail lookups.
 */
module Views {
  import opened Wrappers
  import opened Sequences
  import opened Models
  import opened Store

  /** The four numbers the home page shows. */
  datatype Summary = Summary(numBooks: nat, numInstances: nat, numInstancesAvailable: nat, numAuthors: nat)

  /** What `index` hands to its template: the counts and the visitor's updated visit count. */
  datatype IndexContext = IndexContext(summary: Summary, numVisits: int)

  /** The copies whose status is the stored code 'a'. */
  function AvailableCopies(db: Db): (r: set<InstanceId>)
    ensures forall i :: i in r <==> i in db.instances && Choice(db.instances[i].status).0 == 'a'
  {
    set i | i in db.instances && db.instances[i].status == Available
  }

  /** The counts are the sizes of the tables, and no more copies are available than exist. */
  function Counts(db: Db): (s: Summary)
    ensures s.numBooks == |db.books| && s.numInstances == |db.instances| && s.numAuthors == |db.authors|
    ensures s.numInstancesAvailable == |AvailableCopies(db)|
    ensures s.numInstancesAvailable <= s.numInstances
  {
    var available := AvailableCopies(db);
    assert available <= db.instances.Keys;
    SubsetSize(available, db.instances.Keys);
    Summary(|db.books|, |db.instances|, |available|, |db.authors|)
  }

  lemma {:induction false} SubsetSize<T>(a: set<T>, b: set<T>)
    requires a <= b
    ensures |a| <= |b|
  {
    if a != {} {
      var x :| x in a;
      SubsetSize(a - {x}, b - {x});
    }
  }

  /** The session key the visit counter is kept under. */
  const VisitsKey := "num_visits"

  /** The visits stored in a session; a session without the key counts as 0. */
  function Visits(data: map<string, int>): int {
    if VisitsKey in data then data[VisitsKey] else 0
  }

  /** Each call of `index` adds exactly one to the stored count. */
  lemma VisitsGrowByOne(data: map<string, int>)
    ensures Visits(data[VisitsKey := Visits(data) + 1]) == Visits(data) + 1
    ensures Visits(map[]) == 0
  {
  }

  /** A visitor's session: a dictionary that requests read and write in place. */
  class Session {
    var data: map<string, int>

    constructor (data: map<string, int>)
      ensures this.data == data
    {
      this.data := data;
    }
  }

  /** The home page: the four counts, and the visit counter read, incremented and written back. */
  method Index(store: Catalogue, session: Session) returns (ctx: IndexContext)
    modifies session
    ensures session.data == old(session.data)[VisitsKey := old(Visits(session.data)) + 1]
    ensures ctx.numVisits == session.data[VisitsKey] == old(Visits(session.data)) + 1
    ensures ctx.summary == Counts(store.State())
    ensures unchanged(store)
  {
    var summary := Counts(store.State());
    var numVisits := Visits(session.data);
    numVisits := numVisits + 1;
    session.data := session.data[VisitsKey := numVisits];
    ctx := IndexContext(summary, numVisits);
  }

  /** `paginate_by` of the book and author lists. */
  const PageSize: nat := 10

  /** The number of pages for `n` records; an empty list still has its first page. */
  function PageCount(n: nat): (p: nat)
    ensures p >= 1
    ensures (p - 1) * PageSize < n || (n == 0 && p == 1)
    ensures n <= p * PageSize
  {
    if n == 0 then 1 else (n + PageSize - 1) / PageSize
  }

  /** Page `number` (counted from 1) of a listing; a page out of range is not found. */
  function Page<T>(xs: seq<T>, number: int): (r: Result<seq<T>, Error>)
    ensures r.Ok? <==> 1 <= number <= PageCount(|xs|)
    ensures r.Err? ==> r.error == NotFound
    ensures r.Ok? ==> |r.value| <= PageSize
    ensures r.Ok? ==> forall k :: 0 <= k < |r.value| ==>
              (number - 1) * PageSize + k < |xs| && r.value[k] == xs[(number - 1) * PageSize + k]
    ensures r.Ok? && number < PageCount(|xs|) ==> |r.value| == PageSize
    ensures r.Ok? ==> |r.value| == Min(PageSize, |xs| - (number - 1) * PageSize)
    ensures r.Ok? && |xs| > 0 ==> |r.value| > 0
  {
    if 1 <= number <= PageCount(|xs|) then
      var lo := (number - 1) * PageSize;
      var hi := Min(lo + PageSize, |xs|);
      Ok(xs[lo..hi])
    else
      Err(NotFound)
  }

  /** Every record of a listing is on exactly the page its position says. */
  lemma PageOfIndex<T>(xs: seq<T>, i: nat)
    requires i < |xs|
    ensures var p := Page(xs, i / PageSize + 1);
            p.Ok? && i % PageSize < |p.value| && p.value[i % PageSize] == xs[i]
  {
  }

  /** Page `number` of the book list; books have no declared ordering, so they come in key order. */
  function BookListPage(store: Catalogue, number: int): (r: Result<seq<(BookId, Book)>, Error>)
    reads store
    requires store.Valid()
    ensures r.Ok? <==> 1 <= number <= PageCount(|store.books|)
    ensures r.Err? ==> r.error == NotFound
    ensures r.Ok? ==> |r.value| <= PageSize
    ensures r.Ok? && number < PageCount(|store.books|) ==> |r.value| == PageSize
    ensures r.Ok? ==> |r.value| == Min(PageSize, |store.books| - (number - 1) * PageSize)
    ensures r.Ok? ==> var all := Rows(store.books, store.nextId);
              forall k :: 0 <= k < |r.value| ==>
                (number - 1) * PageSize + k < |all| && r.value[k] == all[(number - 1) * PageSize + k]
    ensures r.Ok? ==> forall x :: x in r.value ==> x.0 in store.books && store.books[x.0] == x.1
  {
    assert KeysBelow(store.State(), store.nextId);
    RowsOfWholeTable(store.books, store.nextId);
    Page(Rows(store.books, store.nextId), number)
  }

  /** Page `number` of the author list, in last-name order. */
  function AuthorListPage(store: Catalogue, number: int): (r: Result<seq<(AuthorId, Author)>, Error>)
    reads store
    requires store.Valid()
    ensures r.Ok? <==> 1 <= number <= PageCount(|store.authors|)
    ensures r.Err? ==> r.error == NotFound
    ensures r.Ok? ==> |r.value| <= PageSize
    ensures r.Ok? && number < PageCount(|store.authors|) ==> |r.value| == PageSize
    ensures r.Ok? ==> |r.value| == Min(PageSize, |store.authors| - (number - 1) * PageSize)
    ensures r.Ok? ==> var all := AuthorsInOrder(store.authors, store.nextId);
              forall k :: 0 <= k < |r.value| ==>
                (number - 1) * PageSize + k < |all| && r.value[k] == all[(number - 1) * PageSize + k]
    ensures r.Ok? ==> Sorted(r.value, AuthorBefore)
    ensures r.Ok? ==> forall x :: x in r.value ==> x.0 in store.authors && store.authors[x.0] == x.1
  {
    var all := AuthorsInOrder(store.authors, store.nextId);
    var r := Page(all, number);
    assert r.Ok? ==> forall x :: x in r.value ==> x in all;
    r
  }

  /** The book detail page: the stored book, or not found. */
  function BookDetail(store: Catalogue, id: BookId): (r: Result<Book, Error>)
    reads store
    ensures r.Ok? <==> id in store.books
    ensures r.Ok? ==> r.value == store.books[id]
    ensures r.Err? ==> r.error == NotFound
  {
    if id in store.books then Ok(store.books[id]) else Err(NotFound)
  }

  /** The author detail page: the stored author, or not found. */
  function AuthorDetail(store: Catalogue, id: AuthorId): (r: Result<Author, Error>)
    reads store
    ensures r.Ok? <==> id in store.authors
    ensures r.Ok? ==> r.value == store.authors[id]
    ensures r.Err? ==> r.error == NotFound
  {
    if id in store.authors then Ok(store.authors[id]) else Err(NotFound)
  }
}
