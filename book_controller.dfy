/**
 * The book handlers over an in-memory collection: a map from identifier to book, the identifiers
 * in the collection's natural (insertion) order, and the next fresh identifier.
 */
module BookController {
  import opened Js
  import opened Http
  import opened BookModel
  import opened BookRequests
  import opened BookListing

  const BookNotFound := "Book not found"
  const BookRemoved := "Book removed"

  /** The query string of a listing request. */
  datatype ListQuery = ListQuery(page: Option<nat>, limit: Option<nat>,
                                 title: Option<string>, author: Option<string>, genre: Option<string>)

  /** `page = 1` when the request leaves it out. */
  function PageOf(q: ListQuery): nat {
    if q.page.Some? then q.page.value else DefaultPage
  }

  /** `limit = 10` when the request leaves it out. */
  function LimitOf(q: ListQuery): nat {
    if q.limit.Some? then q.limit.value else DefaultLimit
  }

  datatype ListReply = ListReply(books: seq<StoredBook>, totalPages: nat, currentPage: nat)

  predicate Distinct(ids: seq<BookId>) {
    forall i, j :: 0 <= i < j < |ids| ==> ids[i] != ids[j]
  }

  /** `ids` with `id` taken out, the others keeping their order (as `WithoutAt` states). */
  function Without(ids: seq<BookId>, id: BookId): (r: seq<BookId>)
    ensures forall x :: x in r <==> x in ids && x != id
    ensures Distinct(ids) ==> Distinct(r)
  {
    if ids == [] then []
    else
      var rest := Without(ids[..|ids| - 1], id);
      var last := ids[|ids| - 1];
      assert Distinct(ids) ==> last !in ids[..|ids| - 1];
      if last == id then rest else rest + [last]
  }

  /** Removing an identifier that is not there changes nothing. */
  lemma {:induction false} WithoutAbsent(ids: seq<BookId>, id: BookId)
    requires id !in ids
    ensures Without(ids, id) == ids
    decreases |ids|
  {
    if ids != [] {
      var init := ids[..|ids| - 1];
      WithoutAbsent(init, id);
      assert init + [ids[|ids| - 1]] == ids;
    }
  }

  /**
   * In an order without duplicates, removing the identifier at position `p` cuts out exactly that
   * position: the identifiers before and after it stay, in their order.
   */
  lemma {:induction false} WithoutAt(ids: seq<BookId>, p: nat)
    requires Distinct(ids) && p < |ids|
    ensures Without(ids, ids[p]) == ids[..p] + ids[p + 1..]
    decreases |ids|
  {
    var n := |ids|;
    var init, last := ids[..n - 1], ids[n - 1];
    assert init + [last] == ids;
    if p == n - 1 {
      assert last !in init;
      WithoutAbsent(init, last);
    } else {
      assert last != ids[p];
      assert init[p] == ids[p];
      WithoutAt(init, p);
      assert init[..p] == ids[..p];
      assert init[p + 1..] + [last] == ids[p + 1..];
    }
  }

  /** The records the identifiers `ids` name, in the order of `ids`. */
  function Listing(ids: seq<BookId>, books: map<BookId, Book>): (s: seq<StoredBook>)
    requires forall id :: id in ids ==> id in books
    ensures |s| == |ids|
    ensures forall i :: 0 <= i < |ids| ==> s[i] == StoredBook(ids[i], books[ids[i]])
  {
    seq(|ids|, i requires 0 <= i < |ids| && ids[i] in books => StoredBook(ids[i], books[ids[i]]))
  }

  /** Every record on a page of a filtered listing is stored under its identifier and passes the filter. */
  lemma ListedAreStored(ids: seq<BookId>, books: map<BookId, Book>, f: Filter, skip: nat, limit: nat)
    requires forall id :: id in ids ==> id in books
    ensures forall e :: e in Paginate(Select(Listing(ids, books), f), skip, limit) ==>
                          e.id in books && books[e.id] == e.book && Matches(e.book, f)
  {
    var all := Listing(ids, books);
    var page := Paginate(Select(all, f), skip, limit);
    forall e | e in page
      ensures e.id in books && books[e.id] == e.book && Matches(e.book, f)
    {
      var k :| 0 <= k < |page| && page[k] == e;
      assert e in Select(all, f);
      var i :| 0 <= i < |all| && all[i] == e;
    }
  }

  /**
   * The collection's invariant: each stored book is listed once in `order`, has an identifier
   * below `nextId`, and is well formed.
   */
  ghost predicate Consistent(books: map<BookId, Book>, order: seq<BookId>, nextId: BookId) {
    && Distinct(order)
    && (forall id :: id in order <==> id in books)
    && (forall id :: id in books ==> id < nextId && WellFormed(books[id]))
  }

  /** Storing a well-formed book under the next identifier, at the end of the order, keeps the invariant. */
  lemma AppendKeepsConsistent(books: map<BookId, Book>, order: seq<BookId>, nextId: BookId, b: Book)
    requires Consistent(books, order, nextId) && WellFormed(b)
    ensures nextId !in books && nextId !in order
    ensures Consistent(books[nextId := b], order + [nextId], nextId + 1)
  {
    var order' := order + [nextId];
    forall i, j | 0 <= i < j < |order'|
      ensures order'[i] != order'[j]
    {
      if j == |order| {
        assert order'[i] in order;
      }
    }
  }

  class Catalog {
    var books: map<BookId, Book>
    var order: seq<BookId>
    var nextId: BookId

    ghost predicate Valid()
      reads this
    {
      Consistent(books, order, nextId)
    }

    constructor ()
      ensures Valid() && books == map[] && order == [] && nextId == 0
    {
      books, order, nextId := map[], [], 0;
    }

    /** Every stored book with its identifier, in natural order. */
    function Entries(): seq<StoredBook>
      reads this
      requires Valid()
    {
      Listing(order, books)
    }

    /** `getBook`: the stored book under `id`, or 404 "Book not found"; nothing changes either way. */
    function Get(id: BookId): (r: Outcome<StoredBook>)
      reads this
      ensures r.Ok? <==> id in books
      ensures r.Ok? ==> r == Ok(StatusOk, StoredBook(id, books[id]))
      ensures !r.Ok? ==> r == Fail(StatusNotFound, BookNotFound)
    {
      if id in books then Ok(StatusOk, StoredBook(id, books[id])) else Fail(StatusNotFound, BookNotFound)
    }

    /**
     * `getBooks`: build the query from the truthy parameters, then take one page of the matching
     * books in natural order and count all of them. The current page echoes the request.
     */
    method List(q: ListQuery) returns (r: ListReply)
      requires Valid()
      requires PageOf(q) >= 1 && LimitOf(q) >= 1
      ensures var matching := Select(Entries(), QueryFilter(q.title, q.author, q.genre));
        && r.books == Paginate(matching, Skip(PageOf(q), LimitOf(q)), LimitOf(q))
        && r.totalPages == CeilDiv(|matching|, LimitOf(q))
        && r.currentPage == PageOf(q)
      ensures |r.books| <= LimitOf(q)
      ensures forall e :: e in r.books ==> && e.id in books && books[e.id] == e.book
                                           && Matches(e.book, QueryFilter(q.title, q.author, q.genre))
    {
      var page := if q.page.Some? then q.page.value else DefaultPage;
      var limit := if q.limit.Some? then q.limit.value else DefaultLimit;
      var filter := NoFilter;
      if TruthyString(q.title) { filter := filter.(title := q.title); }
      if TruthyString(q.author) { filter := filter.(author := q.author); }
      if TruthyString(q.genre) { filter := filter.(genre := q.genre); }
      assert filter == QueryFilter(q.title, q.author, q.genre);

      // Book.find(query).limit(limit).skip((page - 1) * limit) and Book.countDocuments(query)
      var matching := Select(Entries(), filter);
      var found := Paginate(matching, (page - 1) * limit, limit);
      var count := |matching|;
      r := ListReply(found, CeilDiv(count, limit), page);
      ListedAreStored(order, books, filter, (page - 1) * limit, limit);
    }

    /**
     * `createBook`: a body that fails Joi or the schema leaves the collection as it was; an
     * admitted one is stored under a fresh identifier at the end of the natural order.
     */
    method Create(body: CreateBody) returns (r: Outcome<StoredBook>)
      requires Valid()
      modifies this
      ensures Valid()
      ensures !Admit(body).Ok? ==> && r == Admit(body).Forward()
                                   && books == old(books) && order == old(order) && nextId == old(nextId)
      ensures Admit(body).Ok? ==> && old(nextId) !in old(books)
                                  && r == Ok(StatusCreated, StoredBook(old(nextId), Admit(body).value))
                                  && books == old(books)[old(nextId) := Admit(body).value]
                                  && order == old(order) + [old(nextId)]
                                  && nextId == old(nextId) + 1
    {
      var admitted := Admit(body);
      if !admitted.Ok? {
        r := admitted.Forward();
        return;
      }
      var id := Insert(admitted.value);
      r := Ok(StatusCreated, StoredBook(id, admitted.value));
    }

    /** `book.save()` of a new, valid document: a fresh identifier, placed last in natural order. */
    method Insert(b: Book) returns (id: BookId)
      requires Valid() && WellFormed(b)
      modifies this
      ensures Valid()
      ensures id == old(nextId) && id !in old(books)
      ensures books == old(books)[id := b] && order == old(order) + [id] && nextId == old(nextId) + 1
    {
      id := nextId;
      AppendKeepsConsistent(books, order, nextId, b);
      books, order, nextId := books[id := b], order + [id], nextId + 1;
    }

    /**
     * `updateBook`: 404 when `id` is unknown; otherwise the fetched book's paths are assigned
     * `value || old` and the book is saved, unless the schema rejects it. No other book changes.
     */
    method Update(id: BookId, req: UpdateBody) returns (r: Outcome<StoredBook>)
      requires Valid()
      modifies this
      ensures Valid()
      ensures order == old(order) && nextId == old(nextId)
      ensures id !in old(books) ==> r == Fail(StatusNotFound, BookNotFound) && books == old(books)
      ensures id in old(books) ==>
        var revised := Revise(req, old(books)[id]);
        && (revised.Rejected? ==> r == Thrown(revised.message) && books == old(books))
        && (revised.Accepted? ==> && r == Ok(StatusOk, StoredBook(id, revised.book))
                                  && books == old(books)[id := revised.book])
    {
      if id !in books {
        r := Fail(StatusNotFound, BookNotFound);
        return;
      }
      var book := books[id];
      var doc := Document(Some(book.title), Some(book.author), Some(book.genre),
                          Some(book.description), Some(book.price));
      doc := doc.(title := Some(Trim(OrString(req.title, book.title))));
      doc := doc.(author := Some(OrString(req.author, book.author)));
      doc := doc.(genre := Some(OrString(req.genre, book.genre)));
      doc := doc.(description := Some(OrString(req.description, book.description)));
      doc := doc.(price := Some(OrNumber(req.price, book.price)));
      assert doc == MergedDocument(req, book);
      var saved := Validate(doc);
      if saved.Rejected? {
        r := Thrown(saved.message);
        return;
      }
      Replace(id, saved.book);
      r := Ok(StatusOk, StoredBook(id, saved.book));
    }

    /** Saving a valid document over the stored book `id`; no other book and not the order changes. */
    method Replace(id: BookId, b: Book)
      requires Valid() && id in books && WellFormed(b)
      modifies this
      ensures Valid()
      ensures books == old(books)[id := b] && order == old(order) && nextId == old(nextId)
    {
      books := books[id := b];
    }

    /** `deleteBook`: 404 when `id` is unknown; otherwise only that book leaves the collection. */
    method Delete(id: BookId) returns (r: Outcome<string>)
      requires Valid()
      modifies this
      ensures Valid()
      ensures nextId == old(nextId)
      ensures id !in old(books) ==> r == Fail(StatusNotFound, BookNotFound) && books == old(books) && order == old(order)
      ensures id in old(books) ==> && r == Ok(StatusOk, BookRemoved)
                                   && books == old(books) - {id}
                                   && order == Without(old(order), id)
                                   && (forall p :: 0 <= p < |old(order)| && old(order)[p] == id ==>
                                         order == old(order)[..p] + old(order)[p + 1..])
    {
      if id !in books {
        r := Fail(StatusNotFound, BookNotFound);
        return;
      }
      var before := order;
      books := books - {id};
      order := Without(order, id);
      forall p | 0 <= p < |before| && before[p] == id
        ensures order == before[..p] + before[p + 1..]
      {
        WithoutAt(before, p);
      }
      r := Ok(StatusOk, BookRemoved);
    }
  }

  /**
   * The book test's sequence on an empty collection: create a complete book, raise its price
   * alone, delete it, then fetch and delete it again.
   */
  method BookLifecycle(title: string, author: string, genre: string, description: string, price: int, newPrice: int)
    returns (created: Outcome<StoredBook>, updated: Outcome<StoredBook>,
             removed: Outcome<string>, fetchedAfter: Outcome<StoredBook>, removedAgain: Outcome<string>)
    requires NoOuterBlanks(title) && title != "" && author != "" && genre != "" && description != ""
    requires -MaxSafeInteger <= price <= MaxSafeInteger && newPrice != 0
    ensures created == Ok(StatusCreated, StoredBook(0, Book(title, author, genre, description, price)))
    ensures updated == Ok(StatusOk, StoredBook(0, Book(title, author, genre, description, newPrice)))
    ensures removed == Ok(StatusOk, BookRemoved)
    ensures fetchedAfter == Fail(StatusNotFound, BookNotFound)
    ensures removedAgain == Fail(StatusNotFound, BookNotFound)
  {
    var catalog := new Catalog();
    var book := Book(title, author, genre, description, price);
    var body := CreateBody(Some(JString(title)), Some(JString(author)), Some(JString(genre)),
                           Some(JString(description)), Some(JNumber(price)), []);
    TrimFixesTrimmed(title);
    CompleteBodyAdmitted(title, author, genre, description, price);
    created := catalog.Create(body);
    PriceOnlyUpdate(book, newPrice);
    updated := catalog.Update(0, UpdateBody(None, None, None, None, Some(newPrice)));
    removed := catalog.Delete(0);
    fetchedAfter := catalog.Get(0);
    removedAgain := catalog.Delete(0);
  }

  /** After creating one book in an empty collection, searching for its title lists it on a single page. */
  method SearchSoleBook(title: string, author: string, genre: string, description: string, price: int)
    returns (searched: ListReply)
    requires NoOuterBlanks(title) && title != "" && author != "" && genre != "" && description != ""
    requires -MaxSafeInteger <= price <= MaxSafeInteger
    ensures searched == ListReply([StoredBook(0, Book(title, author, genre, description, price))], 1, 1)
  {
    var catalog := new Catalog();
    TrimFixesTrimmed(title);
    CompleteBodyAdmitted(title, author, genre, description, price);
    var created := catalog.Create(CreateBody(Some(JString(title)), Some(JString(author)), Some(JString(genre)),
                                             Some(JString(description)), Some(JNumber(price)), []));
    var entry := StoredBook(0, Book(title, author, genre, description, price));
    assert catalog.Entries() == [entry];
    SearchOneBookByTitle(entry);
    searched := catalog.List(ListQuery(None, None, Some(title), None, None));
  }
}
