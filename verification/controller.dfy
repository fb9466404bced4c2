/**
 * The backend `BooksController`: the paginated, sortable, filterable list
 * query and the create/read/update/delete rules over the book table.
 *
 * The table is the sequence of its rows in storage order. Database writes,
 * key generation and the optimistic-concurrency outcome of a save are
 * inputs rather than effects.
 */
module BooksController {
  import opened Wrappers
  import opened Text
  import opened Books
  import opened Paging

  /** Page numbers below 1 become 1. */
  function ClampPageNumber(p: int): int
  {
    if p < 1 then 1 else p
  }

  /** Page sizes below 1 fall back to 5 and sizes above 50 are capped at 50. */
  function ClampPageSize(n: int): int
  {
    if n < 1 then 5 else if n > 50 then 50 else n
  }

  /** The lower-case allow-list name of a sortable field. */
  function FieldName(f: Field): string
  {
    match f
    case Title => "title"
    case Author => "author"
    case Publisher => "publisher"
    case Isbn => "isbn"
    case Classification => "classification"
    case Category => "category"
    case PageCount => "pagecount"
    case Price => "price"
  }

  /** The field a `sortField` argument selects: matched case-insensitively, Title by default. */
  function SortFieldOf(sortField: string): Field
  {
    var key := Lower(sortField);
    if key == "title" then Title
    else if key == "author" then Author
    else if key == "publisher" then Publisher
    else if key == "isbn" then Isbn
    else if key == "classification" then Classification
    else if key == "category" then Category
    else if key == "pagecount" then PageCount
    else if key == "price" then Price
    else Title
  }

  function BackendComparator(sortField: string, sortOrder: string): Comparator
  {
    ByField(SortFieldOf(sortField), IsDescending(sortOrder))
  }

  /**
   * Sort dispatch: every allow-listed name selects its own field whatever
   * its case, and a name outside the allow-list selects Title.
   */
  lemma SortFieldDispatch(sortField: string)
    ensures forall f :: Lower(sortField) == FieldName(f) ==> SortFieldOf(sortField) == f
    ensures (forall f :: Lower(sortField) != FieldName(f)) ==> SortFieldOf(sortField) == Title
    ensures SortFieldOf(sortField) == SortFieldOf(Lower(sortField))
  {
    LowerIdempotent(sortField);
    if forall f :: Lower(sortField) != FieldName(f) {
      assert Lower(sortField) != FieldName(Title) && Lower(sortField) != FieldName(Author);
      assert Lower(sortField) != FieldName(Publisher) && Lower(sortField) != FieldName(Isbn);
      assert Lower(sortField) != FieldName(Classification) && Lower(sortField) != FieldName(Category);
      assert Lower(sortField) != FieldName(PageCount) && Lower(sortField) != FieldName(Price);
    }
  }

  /** Naming a field by its allow-list name, in any case, selects that field. */
  lemma SortFieldOfName(f: Field)
    ensures SortFieldOf(FieldName(f)) == f
  {
    SortFieldDispatch(FieldName(f));
    assert Lower(FieldName(f)) == FieldName(f);
  }

  lemma NonNegativeProduct(a: int, b: int)
    requires a >= 0 && b >= 0
    ensures a * b >= 0
  {
  }

  /**
   * With distinct keys and one page holding every match, asking for "desc"
   * returns exactly the reverse of asking for "asc".
   */
  lemma GetBooksDescReversesAsc(rows: seq<Book>, pageSize: int, sortField: string, category: string)
    requires 1 <= pageSize <= 50
    requires |FilterCategory(rows, category)| <= pageSize
    requires DistinctKeys(SortFieldOf(sortField), FilterCategory(rows, category))
    ensures GetBooks(rows, 1, pageSize, sortField, "desc", category).books
         == Reverse(GetBooks(rows, 1, pageSize, sortField, "asc", category).books)
  {
    var m := FilterCategory(rows, category);
    var f := SortFieldOf(sortField);
    assert IsDescending("desc") && !IsDescending("asc") by {
      assert Lower("desc") == "desc" && Lower("asc") == "asc";
    }
    var down, up := Sort(ByField(f, true), m), Sort(ByField(f, false), m);
    SortLength(ByField(f, true), m);
    SortLength(ByField(f, false), m);
    assert GetBooks(rows, 1, pageSize, sortField, "desc", category).books == SkipTake(down, Offset(1, pageSize), pageSize);
    assert GetBooks(rows, 1, pageSize, sortField, "asc", category).books == SkipTake(up, Offset(1, pageSize), pageSize);
    WholePage(down, pageSize);
    WholePage(up, pageSize);
    DescendingReversesAscending(f, m);
  }

  /** `GET api/Books`: clamp, filter, count, sort, then cut out one page. */
  function GetBooks(rows: seq<Book>, pageNumber: int, pageSize: int,
                    sortField: string, sortOrder: string, category: string): (r: PagedResult)
    ensures r.pageNumber >= 1 && (pageNumber >= 1 ==> r.pageNumber == pageNumber)
    ensures pageNumber < 1 ==> r.pageNumber == 1
    ensures 1 <= r.pageSize <= 50
    ensures 1 <= pageSize <= 50 ==> r.pageSize == pageSize
    ensures pageSize < 1 ==> r.pageSize == 5
    ensures pageSize > 50 ==> r.pageSize == 50
    ensures r.sortField == sortField && r.sortOrder == sortOrder && r.category == category
  {
    var p := ClampPageNumber(pageNumber);
    var n := ClampPageSize(pageSize);
    var filtered := FilterCategory(rows, category);
    PagedResult(SkipTake(BackendListing(rows, sortField, sortOrder, category), Offset(p, n), n),
                p, n, |filtered|, Count(CeilDiv(|filtered|, n)), sortField, sortOrder, category)
  }

  /** Every stored book that passes the filter, in the order the query asks for. */
  function BackendListing(rows: seq<Book>, sortField: string, sortOrder: string, category: string): seq<Book>
  {
    Sort(BackendComparator(sortField, sortOrder), FilterCategory(rows, category))
  }

  /**
   * The count is taken over the filtered books before paging, so it does not
   * depend on sorting or on the page asked for; the page count is its
   * ceiling quotient by the page size.
   */
  lemma GetBooksTotals(rows: seq<Book>, pageNumber: int, pageSize: int,
                       sortField: string, sortOrder: string, category: string)
    ensures GetBooks(rows, pageNumber, pageSize, sortField, sortOrder, category).totalCount
         == |FilterCategory(rows, category)|
         == |BackendListing(rows, sortField, sortOrder, category)|
    ensures GetBooks(rows, pageNumber, pageSize, sortField, sortOrder, category).totalPages.Count?
    ensures IsPageCount(|FilterCategory(rows, category)|, ClampPageSize(pageSize),
                        GetBooks(rows, pageNumber, pageSize, sortField, sortOrder, category).totalPages.n)
  {
    SortLength(BackendComparator(sortField, sortOrder), FilterCategory(rows, category));
  }

  /**
   * The page is the run of the sorted, filtered books that starts at offset
   * `(pageNumber - 1) * pageSize`, taken after clamping; a page past the end
   * is empty.
   */
  lemma GetBooksPage(rows: seq<Book>, pageNumber: int, pageSize: int,
                     sortField: string, sortOrder: string, category: string)
    ensures |GetBooks(rows, pageNumber, pageSize, sortField, sortOrder, category).books|
         == Min(ClampPageSize(pageSize),
                Max(0, |FilterCategory(rows, category)| - Offset(ClampPageNumber(pageNumber), ClampPageSize(pageSize))))
    ensures Offset(ClampPageNumber(pageNumber), ClampPageSize(pageSize)) >= |FilterCategory(rows, category)|
            ==> GetBooks(rows, pageNumber, pageSize, sortField, sortOrder, category).books == []
    ensures RunAt(GetBooks(rows, pageNumber, pageSize, sortField, sortOrder, category).books,
                  BackendListing(rows, sortField, sortOrder, category),
                  Offset(ClampPageNumber(pageNumber), ClampPageSize(pageSize)))
  {
    var filtered := FilterCategory(rows, category);
    var sorted := BackendListing(rows, sortField, sortOrder, category);
    var p, n := ClampPageNumber(pageNumber), ClampPageSize(pageSize);
    var skip := Offset(p, n);
    assert GetBooks(rows, pageNumber, pageSize, sortField, sortOrder, category).books == SkipTake(sorted, skip, n);
    assert skip >= 0 by { NonNegativeProduct(p - 1, n); }
    SortLength(BackendComparator(sortField, sortOrder), filtered);
    PageOf(sorted, skip, n);
  }

  /**
   * The page holds only stored books that pass the category filter, ordered
   * by the dispatched field: non-decreasing, or non-increasing when the order
   * is "desc" in any case.
   */
  lemma GetBooksOrder(rows: seq<Book>, pageNumber: int, pageSize: int,
                      sortField: string, sortOrder: string, category: string)
    ensures forall b :: b in GetBooks(rows, pageNumber, pageSize, sortField, sortOrder, category).books ==>
              b in rows && (IsBlank(category) || MatchesCategory(b, category))
    ensures !IsDescending(sortOrder) ==>
              Ascending(SortFieldOf(sortField), GetBooks(rows, pageNumber, pageSize, sortField, sortOrder, category).books)
    ensures IsDescending(sortOrder) ==>
              Descending(SortFieldOf(sortField), GetBooks(rows, pageNumber, pageSize, sortField, sortOrder, category).books)
  {
    var r := GetBooks(rows, pageNumber, pageSize, sortField, sortOrder, category);
    var c := BackendComparator(sortField, sortOrder);
    var sorted := BackendListing(rows, sortField, sortOrder, category);
    SkipTakeSorted(c, sorted, Offset(r.pageNumber, r.pageSize), r.pageSize);
    FilterCategorySound(rows, category);
    assert SortedBy(c, r.books);
  }

  /** Non-decreasing in field `f`. */
  ghost predicate Ascending(f: Field, s: seq<Book>)
  {
    forall i, j :: 0 <= i < j < |s| ==> CompareBy(f, s[i], s[j]) <= 0
  }

  /** Non-increasing in field `f`. */
  ghost predicate Descending(f: Field, s: seq<Book>)
  {
    forall i, j :: 0 <= i < j < |s| ==> CompareBy(f, s[i], s[j]) >= 0
  }

  /** The statuses the write endpoints answer with besides success. */
  datatype HttpError = BadRequest | NotFound | ServerError

  /** What a request answers and the rows the table holds afterwards. */
  datatype Reply<T> = Reply(result: Result<T, HttpError>, rows: seq<Book>)

  predicate HasId(rows: seq<Book>, id: int)
  {
    exists i :: 0 <= i < |rows| && rows[i].bookId == id
  }

  /** The table's primary key: no two rows share an id. */
  ghost predicate UniqueIds(rows: seq<Book>)
  {
    forall i, j :: 0 <= i < j < |rows| ==> rows[i].bookId != rows[j].bookId
  }

  /** The row a primary-key lookup (`FindAsync`) returns. */
  function FindById(rows: seq<Book>, id: int): (r: Option<Book>)
    ensures r.Some? <==> HasId(rows, id)
    ensures r.Some? ==> r.value in rows && r.value.bookId == id
  {
    if |rows| == 0 then None
    else if rows[0].bookId == id then Some(rows[0])
    else
      var r := FindById(rows[1..], id);
      assert HasId(rows, id) ==> HasId(rows[1..], id) by {
        if HasId(rows, id) {
          var i :| 0 <= i < |rows| && rows[i].bookId == id;
          assert rows[1..][i - 1] == rows[i];
        }
      }
      assert HasId(rows[1..], id) ==> HasId(rows, id) by {
        if HasId(rows[1..], id) {
          var i :| 0 <= i < |rows[1..]| && rows[1..][i].bookId == id;
          assert rows[i + 1] == rows[1..][i];
        }
      }
      r
  }

  /** `GET api/Books/{id}`: the row with that id, or NotFound. */
  function GetBook(rows: seq<Book>, id: int): (r: Result<Book, HttpError>)
    ensures r.Err? <==> !HasId(rows, id)
    ensures r.Err? ==> r.error == NotFound
    ensures r.Ok? ==> r.value in rows && r.value.bookId == id
  {
    match FindById(rows, id)
    case Some(b) => Ok(b)
    case None => Err(NotFound)
  }

  /** Under a unique key the lookup returns exactly the stored row. */
  lemma GetBookFindsTheRow(rows: seq<Book>, i: int)
    requires UniqueIds(rows) && 0 <= i < |rows|
    ensures GetBook(rows, rows[i].bookId) == Ok(rows[i])
  {
    var b := GetBook(rows, rows[i].bookId).value;
    var j :| 0 <= j < |rows| && rows[j] == b;
    assert !(i < j || j < i);
  }

  /** The rows whose id differs from `id`, in table order. */
  function WithoutId(rows: seq<Book>, id: int): (r: seq<Book>)
    ensures |r| <= |rows|
    ensures forall b :: b in r ==> b in rows && b.bookId != id
  {
    if |rows| == 0 then []
    else (if rows[0].bookId == id then [] else [rows[0]]) + WithoutId(rows[1..], id)
  }

  /** `DELETE api/Books/{id}`: NotFound for a missing id, otherwise the row is removed. */
  function DeleteBook(rows: seq<Book>, id: int): (r: Reply<()>)
    ensures !HasId(rows, id) ==> r == Reply(Err(NotFound), rows)
    ensures HasId(rows, id) ==> r.result.Ok? && !HasId(r.rows, id)
  {
    if FindById(rows, id).None? then Reply(Err(NotFound), rows)
    else Reply(Ok(()), WithoutId(rows, id))
  }

  lemma {:induction false} WithoutAbsentId(rows: seq<Book>, id: int)
    requires forall k :: 0 <= k < |rows| ==> rows[k].bookId != id
    ensures WithoutId(rows, id) == rows
  {
    if |rows| > 0 {
      WithoutAbsentId(rows[1..], id);
      assert rows == [rows[0]] + rows[1..];
    }
  }

  lemma {:induction false} WithoutIdSplit(rows: seq<Book>, i: int)
    requires UniqueIds(rows) && 0 <= i < |rows|
    ensures WithoutId(rows, rows[i].bookId) == rows[..i] + rows[i + 1..]
  {
    var id := rows[i].bookId;
    if i == 0 {
      WithoutAbsentId(rows[1..], id);
    } else {
      var t := rows[1..];
      assert UniqueIds(t) by {
        forall a, b | 0 <= a < b < |t| ensures t[a].bookId != t[b].bookId {
          assert t[a] == rows[a + 1] && t[b] == rows[b + 1];
        }
      }
      assert t[i - 1] == rows[i];
      WithoutIdSplit(t, i - 1);
      assert rows[0].bookId != id;
      assert rows[..i] == [rows[0]] + t[..i - 1];
      assert rows[i + 1..] == t[i..];
    }
  }

  /**
   * Deleting a present id removes exactly that row: every other row stays,
   * in its order, and the table keeps a unique key.
   */
  lemma DeleteRemovesOnlyThatRow(rows: seq<Book>, i: int)
    requires UniqueIds(rows) && 0 <= i < |rows|
    ensures DeleteBook(rows, rows[i].bookId).result == Ok(())
    ensures DeleteBook(rows, rows[i].bookId).rows == rows[..i] + rows[i + 1..]
    ensures UniqueIds(rows[..i] + rows[i + 1..])
  {
    assert HasId(rows, rows[i].bookId);
    assert FindById(rows, rows[i].bookId).Some?;
    WithoutIdSplit(rows, i);
    DropKeepsUniqueIds(rows, i);
  }

  lemma DropKeepsUniqueIds(rows: seq<Book>, i: int)
    requires UniqueIds(rows) && 0 <= i < |rows|
    ensures UniqueIds(rows[..i] + rows[i + 1..])
  {
    var r := rows[..i] + rows[i + 1..];
    forall a, b | 0 <= a < b < |r| ensures r[a].bookId != r[b].bookId {
      var a', b' := if a < i then a else a + 1, if b < i then b else b + 1;
      assert r[a] == rows[a'] && r[b] == rows[b'];
    }
  }

  /** The table after a full-record update of the row with `id`. */
  function ReplaceById(rows: seq<Book>, id: int, book: Book): (r: seq<Book>)
    ensures |r| == |rows|
    ensures forall i :: 0 <= i < |rows| ==> r[i] == if rows[i].bookId == id then book else rows[i]
  {
    seq(|rows|, i requires 0 <= i < |rows| => if rows[i].bookId == id then book else rows[i])
  }

  /**
   * `PUT api/Books/{id}`. An id that differs from the body's id is a
   * BadRequest before anything is written. Saving a row that does not exist
   * raises the concurrency exception, as may a concurrent writer (`conflict`);
   * the handler then answers NotFound if no row has the id and rethrows
   * (ServerError) otherwise.
   */
  function UpdateBook(rows: seq<Book>, id: int, book: Book, conflict: bool): (r: Reply<()>)
    ensures id != book.bookId ==> r == Reply(Err(BadRequest), rows)
    ensures r.result.Err? ==> r.rows == rows
    ensures r.result == Err(NotFound) <==> id == book.bookId && !HasId(rows, id)
    ensures r.result == Err(ServerError) <==> id == book.bookId && HasId(rows, id) && conflict
    ensures r.result.Ok? ==> |r.rows| == |rows|
    ensures r.result.Ok? ==> forall i :: 0 <= i < |rows| ==>
              r.rows[i] == if rows[i].bookId == id then book else rows[i]
  {
    if id != book.bookId then Reply(Err(BadRequest), rows)
    else if HasId(rows, id) && !conflict then Reply(Ok(()), ReplaceById(rows, id, book))
    else if !HasId(rows, id) then Reply(Err(NotFound), rows)
    else Reply(Err(ServerError), rows)
  }

  /** An update keeps the key unique, and reading the id back returns the new record. */
  lemma UpdateThenGet(rows: seq<Book>, id: int, book: Book, conflict: bool)
    requires UniqueIds(rows)
    ensures UniqueIds(UpdateBook(rows, id, book, conflict).rows)
    ensures UpdateBook(rows, id, book, conflict).result.Ok? ==>
              GetBook(UpdateBook(rows, id, book, conflict).rows, id) == Ok(book)
  {
    var r := UpdateBook(rows, id, book, conflict);
    if r.result.Ok? {
      var i :| 0 <= i < |rows| && rows[i].bookId == id;
      forall a, b | 0 <= a < b < |r.rows| ensures r.rows[a].bookId != r.rows[b].bookId {
        assert rows[a].bookId != rows[b].bookId;
      }
      assert r.rows[i] == book;
      GetBookFindsTheRow(r.rows, i);
    }
  }

  /**
   * `POST api/Books`. A body without an id (0) gets the key the database
   * generates; a body with an id is inserted under it, and a duplicate key
   * fails the save (ServerError) with nothing written.
   */
  function CreateBook(rows: seq<Book>, book: Book, generatedId: int): (r: Reply<Book>)
    requires generatedId != 0 && !HasId(rows, generatedId)
    ensures r.result.Ok? ==> r.rows == rows + [r.result.value] && !HasId(rows, r.result.value.bookId)
    ensures r.result.Ok? ==> r.result.value == book.(bookId := r.result.value.bookId)
    ensures r.result.Ok? && book.bookId != 0 ==> r.result.value == book
    ensures r.result.Err? <==> book.bookId != 0 && HasId(rows, book.bookId)
    ensures r.result.Err? ==> r.result.error == ServerError && r.rows == rows
  {
    if book.bookId == 0 then
      var created := book.(bookId := generatedId);
      Reply(Ok(created), rows + [created])
    else if HasId(rows, book.bookId) then Reply(Err(ServerError), rows)
    else Reply(Ok(book), rows + [book])
  }

  /** A created record keeps the key unique and can be read back under its id. */
  lemma CreateThenGet(rows: seq<Book>, book: Book, generatedId: int)
    requires UniqueIds(rows)
    requires generatedId != 0 && !HasId(rows, generatedId)
    ensures UniqueIds(CreateBook(rows, book, generatedId).rows)
    ensures CreateBook(rows, book, generatedId).result.Ok? ==>
              GetBook(CreateBook(rows, book, generatedId).rows, CreateBook(rows, book, generatedId).result.value.bookId)
              == CreateBook(rows, book, generatedId).result
  {
    var r := CreateBook(rows, book, generatedId);
    if r.result.Ok? {
      var created := r.result.value;
      forall a, b | 0 <= a < b < |r.rows| ensures r.rows[a].bookId != r.rows[b].bookId {
        if b == |rows| {
          assert r.rows[a] == rows[a];
        } else {
          assert r.rows[a] == rows[a] && r.rows[b] == rows[b];
        }
      }
      assert r.rows[|rows|] == created;
      GetBookFindsTheRow(r.rows, |rows|);
    }
  }
}
