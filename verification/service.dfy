/**
 * The frontend `bookService`: the built-in ten-book sample dataset and the
 * client-side query it answers when the API cannot be reached.
 *
 * Whether the API is reachable is an input (`Source`); the endpoint probing
 * behind it is not modelled.
 */
module BookService {
  import opened Wrappers
  import opened Text
  import opened Books
  import opened Paging
  import BooksController

  /** The sample catalog served when no API endpoint answers. Prices in cents. */
  function MockBooks(): seq<Book>
  {
    [ Book(1, "Clean Code", "Robert C. Martin", "Prentice Hall", "978-0132350884",
           "Non-Fiction", "Software", 464, 3999),
      Book(2, "Design Patterns", "Erich Gamma, Richard Helm, Ralph Johnson, John Vlissides",
           "Addison-Wesley", "978-0201633610", "Non-Fiction", "Software", 395, 4999),
      Book(3, "The Pragmatic Programmer", "Andrew Hunt, David Thomas", "Addison-Wesley",
           "978-0201616224", "Non-Fiction", "Software", 352, 3995),
      Book(4, "Steve Jobs", "Walter Isaacson", "Simon & Schuster", "978-1451648539",
           "Non-Fiction", "Biography", 656, 3500),
      Book(5, "Becoming", "Michelle Obama", "Crown", "978-1524763138",
           "Non-Fiction", "Biography", 448, 3250),
      Book(6, "Atomic Habits", "James Clear", "Penguin Random House", "978-0735211292",
           "Non-Fiction", "Self-Help", 320, 2700),
      Book(7, "The 7 Habits of Highly Effective People", "Stephen R. Covey", "Free Press",
           "978-0743269513", "Non-Fiction", "Self-Help", 432, 3000),
      Book(8, "To Kill a Mockingbird", "Harper Lee", "Harper Perennial", "978-0060935467",
           "Fiction", "Classic", 336, 1599),
      Book(9, "Pride and Prejudice", "Jane Austen", "Penguin Classics", "978-0141439518",
           "Fiction", "Classic", 480, 999),
      Book(10, "The Great Gatsby", "F. Scott Fitzgerald", "Scribner", "978-0743273565",
           "Fiction", "Classic", 180, 1700) ]
  }

  /**
   * The field the mock comparator reads: `sortField.toLowerCase()` used as a
   * property name. Only names that are already lower-case Book properties
   * resolve; "pagecount" and "bookid" are not properties, so they give None.
   */
  function MockSortKey(sortField: string): Option<Field>
  {
    var key := Lower(sortField);
    if key == "title" then Some(Title)
    else if key == "author" then Some(Author)
    else if key == "publisher" then Some(Publisher)
    else if key == "isbn" then Some(Isbn)
    else if key == "classification" then Some(Classification)
    else if key == "category" then Some(Category)
    else if key == "price" then Some(Price)
    else None
  }

  /**
   * The mock sort: none at all when either argument is empty, otherwise a
   * comparator scaled by -1 for "desc" that ties every pair when the key does
   * not resolve (both values are `undefined`).
   */
  function MockComparator(sortField: string, sortOrder: string): Comparator
  {
    if sortField == "" || sortOrder == "" then Unordered
    else match MockSortKey(sortField)
      case Some(f) => ByField(f, IsDescending(sortOrder))
      case None => Unordered
  }

  /** The mock branch of `getBooks` over a dataset: filter, sort, `slice`, `Math.ceil`; no clamping. */
  function MockQuery(data: seq<Book>, pageNumber: int, pageSize: int,
                     sortField: string, sortOrder: string, category: string): PagedResult
  {
    var sorted := MockListing(data, sortField, sortOrder, category);
    var start := Offset(pageNumber, pageSize);
    PagedResult(JsSlice(sorted, start, start + pageSize), pageNumber, pageSize, |sorted|,
                JsCeilDiv(|sorted|, pageSize), sortField, sortOrder, category)
  }

  /** Everything the mock pages through: the matches, in the mock's order. */
  function MockListing(data: seq<Book>, sortField: string, sortOrder: string, category: string): seq<Book>
  {
    Sort(MockComparator(sortField, sortOrder), FilterCategory(data, category))
  }

  function MockGetBooks(pageNumber: int, pageSize: int,
                        sortField: string, sortOrder: string, category: string): PagedResult
  {
    MockQuery(MockBooks(), pageNumber, pageSize, sortField, sortOrder, category)
  }

  /**
   * For page numbers and sizes of at least 1 the mock returns the page of
   * the sorted matches at the usual offset, counts the matches, and echoes
   * its arguments unchanged.
   */
  lemma MockQueryPage(data: seq<Book>, pageNumber: int, pageSize: int,
                      sortField: string, sortOrder: string, category: string)
    requires pageNumber >= 1 && pageSize >= 1
    ensures MockQuery(data, pageNumber, pageSize, sortField, sortOrder, category).totalCount == |FilterCategory(data, category)|
    ensures MockQuery(data, pageNumber, pageSize, sortField, sortOrder, category).totalPages.Count?
    ensures IsPageCount(|FilterCategory(data, category)|, pageSize, MockQuery(data, pageNumber, pageSize, sortField, sortOrder, category).totalPages.n)
    ensures |MockQuery(data, pageNumber, pageSize, sortField, sortOrder, category).books|
         == Min(pageSize, Max(0, |FilterCategory(data, category)| - Offset(pageNumber, pageSize)))
    ensures RunAt(MockQuery(data, pageNumber, pageSize, sortField, sortOrder, category).books, MockListing(data, sortField, sortOrder, category), Offset(pageNumber, pageSize))
    ensures MockQuery(data, pageNumber, pageSize, sortField, sortOrder, category).pageNumber == pageNumber && MockQuery(data, pageNumber, pageSize, sortField, sortOrder, category).pageSize == pageSize
    ensures MockQuery(data, pageNumber, pageSize, sortField, sortOrder, category).sortField == sortField && MockQuery(data, pageNumber, pageSize, sortField, sortOrder, category).sortOrder == sortOrder && MockQuery(data, pageNumber, pageSize, sortField, sortOrder, category).category == category
  {
    MockQueryTotals(data, pageNumber, pageSize, sortField, sortOrder, category);
    MockQueryBooks(data, pageNumber, pageSize, sortField, sortOrder, category);
  }

  /** The mock counts the filtered books and echoes its arguments. */
  lemma MockQueryTotals(data: seq<Book>, pageNumber: int, pageSize: int,
                        sortField: string, sortOrder: string, category: string)
    requires pageSize >= 1
    ensures MockQuery(data, pageNumber, pageSize, sortField, sortOrder, category).totalCount == |FilterCategory(data, category)|
    ensures |MockListing(data, sortField, sortOrder, category)| == |FilterCategory(data, category)|
    ensures MockQuery(data, pageNumber, pageSize, sortField, sortOrder, category).totalPages.Count?
    ensures IsPageCount(|FilterCategory(data, category)|, pageSize, MockQuery(data, pageNumber, pageSize, sortField, sortOrder, category).totalPages.n)
    ensures MockQuery(data, pageNumber, pageSize, sortField, sortOrder, category).pageNumber == pageNumber && MockQuery(data, pageNumber, pageSize, sortField, sortOrder, category).pageSize == pageSize
    ensures MockQuery(data, pageNumber, pageSize, sortField, sortOrder, category).sortField == sortField && MockQuery(data, pageNumber, pageSize, sortField, sortOrder, category).sortOrder == sortOrder && MockQuery(data, pageNumber, pageSize, sortField, sortOrder, category).category == category
  {
    SortLength(MockComparator(sortField, sortOrder), FilterCategory(data, category));
  }

  /** The mock's page is the run of the sorted matches at the page's offset. */
  lemma MockQueryBooks(data: seq<Book>, pageNumber: int, pageSize: int,
                       sortField: string, sortOrder: string, category: string)
    requires pageNumber >= 1 && pageSize >= 1
    ensures |MockQuery(data, pageNumber, pageSize, sortField, sortOrder, category).books|
         == Min(pageSize, Max(0, |MockListing(data, sortField, sortOrder, category)| - Offset(pageNumber, pageSize)))
    ensures RunAt(MockQuery(data, pageNumber, pageSize, sortField, sortOrder, category).books, MockListing(data, sortField, sortOrder, category), Offset(pageNumber, pageSize))
  {
    var sorted := MockListing(data, sortField, sortOrder, category);
    var skip := Offset(pageNumber, pageSize);
    var page := JsSlice(sorted, skip, skip + pageSize);
    assert MockQuery(data, pageNumber, pageSize, sortField, sortOrder, category).books == page;
    SlicePage(sorted, pageNumber, pageSize);
    assert |page| == Min(pageSize, Max(0, |sorted| - skip));
  }

  /** `slice((pageNumber - 1) * pageSize, pageNumber * pageSize)` is the page at that offset. */
  lemma SlicePage(s: seq<Book>, pageNumber: int, pageSize: int)
    requires pageNumber >= 1 && pageSize >= 1
    ensures |JsSlice(s, Offset(pageNumber, pageSize), Offset(pageNumber, pageSize) + pageSize)|
         == Min(pageSize, Max(0, |s| - Offset(pageNumber, pageSize)))
    ensures RunAt(JsSlice(s, Offset(pageNumber, pageSize), Offset(pageNumber, pageSize) + pageSize),
                  s, Offset(pageNumber, pageSize))
  {
    var skip := Offset(pageNumber, pageSize);
    assert skip >= 0 by { BooksController.NonNegativeProduct(pageNumber - 1, pageSize); }
    SliceIsSkipTake(s, skip, pageSize);
    PageOf(s, skip, pageSize);
  }

  /** Without clamping, page size 0 yields no books and a non-finite page count. */
  lemma MockZeroPageSize(data: seq<Book>, pageNumber: int,
                         sortField: string, sortOrder: string, category: string)
    ensures MockQuery(data, pageNumber, 0, sortField, sortOrder, category).books == []
    ensures MockQuery(data, pageNumber, 0, sortField, sortOrder, category).totalPages == NotFinite
  {
  }

  /**
   * Without clamping, a negative page number counts back from the end of
   * the list: when the matches fill exactly two pages, page -1 shows page 1.
   */
  lemma MockNegativePage(data: seq<Book>, pageSize: int,
                         sortField: string, sortOrder: string, category: string)
    requires pageSize >= 1
    requires |FilterCategory(data, category)| == 2 * pageSize
    ensures MockQuery(data, -1, pageSize, sortField, sortOrder, category).books
         == MockQuery(data, 1, pageSize, sortField, sortOrder, category).books
  {
    var c := MockComparator(sortField, sortOrder);
    var sorted := Sort(c, FilterCategory(data, category));
    SortLength(c, FilterCategory(data, category));
    assert Offset(-1, pageSize) == -2 * pageSize && Offset(1, pageSize) == 0;
    JsSliceFromEnd(sorted, -2 * pageSize, -pageSize);
    assert MockQuery(data, -1, pageSize, sortField, sortOrder, category).books
        == JsSlice(sorted, -2 * pageSize, -2 * pageSize + pageSize);
    assert MockQuery(data, 1, pageSize, sortField, sortOrder, category).books
        == JsSlice(sorted, 0, 0 + pageSize);
  }

  /** The mock dataset: ten books with ids 1..10; exactly ids 8, 9 and 10 are "Classic". */
  lemma MockDataset()
    ensures |MockBooks()| == 10
    ensures forall i :: 0 <= i < 10 ==> MockBooks()[i].bookId == i + 1
    ensures forall i :: 0 <= i < 10 ==> (MockBooks()[i].category == "Classic" <==> i >= 7)
    ensures forall i :: 0 <= i < 9 ==> MockBooks()[i].pageCount > MockBooks()[9].pageCount
  {
  }

  lemma {:induction false} KeepNone(s: seq<Book>, category: string)
    requires forall i :: 0 <= i < |s| ==> !MatchesCategory(s[i], category)
    ensures KeepCategory(s, category) == []
  {
    if |s| > 0 {
      KeepNone(s[1..], category);
    }
  }

  lemma {:induction false} KeepAll(s: seq<Book>, category: string)
    requires forall i :: 0 <= i < |s| ==> MatchesCategory(s[i], category)
    ensures KeepCategory(s, category) == s
  {
    if |s| > 0 {
      KeepAll(s[1..], category);
      assert s == [s[0]] + s[1..];
    }
  }

  /** Filtering the sample data by "Classic" keeps its last three books, in order. */
  lemma MockClassicFilter()
    ensures FilterCategory(MockBooks(), "Classic") == MockBooks()[7..]
  {
    var data := MockBooks();
    assert !IsBlank("Classic") by { assert !IsWhiteSpace("Classic"[0]); }
    assert data == data[..7] + data[7..];
    forall i | 0 <= i < 7 ensures !MatchesCategory(data[..7][i], "Classic") {
      assert |Lower(data[i].category)| != |Lower("Classic")|;
    }
    KeepNone(data[..7], "Classic");
    KeepAll(data[7..], "Classic");
    KeepCategoryAppend(data[..7], data[7..], "Classic");
  }

  /** When every match fits on page 1, the page holds all of them, in some order. */
  lemma MockFirstPageHoldsAll(data: seq<Book>, pageSize: int,
                              sortField: string, sortOrder: string, category: string)
    requires pageSize >= 1 && pageSize >= |FilterCategory(data, category)|
    ensures MockQuery(data, 1, pageSize, sortField, sortOrder, category).totalCount == |FilterCategory(data, category)|
    ensures multiset(MockQuery(data, 1, pageSize, sortField, sortOrder, category).books) == multiset(FilterCategory(data, category))
  {
    var filtered := FilterCategory(data, category);
    var sorted := Sort(MockComparator(sortField, sortOrder), filtered);
    MockQueryPage(data, 1, pageSize, sortField, sortOrder, category);
    SortLength(MockComparator(sortField, sortOrder), filtered);
    assert Offset(1, pageSize) == 0;
    assert MockQuery(data, 1, pageSize, sortField, sortOrder, category).books == sorted;
  }

  /**
   * The "Classic" filter on the sample data yields exactly the books with
   * ids 8, 9 and 10, whatever the sort field and order.
   */
  lemma MockClassicAnySort(pageSize: int, sortField: string, sortOrder: string)
    requires pageSize >= 3
    ensures MockGetBooks(1, pageSize, sortField, sortOrder, "Classic").totalCount == 3
    ensures multiset(MockGetBooks(1, pageSize, sortField, sortOrder, "Classic").books) == multiset(MockBooks()[7..])
    ensures (set b | b in MockGetBooks(1, pageSize, sortField, sortOrder, "Classic").books :: b.bookId) == {8, 9, 10}
  {
    MockDataset();
    MockClassicFilter();
    ClassicIds(MockBooks()[7..]);
    FirstPageOfFew(MockBooks(), MockBooks()[7..], pageSize, sortField, sortOrder, "Classic");
  }

  /** When every match fits on page 1, page 1 holds exactly those books, whatever the order. */
  lemma FirstPageOfFew(data: seq<Book>, matches: seq<Book>, pageSize: int,
                       sortField: string, sortOrder: string, category: string)
    requires FilterCategory(data, category) == matches
    requires pageSize >= 1 && pageSize >= |matches|
    ensures MockQuery(data, 1, pageSize, sortField, sortOrder, category).totalCount == |matches|
    ensures multiset(MockQuery(data, 1, pageSize, sortField, sortOrder, category).books) == multiset(matches)
    ensures (set b | b in MockQuery(data, 1, pageSize, sortField, sortOrder, category).books :: b.bookId) == (set b | b in matches :: b.bookId)
  {
    MockFirstPageHoldsAll(data, pageSize, sortField, sortOrder, category);
    SameIds(MockQuery(data, 1, pageSize, sortField, sortOrder, category).books, matches);
  }

  /** Two orderings of the same books carry the same ids. */
  lemma SameIds(s: seq<Book>, t: seq<Book>)
    requires multiset(s) == multiset(t)
    ensures (set b | b in s :: b.bookId) == (set b | b in t :: b.bookId)
  {
    assert forall b :: b in s <==> b in multiset(t);
  }

  lemma ClassicIds(t: seq<Book>)
    requires |t| == 3 && forall i :: 0 <= i < 3 ==> t[i].bookId == i + 8
    ensures (set b | b in t :: b.bookId) == {8, 9, 10}
  {
    assert t[0].bookId == 8 && t[1].bookId == 9 && t[2].bookId == 10;
  }

  /**
   * Ten books at five per page make two pages, and page 3 is empty rather
   * than an error, both in the mock and in the backend over the same rows;
   * the sample dataset is such a set of ten.
   */
  lemma TenBooksPageThree(data: seq<Book>, sortField: string, sortOrder: string)
    requires |data| == 10
    ensures MockQuery(data, 3, 5, sortField, sortOrder, "").books == []
    ensures MockQuery(data, 3, 5, sortField, sortOrder, "").totalCount == 10
    ensures MockQuery(data, 3, 5, sortField, sortOrder, "").totalPages == Count(2)
    ensures BooksController.GetBooks(data, 3, 5, sortField, sortOrder, "").books == []
    ensures BooksController.GetBooks(data, 3, 5, sortField, sortOrder, "").totalCount == 10
    ensures BooksController.GetBooks(data, 3, 5, sortField, sortOrder, "").totalPages == Count(2)
  {
    assert FilterCategory(data, "") == data;
    assert Offset(3, 5) == 10;
    MockQueryTotals(data, 3, 5, sortField, sortOrder, "");
    MockQueryBooks(data, 3, 5, sortField, sortOrder, "");
    BooksController.GetBooksTotals(data, 3, 5, sortField, sortOrder, "");
    BooksController.GetBooksPage(data, 3, 5, sortField, sortOrder, "");
  }

  /**
   * "pageCount" and "bookId" do not resolve to a property once lower-cased,
   * so the mock leaves them unsorted, while the backend sorts "pageCount" by
   * page count and "bookId", which is not allow-listed, by title.
   */
  lemma MockUnresolvedKeys()
    ensures MockSortKey("pageCount") == None && MockSortKey("bookId") == None
    ensures BooksController.SortFieldOf("pageCount") == PageCount
    ensures BooksController.SortFieldOf("bookId") == Title
  {
    assert Lower("pageCount") == "pagecount";
    assert Lower("bookId") == "bookid";
  }

  /**
   * When the key does not resolve, or either argument is empty, the stable
   * sort leaves the filtered books in dataset order.
   */
  lemma MockUnresolvedKeepsOrder(data: seq<Book>, pageNumber: int, pageSize: int,
                                 sortField: string, sortOrder: string, category: string)
    requires MockSortKey(sortField).None? || sortField == "" || sortOrder == ""
    ensures MockQuery(data, pageNumber, pageSize, sortField, sortOrder, category).books
         == JsSlice(FilterCategory(data, category), Offset(pageNumber, pageSize),
                    Offset(pageNumber, pageSize) + pageSize)
  {
    SortUnorderedIsIdentity(FilterCategory(data, category));
  }

  /**
   * On the inputs the backend leaves unclamped, with a key the mock resolves
   * and a non-empty order, the mock answers exactly what the backend answers
   * over the same rows, given that the backend's tied rows come back in
   * storage order (the model's sort is stable; SQL does not promise this).
   */
  lemma MockAgreesWithBackend(data: seq<Book>, pageNumber: int, pageSize: int,
                              sortField: string, sortOrder: string, category: string)
    requires pageNumber >= 1 && 1 <= pageSize <= 50
    requires MockSortKey(sortField).Some? && sortOrder != ""
    ensures MockQuery(data, pageNumber, pageSize, sortField, sortOrder, category)
         == BooksController.GetBooks(data, pageNumber, pageSize, sortField, sortOrder, category)
  {
    MockAgreesOnOrder(sortField, sortOrder);
    MockAgreesOnPage(data, pageNumber, pageSize, sortField, sortOrder, category);
    var filtered := FilterCategory(data, category);
    assert MockQuery(data, pageNumber, pageSize, sortField, sortOrder, category).totalPages
        == Count(CeilDiv(|filtered|, pageSize));
    SortLength(MockComparator(sortField, sortOrder), filtered);
  }

  lemma MockAgreesOnOrder(sortField: string, sortOrder: string)
    requires MockSortKey(sortField).Some? && sortOrder != ""
    ensures MockComparator(sortField, sortOrder) == BooksController.BackendComparator(sortField, sortOrder)
  {
    assert sortField != "" by { assert Lower("") == ""; }
  }

  lemma MockAgreesOnPage(data: seq<Book>, pageNumber: int, pageSize: int,
                         sortField: string, sortOrder: string, category: string)
    requires pageNumber >= 1 && 1 <= pageSize <= 50
    requires MockComparator(sortField, sortOrder) == BooksController.BackendComparator(sortField, sortOrder)
    ensures MockQuery(data, pageNumber, pageSize, sortField, sortOrder, category).books
         == BooksController.GetBooks(data, pageNumber, pageSize, sortField, sortOrder, category).books
  {
    var sorted := Sort(MockComparator(sortField, sortOrder), FilterCategory(data, category));
    var skip := Offset(pageNumber, pageSize);
    assert skip >= 0 by { BooksController.NonNegativeProduct(pageNumber - 1, pageSize); }
    SliceIsSkipTake(sorted, skip, pageSize);
    assert MockQuery(data, pageNumber, pageSize, sortField, sortOrder, category).books
        == JsSlice(sorted, skip, skip + pageSize);
  }

  /**
   * Sorting the sample data by "pageCount" differs between the tiers: the
   * mock's first book is still book 1, the backend's is the shortest book,
   * book 10.
   */
  lemma MockDivergesOnPageCount()
    ensures |MockGetBooks(1, 5, "pageCount", "asc", "").books| == 5
    ensures MockGetBooks(1, 5, "pageCount", "asc", "").books[0].bookId == 1
    ensures |BooksController.GetBooks(MockBooks(), 1, 5, "pageCount", "asc", "").books| >= 1
    ensures BooksController.GetBooks(MockBooks(), 1, 5, "pageCount", "asc", "").books[0].bookId == 10
  {
    MockPageCountFirst();
    BackendPageCountFirst();
  }

  lemma MockPageCountFirst()
    ensures |MockGetBooks(1, 5, "pageCount", "asc", "").books| == 5
    ensures MockGetBooks(1, 5, "pageCount", "asc", "").books[0].bookId == 1
  {
    MockDataset();
    MockUnresolvedKeys();
    MockFirstPageUnsorted(MockBooks(), 5, "pageCount", "asc", "");
  }

  lemma BackendPageCountFirst()
    ensures |BooksController.GetBooks(MockBooks(), 1, 5, "pageCount", "asc", "").books| >= 1
    ensures BooksController.GetBooks(MockBooks(), 1, 5, "pageCount", "asc", "").books[0].bookId == 10
  {
    MockDataset();
    BackendShortestFirst(MockBooks(), 9);
  }

  /** With a key the mock does not resolve, page 1 is the first rows of the filtered data. */
  lemma MockFirstPageUnsorted(data: seq<Book>, pageSize: int,
                              sortField: string, sortOrder: string, category: string)
    requires MockSortKey(sortField).None? || sortField == "" || sortOrder == ""
    requires 1 <= pageSize <= |FilterCategory(data, category)|
    ensures MockQuery(data, 1, pageSize, sortField, sortOrder, category).books
         == FilterCategory(data, category)[..pageSize]
  {
    MockUnresolvedKeepsOrder(data, 1, pageSize, sortField, sortOrder, category);
    assert Offset(1, pageSize) == 0;
  }

  /** The backend's ascending "pageCount" page starts with the book of fewest pages. */
  lemma BackendShortestFirst(data: seq<Book>, k: int)
    requires 0 <= k < |data|
    requires forall i :: 0 <= i < |data| && i != k ==> data[i].pageCount > data[k].pageCount
    ensures |BooksController.GetBooks(data, 1, 5, "pageCount", "asc", "").books| >= 1
    ensures BooksController.GetBooks(data, 1, 5, "pageCount", "asc", "").books[0] == data[k]
  {
    var c := ByField(PageCount, false);
    assert FilterCategory(data, "") == data;
    assert BooksController.BackendComparator("pageCount", "asc") == c by {
      assert !IsDescending("asc") by { assert Lower("asc") == "asc"; }
      MockUnresolvedKeys();
    }
    forall i | 0 <= i < |data| && i != k ensures Cmp(c, data[k], data[i]) < 0 {
      assert CompareBy(PageCount, data[k], data[i]) == CompareInt(data[k].pageCount, data[i].pageCount);
    }
    StrictLeastSortsFirst(c, data, k);
    BooksController.GetBooksPage(data, 1, 5, "pageCount", "asc", "");
    assert Offset(1, 5) == 0;
  }

  /** The sample ids are exactly 1..10. */
  lemma MockHasId(id: int)
    ensures BooksController.HasId(MockBooks(), id) <==> 1 <= id <= 10
  {
    MockDataset();
    if 1 <= id <= 10 {
      assert MockBooks()[id - 1].bookId == id;
    }
  }

  /** The `find` over a sample: the book with that id, or the mock's error. */
  function FindSample(sample: seq<Book>, id: int): (r: Result<Book, string>)
    ensures r.Ok? <==> BooksController.HasId(sample, id)
    ensures r.Ok? ==> r.value in sample && r.value.bookId == id
    ensures r.Err? ==> r.error == "Book not found in mock data"
  {
    match BooksController.FindById(sample, id)
    case Some(b) => Ok(b)
    case None => Err("Book not found in mock data")
  }

  /** `getBookById` in sample-data mode: the sample book with that id, or an error. */
  function MockGetBookById(id: int): (r: Result<Book, string>)
    ensures r.Ok? <==> 1 <= id <= 10
    ensures r.Ok? ==> r.value == MockBooks()[id - 1]
  {
    MockDataset();
    MockHasId(id);
    var r := FindSample(MockBooks(), id);
    if r.Ok? then
      assert r.value == MockBooks()[id - 1] by {
        var j :| 0 <= j < 10 && MockBooks()[j] == r.value;
      }
      r
    else r
  }

  /**
   * Which party answered a request: the live API over its table, or the
   * client itself over its bundled sample (`MockBooks()` in the client).
   */
  datatype Source = Live(rows: seq<Book>) | Offline(rows: seq<Book>)

  /** The client as it ships: the bundled sample answers when no endpoint does. */
  function Shipped(): Source
  {
    Offline(MockBooks())
  }

  /** `getBooks`: the API's answer when it is reachable, the mock branch's otherwise. */
  function FetchBooks(source: Source, pageNumber: int, pageSize: int,
                      sortField: string, sortOrder: string, category: string): PagedResult
  {
    match source
    case Live(rows) => BooksController.GetBooks(rows, pageNumber, pageSize, sortField, sortOrder, category)
    case Offline(sample) => MockQuery(sample, pageNumber, pageSize, sortField, sortOrder, category)
  }

  /**
   * For the page numbers and sizes the UI sends, both sources honour the
   * page-length law of the list contract.
   */
  lemma FetchPageLength(source: Source, pageNumber: int, pageSize: int,
                        sortField: string, sortOrder: string, category: string)
    requires pageNumber >= 1 && 1 <= pageSize <= 50
    ensures FetchBooks(source, pageNumber, pageSize, sortField, sortOrder, category).pageNumber == pageNumber && FetchBooks(source, pageNumber, pageSize, sortField, sortOrder, category).pageSize == pageSize
    ensures |FetchBooks(source, pageNumber, pageSize, sortField, sortOrder, category).books| == Min(pageSize, Max(0, FetchBooks(source, pageNumber, pageSize, sortField, sortOrder, category).totalCount - Offset(pageNumber, pageSize)))
  {
    match source
    case Live(rows) =>
      BooksController.GetBooksPage(rows, pageNumber, pageSize, sortField, sortOrder, category);
    case Offline(sample) =>
      MockQueryPage(sample, pageNumber, pageSize, sortField, sortOrder, category);
  }

  /**
   * `getBookById`: the API's record when it answers; any failure, a 404
   * included, falls back to the bundled sample.
   */
  function FetchBookById(source: Source, id: int): Result<Book, string>
  {
    match source
    case Live(rows) =>
      (match BooksController.GetBook(rows, id)
       case Ok(b) => Ok(b)
       case Err(_) => MockGetBookById(id))
    case Offline(sample) => FindSample(sample, id)
  }

  /**
   * Because a 404 also falls back, an id missing from the live table but in
   * 1..10 answers with a sample book instead of failing.
   */
  lemma LiveMissingIdAnswersSample(rows: seq<Book>, id: int)
    requires !BooksController.HasId(rows, id) && 1 <= id <= 10
    ensures FetchBookById(Live(rows), id) == Ok(MockBooks()[id - 1])
  {
  }

  /** The whole filtered, sorted listing a source pages through. */
  function Listing(source: Source, sortField: string, sortOrder: string, category: string): seq<Book>
  {
    Sort(ListingOrder(source, sortField, sortOrder), FilterCategory(source.rows, category))
  }

  /** The order each source sorts by. */
  function ListingOrder(source: Source, sortField: string, sortOrder: string): Comparator
  {
    match source
    case Live(_) => BooksController.BackendComparator(sortField, sortOrder)
    case Offline(_) => MockComparator(sortField, sortOrder)
  }

  /**
   * For the page numbers and sizes the UI sends, either source counts its
   * whole listing and pages it at the requested size.
   */
  lemma FetchTotals(source: Source, pageNumber: int, pageSize: int,
                    sortField: string, sortOrder: string, category: string)
    requires pageNumber >= 1 && 1 <= pageSize <= 50
    ensures FetchBooks(source, pageNumber, pageSize, sortField, sortOrder, category).totalCount == |Listing(source, sortField, sortOrder, category)|
    ensures FetchBooks(source, pageNumber, pageSize, sortField, sortOrder, category).totalPages.Count?
    ensures IsPageCount(|Listing(source, sortField, sortOrder, category)|, pageSize, FetchBooks(source, pageNumber, pageSize, sortField, sortOrder, category).totalPages.n)
  {
    var c := ListingOrder(source, sortField, sortOrder);
    SortLength(c, FilterCategory(source.rows, category));
    match source
    case Live(rows) =>
      BooksController.GetBooksTotals(rows, pageNumber, pageSize, sortField, sortOrder, category);
    case Offline(sample) =>
      MockQueryTotals(sample, pageNumber, pageSize, sortField, sortOrder, category);
  }

  /**
   * For the page numbers and sizes the UI sends, either source answers the
   * run of its listing at offset `(pageNumber - 1) * pageSize`; how long
   * that run is follows from `FetchPageLength` and `FetchTotals`.
   */
  lemma FetchPage(source: Source, pageNumber: int, pageSize: int,
                  sortField: string, sortOrder: string, category: string)
    requires pageNumber >= 1 && 1 <= pageSize <= 50
    ensures RunAt(FetchBooks(source, pageNumber, pageSize, sortField, sortOrder, category).books, Listing(source, sortField, sortOrder, category), Offset(pageNumber, pageSize))
  {
    if source.Live? {
      LivePage(source, pageNumber, pageSize, sortField, sortOrder, category);
    } else {
      OfflinePage(source, pageNumber, pageSize, sortField, sortOrder, category);
    }
  }

  lemma LivePage(source: Source, pageNumber: int, pageSize: int,
                 sortField: string, sortOrder: string, category: string)
    requires source.Live? && pageNumber >= 1 && 1 <= pageSize <= 50
    ensures RunAt(FetchBooks(source, pageNumber, pageSize, sortField, sortOrder, category).books, Listing(source, sortField, sortOrder, category), Offset(pageNumber, pageSize))
  {
    var rows := source.rows;
    var r := BooksController.GetBooks(rows, pageNumber, pageSize, sortField, sortOrder, category);
    assert FetchBooks(source, pageNumber, pageSize, sortField, sortOrder, category) == r;
    assert Listing(source, sortField, sortOrder, category)
        == Sort(BooksController.BackendComparator(sortField, sortOrder), FilterCategory(rows, category));
    assert r.pageNumber == pageNumber && r.pageSize == pageSize;
    BooksController.GetBooksPage(rows, pageNumber, pageSize, sortField, sortOrder, category);
  }

  lemma OfflinePage(source: Source, pageNumber: int, pageSize: int,
                    sortField: string, sortOrder: string, category: string)
    requires source.Offline? && pageNumber >= 1 && 1 <= pageSize <= 50
    ensures RunAt(FetchBooks(source, pageNumber, pageSize, sortField, sortOrder, category).books, Listing(source, sortField, sortOrder, category), Offset(pageNumber, pageSize))
  {
    var sample := source.rows;
    assert FetchBooks(source, pageNumber, pageSize, sortField, sortOrder, category)
        == MockQuery(sample, pageNumber, pageSize, sortField, sortOrder, category);
    assert Listing(source, sortField, sortOrder, category)
        == Sort(MockComparator(sortField, sortOrder), FilterCategory(sample, category));
    MockQueryBooks(sample, pageNumber, pageSize, sortField, sortOrder, category);
  }

  /** A listing holds exactly the source's books that pass the filter. */
  lemma ListingPermutes(source: Source, sortField: string, sortOrder: string, category: string)
    ensures multiset(Listing(source, sortField, sortOrder, category))
         == multiset(FilterCategory(source.rows, category))
  {
  }
}
