/**
 * The catalog page (`BookList`): its query state and the handlers that
 * change it, the mapping from the category menu to the query's filter, and
 * the category options derived from a listing of every book.
 *
 * Rendering, the cart modal and `localStorage` are not modelled; the cart
 * reducers of this page live in module `Cart`.
 */
module Catalog {
  import opened Books
  import opened Paging
  import opened BookService
  import BooksController

  // ---------------------------------------------------------------------------
  // Distinct values in first-occurrence order (`[...new Set(xs)]`)
  // ---------------------------------------------------------------------------

  predicate NoDuplicates(s: seq<string>)
  {
    forall i, j :: 0 <= i < j < |s| ==> s[i] != s[j]
  }

  /** The index of the first occurrence of `x` in `s`. */
  function FirstIndex(s: seq<string>, x: string): (r: nat)
    requires x in s
    ensures r < |s| && s[r] == x
    ensures forall i :: 0 <= i < r ==> s[i] != x
  {
    if s[0] == x then 0 else 1 + FirstIndex(s[1..], x)
  }

  /** The values of `s` without repeats, each where it first occurs. */
  function Distinct(s: seq<string>): (r: seq<string>)
    ensures NoDuplicates(r)
    ensures forall x :: x in r <==> x in s
    ensures |r| <= |s|
  {
    if |s| == 0 then []
    else
      var d := Distinct(s[..|s| - 1]);
      var x := s[|s| - 1];
      assert forall y :: y in s <==> y in s[..|s| - 1] || y == x by {
        assert s == s[..|s| - 1] + [x];
      }
      if x in d then d else d + [x]
  }

  /** `r` lists values in the order in which they first occur in `s`. */
  ghost predicate FirstOccurrenceOrder(r: seq<string>, s: seq<string>)
  {
    forall i, j :: 0 <= i < j < |r| ==> r[i] in s && r[j] in s && FirstIndex(s, r[i]) < FirstIndex(s, r[j])
  }

  /** Appending a value leaves the first occurrence of every earlier value where it was. */
  lemma {:induction false} FirstIndexAppend(s: seq<string>, y: string, x: string)
    requires x in s
    ensures FirstIndex(s + [y], x) == FirstIndex(s, x)
  {
    if s[0] != x {
      assert (s + [y])[1..] == s[1..] + [y];
      FirstIndexAppend(s[1..], y, x);
    }
  }

  /** A value that first appears last has its first occurrence at the end. */
  lemma FirstIndexOfNew(s: seq<string>, x: string)
    requires x !in s
    ensures FirstIndex(s + [x], x) == |s|
  {
  }

  /** `Distinct` keeps first-occurrence order, which with its contract fixes it uniquely. */
  lemma {:induction false} DistinctOrder(s: seq<string>)
    ensures FirstOccurrenceOrder(Distinct(s), s)
  {
    if |s| > 0 {
      var p := s[..|s| - 1];
      var x := s[|s| - 1];
      var d := Distinct(p);
      DistinctOrder(p);
      assert s == p + [x];
      var r := Distinct(s);
      forall i, j | 0 <= i < j < |r|
        ensures r[i] in s && r[j] in s && FirstIndex(s, r[i]) < FirstIndex(s, r[j])
      {
        assert r[i] in p;
        FirstIndexAppend(p, x, r[i]);
        if j < |d| {
          assert r[j] == d[j] && r[i] == d[i];
          FirstIndexAppend(p, x, r[j]);
        } else {
          assert x !in d && r[j] == x;
          FirstIndexOfNew(p, x);
        }
      }
    }
  }

  // ---------------------------------------------------------------------------
  // Category options and the category filter
  // ---------------------------------------------------------------------------

  /** `books.map(book => book.category)`. */
  function CategoriesOf(books: seq<Book>): (r: seq<string>)
    ensures |r| == |books|
    ensures forall i :: 0 <= i < |books| ==> r[i] == books[i].category
  {
    seq(|books|, i requires 0 <= i < |books| => books[i].category)
  }

  /** `['All', ...new Set(categories)]`: the category state after a full listing. */
  function CategoryOptions(books: seq<Book>): seq<string>
  {
    ["All"] + Distinct(CategoriesOf(books))
  }

  /**
   * The options are "All" and then every category of the listing once, in the
   * order the categories first occur.
   */
  lemma CategoryOptionsSpec(books: seq<Book>)
    ensures |CategoryOptions(books)| >= 1 && CategoryOptions(books)[0] == "All"
    ensures forall b :: b in books ==> b.category in CategoryOptions(books)[1..]
    ensures forall c :: c in CategoryOptions(books)[1..] ==> exists b :: b in books && b.category == c
    ensures NoDuplicates(CategoryOptions(books)[1..])
    ensures FirstOccurrenceOrder(CategoryOptions(books)[1..], CategoriesOf(books))
  {
    var cats := CategoriesOf(books);
    var r := CategoryOptions(books);
    assert r[1..] == Distinct(cats);
    DistinctOrder(cats);
    forall b | b in books ensures b.category in r[1..] {
      var i :| 0 <= i < |books| && books[i] == b;
      assert cats[i] == b.category;
    }
    forall c | c in r[1..] ensures exists b :: b in books && b.category == c {
      var i :| 0 <= i < |cats| && cats[i] == c;
      assert books[i] in books;
    }
  }

  /** The filter sent with a selection: none for "All", otherwise the selection itself. */
  function CategoryFilter(selected: string): string
  {
    if selected != "All" then selected else ""
  }

  /** `categories.filter(cat => cat !== 'All')`. */
  function WithoutAll(options: seq<string>): (r: seq<string>)
    ensures forall c :: c in r <==> c in options && c != "All"
  {
    if |options| == 0 then []
    else
      assert forall c :: c in options <==> c == options[0] || c in options[1..] by {
        assert options == [options[0]] + options[1..];
      }
      (if options[0] == "All" then [] else [options[0]]) + WithoutAll(options[1..])
  }

  /** The values of the category menu: "" for "All Categories", then each option except "All". */
  function MenuValues(options: seq<string>): seq<string>
  {
    [""] + WithoutAll(options)
  }

  /**
   * Every menu value is sent unchanged as the filter, and every value but the
   * first names the category of some book of the listing.
   */
  lemma MenuValueIsFilter(books: seq<Book>, v: string)
    requires v in MenuValues(CategoryOptions(books))
    ensures CategoryFilter(v) == v
    ensures v == "" || exists b :: b in books && b.category == v
  {
    if v != "" {
      assert v in WithoutAll(CategoryOptions(books));
      CategoryOptionsSpec(books);
      var o := CategoryOptions(books);
      var k :| 0 <= k < |o| && o[k] == v;
      assert k != 0;
      assert o[1..][k - 1] == v;
    }
  }

  /** Selecting "All" (or the "All Categories" entry) filters nothing. */
  lemma AllShowsEverything(rows: seq<Book>)
    ensures FilterCategory(rows, CategoryFilter("All")) == rows
    ensures FilterCategory(rows, CategoryFilter("")) == rows
  {
  }

  // ---------------------------------------------------------------------------
  // The page's query state and its handlers
  // ---------------------------------------------------------------------------

  /** The state the catalog's list query is built from. */
  datatype CatalogView = CatalogView(
    currentPage: int,
    pageSize: int,
    sortField: string,
    sortOrder: string,
    selectedCategory: string,
    categories: seq<string>)

  /** Page 1 of five, by title ascending, no category, and only the "All" option. */
  function InitialView(): CatalogView
  {
    CatalogView(1, 5, "title", "asc", "", ["All"])
  }

  /** The arguments of a `getBooks` call. */
  datatype Query = Query(pageNumber: int, pageSize: int, sortField: string, sortOrder: string, category: string)

  /** The list query the page sends for a state. */
  function Request(v: CatalogView): Query
  {
    Query(v.currentPage, v.pageSize, v.sortField, v.sortOrder, CategoryFilter(v.selectedCategory))
  }

  function Fetch(source: Source, q: Query): PagedResult
  {
    FetchBooks(source, q.pageNumber, q.pageSize, q.sortField, q.sortOrder, q.category)
  }

  /** What the controls can send. */
  datatype CatalogEvent =
    | PageChange(page: int)
    | PageSizeChange(size: int)
    | CategoryChange(category: string)
    | SortFieldChange(field: string)
    | SortOrderChange(order: string)

  /** The handlers: a new page size or category starts again at page 1, a new sort does not. */
  function Handle(v: CatalogView, e: CatalogEvent): CatalogView
  {
    match e
    case PageChange(p) => v.(currentPage := p)
    case PageSizeChange(n) => v.(pageSize := n, currentPage := 1)
    case CategoryChange(c) => v.(selectedCategory := c, currentPage := 1)
    case SortFieldChange(f) => v.(sortField := f)
    case SortOrderChange(o) => v.(sortOrder := o)
  }

  /**
   * The events the rendered controls produce: page buttons number from 1
   * (Previous is disabled on page 1) and the size menu offers 5, 10, 20 and 50.
   */
  predicate Offered(e: CatalogEvent)
  {
    match e
    case PageChange(p) => p >= 1
    case PageSizeChange(n) => n == 5 || n == 10 || n == 20 || n == 50
    case _ => true
  }

  /** A state whose query the backend would not clamp. */
  predicate ViewOk(v: CatalogView)
  {
    v.currentPage >= 1 && 1 <= v.pageSize <= 50
  }

  function Replay(v: CatalogView, es: seq<CatalogEvent>): CatalogView
    decreases |es|
  {
    if |es| == 0 then v else Replay(Handle(v, es[0]), es[1..])
  }

  /**
   * Changing the page size or the category moves to page 1; changing the sort
   * field or order keeps the page; no handler touches the category options.
   */
  lemma HandleResetsPage(v: CatalogView, e: CatalogEvent)
    ensures e.PageSizeChange? || e.CategoryChange? ==> Handle(v, e).currentPage == 1
    ensures e.SortFieldChange? || e.SortOrderChange? ==> Handle(v, e).currentPage == v.currentPage
    ensures e.PageChange? ==> Handle(v, e).currentPage == e.page
    ensures Handle(v, e).categories == v.categories
  {
  }

  /**
   * After any run of offered events from the initial state, the page's query
   * is one the backend leaves unclamped, and each source answers it with the
   * run of its listing at that page's offset.
   */
  lemma {:induction false} ReplayKeepsQueryValid(v: CatalogView, es: seq<CatalogEvent>, source: Source)
    requires ViewOk(v)
    requires forall i :: 0 <= i < |es| ==> Offered(es[i])
    ensures ViewOk(Replay(v, es))
    ensures RunAt(Fetch(source, Request(Replay(v, es))).books,
                  Listing(source, Replay(v, es).sortField, Replay(v, es).sortOrder,
                          CategoryFilter(Replay(v, es).selectedCategory)),
                  Offset(Replay(v, es).currentPage, Replay(v, es).pageSize))
    decreases |es|
  {
    if |es| > 0 {
      assert Offered(es[0]);
      ReplayKeepsQueryValid(Handle(v, es[0]), es[1..], source);
    } else {
      FetchPage(source, v.currentPage, v.pageSize, v.sortField, v.sortOrder,
                CategoryFilter(v.selectedCategory));
    }
  }

  /** Choosing a category shows the first page of that category's listing. */
  lemma CategoryChangeShowsFirstPage(v: CatalogView, c: string, source: Source)
    requires ViewOk(v)
    ensures RunAt(Fetch(source, Request(Handle(v, CategoryChange(c)))).books,
                  Listing(source, v.sortField, v.sortOrder, CategoryFilter(c)), 0)
  {
    var q := Request(Handle(v, CategoryChange(c)));
    assert q == Query(1, v.pageSize, v.sortField, v.sortOrder, CategoryFilter(c));
    FetchPage(source, 1, v.pageSize, v.sortField, v.sortOrder, CategoryFilter(c));
    assert Offset(1, v.pageSize) == 0;
  }

  // ---------------------------------------------------------------------------
  // Loading the category options
  // ---------------------------------------------------------------------------

  /**
   * After a successful fetch with no category filter and a non-empty
   * result, the page asks for page 1 with the size set to the total count
   * and derives the options from that answer.
   */
  function LoadCategoriesAsWritten(source: Source, v: CatalogView): CatalogView
  {
    var data := Fetch(source, Request(v));
    if CategoryFilter(v.selectedCategory) == "" && data.totalCount > 0 then
      v.(categories := CategoryOptions(
           FetchBooks(source, 1, data.totalCount, v.sortField, v.sortOrder, "").books))
    else v
  }

  /**
   * Page `pageNumber` and every later page, as `pageAt` answers them, until
   * `total` items are covered.
   */
  function Collect(pageAt: int -> seq<Book>, pageNumber: int, total: nat): seq<Book>
    requires pageNumber >= 1
    decreases total - Offset(pageNumber, 50)
  {
    if Offset(pageNumber, 50) >= total then []
    else pageAt(pageNumber) + Collect(pageAt, pageNumber + 1, total)
  }

  /** `pageAt(p)` is page `p` of `all` at the backend's largest page size, 50. */
  ghost predicate PagesOf(pageAt: int -> seq<Book>, all: seq<Book>)
  {
    forall p :: p >= 1 && Offset(p, 50) < |all| ==>
      pageAt(p) == all[Offset(p, 50)..Min(Offset(p, 50) + 50, |all|)]
  }

  /** Reading the pages of a listing from `pageNumber` on yields the rest of the listing. */
  lemma {:induction false} CollectIsListing(pageAt: int -> seq<Book>, all: seq<Book>, pageNumber: int)
    requires pageNumber >= 1 && PagesOf(pageAt, all)
    ensures Collect(pageAt, pageNumber, |all|) == all[Min(Offset(pageNumber, 50), |all|)..]
    decreases |all| - Offset(pageNumber, 50)
  {
    var skip := Offset(pageNumber, 50);
    if skip < |all| {
      var m := Min(skip + 50, |all|);
      assert pageAt(pageNumber) == all[skip..m];
      assert Offset(pageNumber + 1, 50) == skip + 50;
      CollectIsListing(pageAt, all, pageNumber + 1);
      SliceSplit(all, skip, m);
    }
  }

  /** The pages of the unfiltered listing, as a source serves them at the largest size. */
  function ListingPages(source: Source, sortField: string, sortOrder: string): int -> seq<Book>
  {
    p => FetchBooks(source, p, 50, sortField, sortOrder, "").books
  }

  lemma ListingPagesOf(source: Source, sortField: string, sortOrder: string)
    ensures PagesOf(ListingPages(source, sortField, sortOrder), Listing(source, sortField, sortOrder, ""))
  {
    forall p | p >= 1 && Offset(p, 50) < |Listing(source, sortField, sortOrder, "")|
      ensures ListingPages(source, sortField, sortOrder)(p)
           == Listing(source, sortField, sortOrder, "")
                [Offset(p, 50)..Min(Offset(p, 50) + 50, |Listing(source, sortField, sortOrder, "")|)]
    {
      PageOfFifty(source, sortField, sortOrder, p);
    }
  }

  /** A page of 50 inside the unfiltered listing is the listing's slice at its offset. */
  lemma PageOfFifty(source: Source, sortField: string, sortOrder: string, pageNumber: int)
    requires pageNumber >= 1 && Offset(pageNumber, 50) < |Listing(source, sortField, sortOrder, "")|
    ensures FetchBooks(source, pageNumber, 50, sortField, sortOrder, "").books
         == Listing(source, sortField, sortOrder, "")
              [Offset(pageNumber, 50)..Min(Offset(pageNumber, 50) + 50, |Listing(source, sortField, sortOrder, "")|)]
  {
    var all := Listing(source, sortField, sortOrder, "");
    var skip := Offset(pageNumber, 50);
    var page := FetchBooks(source, pageNumber, 50, sortField, sortOrder, "").books;
    FetchTotals(source, pageNumber, 50, sortField, sortOrder, "");
    FetchPageLength(source, pageNumber, 50, sortField, sortOrder, "");
    FetchPage(source, pageNumber, 50, sortField, sortOrder, "");
    var m := Min(skip + 50, |all|);
    assert |page| == m - skip;
    assert page == all[skip..m];
  }

  /** The loading step with the full listing read page by page, within the backend's limit of 50. */
  function LoadCategories(source: Source, v: CatalogView): CatalogView
  {
    var data := Fetch(source, Request(v));
    if CategoryFilter(v.selectedCategory) == "" && data.totalCount > 0 then
      v.(categories := CategoryOptions(Collect(ListingPages(source, v.sortField, v.sortOrder), 1, data.totalCount)))
    else v
  }

  /**
   * From an unfiltered state the page could have been in, loading lists the
   * category of every book of the source and nothing else, each once.
   */
  lemma LoadCategoriesComplete(source: Source, v: CatalogView)
    requires ViewOk(v) && CategoryFilter(v.selectedCategory) == "" && |source.rows| > 0
    ensures forall b :: b in source.rows ==> b.category in LoadCategories(source, v).categories
    ensures forall c :: c in LoadCategories(source, v).categories[1..] ==>
              exists b :: b in source.rows && b.category == c
    ensures NoDuplicates(LoadCategories(source, v).categories[1..])
  {
    var all := Listing(source, v.sortField, v.sortOrder, "");
    FetchTotals(source, v.currentPage, v.pageSize, v.sortField, v.sortOrder, "");
    ListingPermutes(source, v.sortField, v.sortOrder, "");
    AllShowsEverything(source.rows);
    assert multiset(all) == multiset(source.rows);
    assert |all| == |source.rows|;
    ListingPagesOf(source, v.sortField, v.sortOrder);
    CollectIsListing(ListingPages(source, v.sortField, v.sortOrder), all, 1);
    assert Offset(1, 50) == 0;
    assert Collect(ListingPages(source, v.sortField, v.sortOrder), 1, |all|) == all;
    CategoryOptionsSpec(all);
    assert LoadCategories(source, v).categories == CategoryOptions(all);
    forall b | b in source.rows ensures b.category in CategoryOptions(all) {
      assert b in multiset(all);
    }
    forall c | c in CategoryOptions(all)[1..] ensures exists b :: b in source.rows && b.category == c {
      var b :| b in all && b.category == c;
      assert b in multiset(source.rows);
    }
  }

  // ---------------------------------------------------------------------------
  // The loading step as written misses categories past the backend's limit
  // ---------------------------------------------------------------------------

  /** A sequence without repeats whose values all occur in `t` is no longer than `t`. */
  lemma Pigeonhole(a: seq<string>, t: seq<string>)
    requires NoDuplicates(a) && forall x :: x in a ==> x in t
    ensures |a| <= |t|
  {
    DistinctValuesCount(a);
    ValuesBound(t);
    SubsetCount(set x | x in a, set x | x in t);
  }

  lemma {:induction false} SubsetCount(a: set<string>, b: set<string>)
    requires a <= b
    ensures |a| <= |b|
    decreases |a|
  {
    if a != {} {
      var x :| x in a;
      SubsetCount(a - {x}, b - {x});
    }
  }

  lemma {:induction false} DistinctValuesCount(a: seq<string>)
    requires NoDuplicates(a)
    ensures |set x | x in a| == |a|
  {
    if |a| > 0 {
      var p := a[..|a| - 1];
      DistinctValuesCount(p);
      assert (set x | x in a) == (set x | x in p) + {a[|a| - 1]} by {
        assert a == p + [a[|a| - 1]];
      }
      assert a[|a| - 1] !in p;
    }
  }

  lemma {:induction false} ValuesBound(t: seq<string>)
    ensures |set x | x in t| <= |t|
  {
    if |t| > 0 {
      var p := t[..|t| - 1];
      ValuesBound(p);
      assert (set x | x in t) == (set x | x in p) + {t[|t| - 1]} by {
        assert t == p + [t[|t| - 1]];
      }
    }
  }

  /**
   * Against the live backend, a store of more than 50 books with pairwise
   * different categories always loses a category: the request for
   * `totalCount` books is clamped to 50, and 50 books cannot carry more than
   * 50 categories.
   */
  lemma LiveOptionsMissACategory(rows: seq<Book>, v: CatalogView)
    requires ViewOk(v) && CategoryFilter(v.selectedCategory) == ""
    requires |rows| > 50
    requires NoDuplicates(CategoriesOf(rows))
    requires forall i :: 0 <= i < |rows| ==> rows[i].category != "All"
    ensures exists b :: b in rows && b.category !in LoadCategoriesAsWritten(Live(rows), v).categories
  {
    AllShowsEverything(rows);
    BooksController.GetBooksTotals(rows, v.currentPage, v.pageSize, v.sortField, v.sortOrder, "");
    var total := Fetch(Live(rows), Request(v)).totalCount;
    assert total == |rows|;
    var page := BooksController.GetBooks(rows, 1, total, v.sortField, v.sortOrder, "").books;
    BooksController.GetBooksPage(rows, 1, total, v.sortField, v.sortOrder, "");
    assert Offset(1, 50) == 0;
    assert |page| == 50;
    var options := LoadCategoriesAsWritten(Live(rows), v).categories;
    assert options == CategoryOptions(page);
    if forall b :: b in rows ==> b.category in options {
      forall x | x in CategoriesOf(rows) ensures x in CategoriesOf(page) {
        var i :| 0 <= i < |rows| && CategoriesOf(rows)[i] == x;
        assert rows[i] in rows;
        assert x in options[1..];
      }
      Pigeonhole(CategoriesOf(rows), CategoriesOf(page));
      assert false;
    }
  }

  /** `n` copies of one letter: strings that differ for different `n`. */
  function Letters(n: nat): (r: string)
    ensures |r| == n && forall i :: 0 <= i < n ==> r[i] == 'x'
  {
    seq(n, _ => 'x')
  }

  /** Fifty-one books whose categories are "x", "xx", ..., 51 letters long. */
  function FiftyOneCategories(): (r: seq<Book>)
    ensures |r| == 51
    ensures forall i :: 0 <= i < 51 ==> r[i].category == Letters(i + 1)
  {
    seq(51, i requires 0 <= i < 51 => Book(i + 1, "", "", "", "", "", Letters(i + 1), 0, 0))
  }

  /** A concrete store on which the loading step as written drops a category. */
  lemma LiveOptionsMissACategoryExample(v: CatalogView)
    requires ViewOk(v) && CategoryFilter(v.selectedCategory) == ""
    ensures exists b :: b in FiftyOneCategories() &&
              b.category !in LoadCategoriesAsWritten(Live(FiftyOneCategories()), v).categories
  {
    var rows := FiftyOneCategories();
    forall i, j | 0 <= i < j < |CategoriesOf(rows)| ensures CategoriesOf(rows)[i] != CategoriesOf(rows)[j] {
      assert |CategoriesOf(rows)[i]| == i + 1;
    }
    forall i | 0 <= i < |rows| ensures rows[i].category != "All" {
      assert rows[i].category[0] == 'x';
    }
    LiveOptionsMissACategory(rows, v);
  }
}
