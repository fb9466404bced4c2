# Bookstore catalog: a Dafny model

This project models the core of a small bookstore application in Dafny. The
application has two tiers:

- **Backend.** An ASP.NET `BooksController` serves the book table. It has a
  paged, filtered and sorted list query (`GetBooks`), which answers a
  `PagedBookResult` envelope. It also reads, creates, updates and deletes
  single records.
- **Frontend.** A React client has three parts that are modelled here:
  - `bookService`: calls the API and, when no endpoint answers, serves a
    bundled ten-book sample with its own client-side query;
  - the customer page `BookList`: category filter, paging, sorting, and a
    shopping cart kept in page state;
  - the admin page `AdminBooks`: a sortable and paged table, a create/edit
    form, and a delete confirmation.

The model is pure and functional. Each handler or reducer is a function from
the old state and its argument to the new state. Each request is a function of
the table it is sent to. The properties are proved as contracts and lemmas.

Modules, one per file:

| module | file | models |
|---|---|---|
| `Wrappers` | wrappers.dfy | `Option` and `Result` |
| `Text` | text.dfy | ASCII lower-casing, the white-space test, string and integer comparison |
| `Books` | books.dfy | the `Book` record, the category match, sort keys, one stable sort both tiers use, reversal |
| `Paging` | paging.dfy | skip/take, JavaScript `slice`, page counts (`Math.ceil`, including Infinity/NaN), the `PagedBookResult` envelope |
| `BooksController` | controller.dfy | `GetBooks`, `GetBook`, `CreateBook`, `UpdateBook`, `DeleteBook` |
| `BookService` | service.dfy | the sample dataset, the mock `getBooks`, `getBookById`, the live/offline source |
| `Cart` | cart.dfy | `addToCart`, `removeFromCart`, `updateQuantity` and the cart totals |
| `Catalog` | catalog.dfy | category options, the category filter mapping, the page handlers, loading the category list |
| `Admin` | admin.dfy | the admin handlers, form, payloads and delete guard |

Conventions of the model:

- The table is a `seq<Book>` in storage order. `UniqueIds` states that the key
  is unique.
- Prices are integer cents.
- Case folding is ASCII lower-casing.
- String order is lexicographic by character code. It stands both for
  `localeCompare` and for the database's `ORDER BY`.
- Sorting is one stable insertion sort, parameterised by a `Comparator`:
  - `ByField(field, descending)` is the backend's `OrderBy`/`OrderByDescending`
    and the mock's comparator;
  - `Unordered` is the mock when it does not sort at all.
- Whether the API answers is an input: `Source = Live(rows) | Offline(rows)`.
- The outcome of each admin request (success or failure) is an input to the
  handler that awaits it.

## Model

| member | source | states |
|---|---|---|
| Text.Lower | backend/BookStoreProject/Controllers/Books.cs:38 | lower-casing keeps the length and maps each character on its own |
| Text.LowerIdempotent | backend/BookStoreProject/Controllers/Books.cs:147 | lower-casing an already lower-cased name changes nothing |
| Text.Compare | frontend/src/services/bookService.ts:255-256 | string comparison answers -1, 0 or 1, and 0 exactly when the strings are equal |
| Text.CompareAntisymmetric | frontend/src/services/bookService.ts:255-256 | swapping the operands negates the comparison |
| Text.CompareTransitive | frontend/src/services/bookService.ts:255-256 | the string order is transitive, so it is a total order |
| Text.CompareInt | frontend/src/services/bookService.ts:259-261 | the numeric comparison is negative exactly for less and positive exactly for greater |
| Books.KeepCategory | backend/BookStoreProject/Controllers/Books.cs:36-39 | the category filter never lengthens the list |
| Books.KeepCategoryCounts | backend/BookStoreProject/Controllers/Books.cs:36-39 | each book occurs in the filtered list as often as in the input when its category matches (up to case), and never otherwise |
| Books.KeepCategoryAppend | frontend/src/services/bookService.ts:237-241 | filtering a concatenation is the concatenation of the filtered parts, so order is kept |
| Books.FilterCategorySound | backend/BookStoreProject/Controllers/Books.cs:36-39 | every listed book comes from the table and matches the category, unless the category is blank (empty or only white space that both C# and JavaScript recognise), in which case nothing is filtered |
| Books.CompareByAntisymmetric | backend/BookStoreProject/Controllers/Books.cs:145-159 | comparing two books by any sort field is antisymmetric |
| Books.CompareByTransitive | backend/BookStoreProject/Controllers/Books.cs:145-159 | comparing books by any sort field is transitive |
| Books.CmpAntisymmetric | backend/BookStoreProject/Controllers/Books.cs:161-175 | the descending comparator and the unordered comparator are antisymmetric too |
| Books.CmpTransitive | backend/BookStoreProject/Controllers/Books.cs:161-175 | every comparator is transitive |
| Books.Insert | backend/BookStoreProject/Controllers/Books.cs:145-175 | inserting a book adds exactly that book to the multiset |
| Books.InsertSorted | backend/BookStoreProject/Controllers/Books.cs:145-175 | inserting into a sorted list keeps it sorted |
| Books.Sort | backend/BookStoreProject/Controllers/Books.cs:45-47 | the sort is a permutation of its input and its output is ordered by the comparator |
| Books.SortLength | backend/BookStoreProject/Controllers/Books.cs:45-47 | sorting keeps the number of books |
| Books.SortIsStable | frontend/src/services/bookService.ts:249-262 | books that compare equal keep their relative input order (the sort is stable) |
| Books.SortUnorderedIsIdentity | frontend/src/services/bookService.ts:247 | sorting with the unordered comparator changes nothing |
| Books.HeadIsLeast | backend/BookStoreProject/Controllers/Books.cs:149-157 | the head of a sorted list precedes or ties with every book in it |
| Books.StrictLeastSortsFirst | backend/BookStoreProject/Controllers/Books.cs:155 | a book strictly less than every other book sorts to the front |
| Books.SortedPermutationUnique | backend/BookStoreProject/Controllers/Books.cs:145-175 | when no two books tie, there is only one sorted arrangement of a multiset |
| Books.Reverse | backend/BookStoreProject/Controllers/Books.cs:161-175 | reversal keeps the length and mirrors the positions |
| Books.ReversePermutes | backend/BookStoreProject/Controllers/Books.cs:161-175 | reversal is a permutation |
| Books.ReverseFlipsOrder | backend/BookStoreProject/Controllers/Books.cs:161-175 | reversing an ascending list gives a descending list |
| Books.DistinctKeysNoTies | backend/BookStoreProject/Controllers/Books.cs:161-175 | books with pairwise distinct keys never tie |
| Books.DescendingReversesAscending | backend/BookStoreProject/Controllers/Books.cs:145-175 | with distinct keys, descending order is exactly ascending order reversed |
| Paging.SkipTake | backend/BookStoreProject/Controllers/Books.cs:50-53 | `Skip(n).Take(k)` has length min(k, rest of list) and holds the books at positions n, n+1, ... |
| Paging.PageOf | backend/BookStoreProject/Controllers/Books.cs:50-53 | a page is empty past the end; otherwise it is the run of the list that starts at the offset |
| Paging.WholePage | frontend/src/services/bookService.ts:266-267 | page 1 of a list no longer than the page size is the whole list |
| Paging.SkipTakeSorted | backend/BookStoreProject/Controllers/Books.cs:45-53 | a page of a sorted list is sorted and holds only books of that list |
| Paging.JsIndex | frontend/src/services/bookService.ts:267 | a JavaScript `slice` index is clamped into 0..length, and an index already in range is kept |
| Paging.JsSliceFromEnd | frontend/src/services/bookService.ts:266-267 | negative `slice` bounds count from the end of the list |
| Paging.SliceIsSkipTake | frontend/src/services/bookService.ts:266-267 | for non-negative bounds, the mock's `slice` is the backend's skip/take |
| Paging.CeilDiv | backend/BookStoreProject/Controllers/Books.cs:62 | the page count is the least number of pages of that size that covers the total |
| Paging.JsCeilDiv | frontend/src/services/bookService.ts:270 | `Math.ceil(n / size)` is the page count for a positive size; for size 0 it is not a finite number (Infinity or NaN); for a negative size it is at most 0 |
| BooksController.SortFieldDispatch | backend/BookStoreProject/Controllers/Books.cs:145-175 | a sort field selects the column its lower-cased name names; any other name sorts by title; letter case does not matter |
| BooksController.SortFieldOfName | backend/BookStoreProject/Controllers/Books.cs:147-156 | every column's own name selects that column |
| BooksController.GetBooks | backend/BookStoreProject/Controllers/Books.cs:28-30 | a page number below 1 becomes 1; a page size below 1 becomes 5; a size above 50 becomes 50; the sort and category arguments are echoed unchanged |
| BooksController.GetBooksTotals | backend/BookStoreProject/Controllers/Books.cs:42 | the total is the number of matching books before paging, and the page count covers it at the clamped size |
| BooksController.GetBooksPage | backend/BookStoreProject/Controllers/Books.cs:50-53 | the returned books are the run of the sorted, filtered listing, with ties in storage order, at offset (page-1)*size computed without overflow; their number is min(size, remaining); an offset past the end gives an empty page |
| BooksController.GetBooksOrder | backend/BookStoreProject/Controllers/Books.cs:45-47 | every returned book matches the filter; the page is ascending by the chosen column unless the order is "desc" (any case), and then descending |
| BooksController.GetBooksDescReversesAsc | backend/BookStoreProject/Controllers/Books.cs:45-47 | when the page holds all matches and keys are distinct, the "desc" page is the "asc" page reversed |
| BooksController.FindById | backend/BookStoreProject/Controllers/Books.cs:73 | a lookup finds a record exactly when the key is present, and the record it finds has that key |
| BooksController.GetBook | backend/BookStoreProject/Controllers/Books.cs:73-80 | the answer is NotFound exactly when no record has the key; otherwise it is a record from the table with that key |
| BooksController.GetBookFindsTheRow | backend/BookStoreProject/Controllers/Books.cs:71-81 | with unique keys, reading a row's key returns exactly that row |
| BooksController.DeleteBook | backend/BookStoreProject/Controllers/Books.cs:127-136 | deleting an absent key answers NotFound and leaves the table unchanged; deleting a present key succeeds and no row with that key remains |
| BooksController.WithoutAbsentId | backend/BookStoreProject/Controllers/Books.cs:127-131 | removing a key no row has changes nothing |
| BooksController.DeleteRemovesOnlyThatRow | backend/BookStoreProject/Controllers/Books.cs:127-136 | with unique keys, deleting row i's key removes exactly row i, keeps the other rows in order, and keeps the keys unique |
| BooksController.ReplaceById | backend/BookStoreProject/Controllers/Books.cs:102 | replacing by key keeps the length and swaps in the new record exactly where the key matches |
| BooksController.UpdateBook | backend/BookStoreProject/Controllers/Books.cs:97-120 | a URL key that differs from the body's key answers BadRequest; an absent key answers NotFound; a present key with a concurrency conflict is a server error; otherwise the record is replaced in place; every error leaves the table unchanged |
| BooksController.UpdateThenGet | backend/BookStoreProject/Controllers/Books.cs:95-121 | an update keeps keys unique, and after a successful update reading the key returns the new record |
| BooksController.CreateBook | backend/BookStoreProject/Controllers/Books.cs:85-91 | a create appends the record; a zero key takes the generated key; a non-zero key is kept; a create fails, leaving the table unchanged, exactly when a non-zero key is already present |
| BooksController.CreateThenGet | backend/BookStoreProject/Controllers/Books.cs:85-91 | a create keeps keys unique, and the created record can be read back under its key |
| BookService.MockDataset | frontend/src/services/bookService.ts:17-137 | the sample has ten books with keys 1..10; exactly the last three are "Classic"; the tenth has the fewest pages |
| BookService.MockQueryTotals | frontend/src/services/bookService.ts:266-282 | the mock's total counts the filtered books; for a positive size its page count covers them; page, size, sort and category are echoed unclamped |
| BookService.MockQueryBooks | frontend/src/services/bookService.ts:235-267 | for page and size at least 1, the mock page is the run of the filtered, sorted sample at offset (page-1)*size, of length min(size, remaining) |
| BookService.MockQueryPage | frontend/src/services/bookService.ts:231-284 | the whole mock envelope for page and size at least 1: total, page count, page contents and echoed arguments |
| BookService.SlicePage | frontend/src/services/bookService.ts:266-267 | the mock's `slice(start, start + size)` has the backend page's length and contents |
| BookService.MockZeroPageSize | frontend/src/services/bookService.ts:266-270 | with page size 0 the mock answers no books and a page count that is not a finite number |
| BookService.MockNegativePage | frontend/src/services/bookService.ts:266-267 | the mock does not clamp the page number: when the matches fill exactly two pages, page -1 slices from the end and returns the same books as page 1 |
| BookService.MockClassicFilter | frontend/src/services/bookService.ts:237-241 | filtering the sample by "Classic" keeps exactly its last three books, in order |
| BookService.MockFirstPageHoldsAll | frontend/src/services/bookService.ts:266-277 | when the page is at least as large as the filtered list, page 1 holds every filtered book, in some order |
| BookService.MockClassicAnySort | frontend/src/services/bookService.ts:233-282 | for any sort, a "Classic" query of size 3 or more returns keys 8, 9 and 10, with a total of 3 |
| BookService.TenBooksPageThree | frontend/src/services/bookService.ts:266-270 | over ten books at size 5, page 3 is empty with total 10 and 2 pages, in both the mock and the backend |
| BookService.MockUnresolvedKeys | frontend/src/services/bookService.ts:251 | "pageCount" and "bookId" do not resolve to a sample property once lower-cased; the backend resolves "pageCount" to the page count column and sends "bookId" to title |
| BookService.MockUnresolvedKeepsOrder | frontend/src/services/bookService.ts:247-262 | when the key does not resolve or the sort field or order is empty, the mock page is in the sample's own order |
| BookService.MockAgreesWithBackend | frontend/src/services/bookService.ts:184-285 | for a resolvable key, a non-empty order, page at least 1 and size 1..50, the mock answers exactly the envelope the backend answers over the same rows, when the backend returns tied rows in storage order |
| BookService.MockAgreesOnOrder | frontend/src/services/bookService.ts:247-262 | for a resolvable key and a non-empty order, the mock comparator is the backend's |
| BookService.MockDivergesOnPageCount | frontend/src/services/bookService.ts:251 | sorting the sample by "pageCount" ascending puts key 1 first in the mock but key 10 (the shortest book) first in the backend |
| BookService.MockPageCountFirst | frontend/src/services/bookService.ts:247-262 | the mock's first "pageCount" page starts with key 1 |
| BookService.BackendPageCountFirst | backend/BookStoreProject/Controllers/Books.cs:155 | the backend's first "pageCount" page over the sample starts with key 10 |
| BookService.MockFirstPageUnsorted | frontend/src/services/bookService.ts:247-267 | with an unresolved key, the mock's first page is the first rows of the filtered sample as stored |
| BookService.BackendShortestFirst | backend/BookStoreProject/Controllers/Books.cs:155 | a book strictly shorter than all others heads the backend's first ascending "pageCount" page |
| BookService.MockHasId | frontend/src/services/bookService.ts:303 | the sample has a book with a key exactly for keys 1..10 |
| BookService.FindSample | frontend/src/services/bookService.ts:302-305 | a sample lookup succeeds exactly when a sample book has the key; otherwise it fails with "Book not found in mock data" |
| BookService.MockGetBookById | frontend/src/services/bookService.ts:301-305 | the offline lookup succeeds exactly for keys 1..10 and answers the sample book at that position |
| BookService.LiveMissingIdAnswersSample | frontend/src/services/bookService.ts:288-305 | a key missing from the live table but within 1..10 answers with a sample book instead of failing, because a 404 also falls back |
| BookService.FetchPageLength | frontend/src/services/bookService.ts:184-285 | from either source, for page at least 1 and size 1..50, the page and size are echoed and the page's length is min(size, remaining) |
| BookService.FetchTotals | frontend/src/services/bookService.ts:184-285 | from either source, the total is the listing's length and the page count covers it |
| BookService.FetchPage | frontend/src/services/bookService.ts:184-285 | from either source, the page is the run of that source's listing at the page's offset |
| BookService.LivePage | backend/BookStoreProject/Controllers/Books.cs:28-53 | the live source's page is the run of its listing at the offset |
| BookService.OfflinePage | frontend/src/services/bookService.ts:231-284 | the offline source's page is the run of its listing at the offset |
| BookService.ListingPermutes | frontend/src/services/bookService.ts:235-263 | each source's listing is a permutation of the filtered rows |
| Cart.Refold | frontend/src/components/BookList.tsx:115-121 | recomputing the totals from the lines makes them equal the sum of subtotals and quantities, and keeps the lines and last URL |
| Cart.AddToCart | frontend/src/components/BookList.tsx:102-138 | adding a book puts it in the cart; the cart grows by one line exactly when the book was absent; a present book's line keeps its book, gains one unit and is repriced at quantity times the book's price, and then both totals are recomputed from the lines, whatever they were before; other lines are untouched; the last URL is the current path |
| Cart.AddNewKeepsDrift | frontend/src/components/BookList.tsx:123-136 | adding a new book appends a line of quantity 1 and increments the stored totals, so any gap between stored and summed totals is carried over unchanged |
| Cart.AddToCartTotals | frontend/src/components/BookList.tsx:102-138 | on a consistent cart, adding raises the item count by one and the total by the book's price, on both branches |
| Cart.AddToCartInvariant | frontend/src/components/BookList.tsx:102-138 | adding keeps a cart consistent: totals match the lines, each line has quantity at least 1 and subtotal quantity times price, and no book appears twice |
| Cart.WithoutBook | frontend/src/components/BookList.tsx:146 | the filter removes every line of the book, keeps every line of every other book, keeps only lines from the cart, and changes nothing when the book is absent |
| Cart.WithoutBookCounts | frontend/src/components/BookList.tsx:146 | after the filter, a line of the book occurs zero times and every other line occurs exactly as often as in the cart, for any cart |
| Cart.WithoutBookDropsOnlyThatLine | frontend/src/components/BookList.tsx:146 | in a cart with unique books, removing line k's book removes exactly line k |
| Cart.RemoveFromCart | frontend/src/components/BookList.tsx:144-155 | after removal the book is absent, every line of every other book is still there, and the totals match the remaining lines; the last URL is kept; removing an absent book keeps the lines |
| Cart.RemoveFromCartInvariant | frontend/src/components/BookList.tsx:144-155 | removal keeps a cart consistent |
| Cart.RemoveUndoesAddNew | frontend/src/components/BookList.tsx:102-155 | on a consistent cart without the book, adding the book and then removing it gives back the original lines and totals, with the last URL set to the path given to the add |
| Cart.AddTwiceToEmpty | frontend/src/components/BookList.tsx:102-138 | adding the same book twice to an empty cart gives one line of quantity 2, total twice the price and count 2 |
| Cart.UpdateQuantity | frontend/src/components/BookList.tsx:157-178 | a quantity below 1 changes nothing; otherwise the book's lines take the new quantity and a subtotal of that quantity times the book's price, other lines are untouched, and the totals are recomputed from the lines, for any cart |
| Cart.UpdateQuantityInvariant | frontend/src/components/BookList.tsx:157-178 | a quantity update keeps a cart consistent |
| Cart.UpdateToSameQuantity | frontend/src/components/BookList.tsx:157-178 | setting a line to its current quantity leaves a consistent cart unchanged |
| Cart.UpdateQuantityLastWins | frontend/src/components/BookList.tsx:157-178 | two valid updates of the same book equal the second update alone |
| Cart.UpdateQuantityTotals | frontend/src/components/BookList.tsx:157-178 | updating line k moves the count by the quantity difference and the total by the subtotal difference |
| Cart.EmptyCartInvariant | frontend/src/components/BookList.tsx:20-26 | the initial empty cart is consistent and records the current path |
| Catalog.FirstIndex | frontend/src/components/BookList.tsx:60 | the first occurrence of a value is in range, holds the value, and no earlier position does |
| Catalog.Distinct | frontend/src/components/BookList.tsx:60 | `new Set` of a list has no duplicates, has the same values, and is no longer |
| Catalog.DistinctOrder | frontend/src/components/BookList.tsx:60 | the distinct values come in the order of their first occurrence |
| Catalog.CategoriesOf | frontend/src/components/BookList.tsx:60 | mapping books to categories keeps positions |
| Catalog.CategoryOptionsSpec | frontend/src/components/BookList.tsx:60 | the options start with "All", then list every book's category and only those, each once, in order of first appearance |
| Catalog.WithoutAll | frontend/src/components/BookList.tsx:407 | the menu drops exactly the "All" entries |
| Catalog.MenuValueIsFilter | frontend/src/components/BookList.tsx:46 | every value the category menu can send passes through the filter mapping unchanged, and is either "" or a category some book has |
| Catalog.AllShowsEverything | frontend/src/components/BookList.tsx:46 | selecting "All" or "" sends an empty filter, which lists every row |
| Catalog.HandleResetsPage | frontend/src/components/BookList.tsx:79-99 | page size and category changes go to page 1; sort changes keep the page; a page change goes to that page; no handler touches the options |
| Catalog.ReplayKeepsQueryValid | frontend/src/components/BookList.tsx:33-47 | after any sequence of control events, the query has page at least 1 and size 1..50, and the books shown are the source's listing at that page's offset |
| Catalog.CategoryChangeShowsFirstPage | frontend/src/components/BookList.tsx:88-91 | after a category change, the books shown are the start of that category's listing |
| Catalog.CollectIsListing | frontend/src/components/BookList.tsx:55-61 | reading pages of 50 from page p on yields the rest of the listing from p's offset |
| Catalog.PageOfFifty | backend/BookStoreProject/Controllers/Books.cs:30 | a page of size 50 inside the listing is the listing's slice at its offset |
| Catalog.LoadCategoriesComplete | frontend/src/components/BookList.tsx:55-61 | corrected loading lists every book's category, only categories books have, each once |
| Catalog.LiveOptionsMissACategory | frontend/src/components/BookList.tsx:57 | as written, with more than 50 books of distinct categories, the live backend's clamp to 50 leaves some book's category out of the options |
| Catalog.LiveOptionsMissACategoryExample | frontend/src/components/BookList.tsx:57 | a concrete table of 51 books with distinct categories loses a category from the options |
| Admin.PayloadOfFormOf | frontend/src/components/AdminBooks.tsx:112-117 | an untouched edit form submits exactly the book it was copied from |
| Admin.EmptyFormPayload | frontend/src/components/AdminBooks.tsx:119-133 | the blank form submits a record with key 0, empty strings and zero numbers |
| Admin.ApplyInputKeepsId | frontend/src/components/AdminBooks.tsx:78-93 | no input reaches the key; a text input leaves the numbers alone; a number input touches only page count and price; each named input sets its own field |
| Admin.HandleSortSpec | frontend/src/components/AdminBooks.tsx:59-66 | the clicked column becomes the sort field; the same column flips "asc" to "desc" and anything else to "asc"; a new column sorts ascending; nothing else changes |
| Admin.SortTwiceRestores | frontend/src/components/AdminBooks.tsx:59-66 | clicking the sorted column twice restores an "asc" or "desc" order |
| Admin.SortNewColumnTwice | frontend/src/components/AdminBooks.tsx:59-66 | clicking a new column twice sorts it descending |
| Admin.IdHeaderSortsByTitle | frontend/src/components/AdminBooks.tsx:286 | a worked example: the "ID" header's "bookId" is not a backend column name, so the backend sorts by title in the requested direction |
| Admin.HandlePageChangeSpec | frontend/src/components/AdminBooks.tsx:68-71 | a page change is ignored or moves to exactly the requested page; a move lands within 1..totalPages; every page in that range is accepted |
| Admin.ModeTransitions | frontend/src/components/AdminBooks.tsx:112-151 | edit opens the form in edit mode with the book copied; create opens a blank form without a book; close drops both flags but keeps the edited book; a successful submit clears the book |
| Admin.FailedSubmitKeepsForm | frontend/src/components/AdminBooks.tsx:153-156 | a failed submit changes only the message, naming create when creating |
| Admin.ConfirmDeleteGuard | frontend/src/components/AdminBooks.tsx:99-100 | confirming with no book selected sends nothing and changes nothing |
| Admin.ConfirmDeleteRemovesRow | frontend/src/components/AdminBooks.tsx:99-105 | confirming the delete of row i's book sends its key; the backend removes exactly that row; the dialog closes |
| Admin.UpdateNeverBadRequest | frontend/src/components/AdminBooks.tsx:141-145 | the update's URL key equals its payload key, so the backend's key-mismatch answer cannot occur |
| Admin.StepKeepsInvariant | frontend/src/components/AdminBooks.tsx:59-157 | each handler keeps the page invariant: never editing and creating at once; an edit has its book and its key in the form; a create has neither; the order is "asc" or "desc"; page at least 1 and size 1..50 |
| Admin.RunKeepsInvariant | frontend/src/components/AdminBooks.tsx:59-157 | the invariant holds after any sequence of events the rendered controls produce |
| Admin.ReachableSubmit | frontend/src/components/AdminBooks.tsx:135-146 | from any reachable state, a create sends key 0 and the live backend accepts it; an update's form carries the URL key |
| Admin.ReachableListRequest | frontend/src/components/AdminBooks.tsx:42-50 | from any reachable state, the list query is never clamped and the table shows the listing at the page's offset |

## Left out

- The API endpoint probing, timeouts, logging and `console` output. Whether an endpoint answers is the `Source` argument.
- The process-wide `useMockData` flag that sticks once set. The model takes the source per call.
- The live client's `createBook`, `updateBook` and `deleteBook` wrappers are not modelled as separate functions. Online they forward to the backend, which is modelled. Offline they always throw, which the admin model covers by taking each request's outcome as an argument.
- Loading spinners, `usingMockData` banners, the cart modal, `continueShopping` and routing. None of these carry logic beyond display.
- Saving the cart to `localStorage` and restoring it on load with an unguarded `JSON.parse`. This is I/O. A restored cart is an arbitrary `ShoppingCart`: the reducers' contracts hold for any cart, and the lemmas that need `CartInvariant` or `TotalsConsistent` do not promise anything about a stored cart that breaks them. A malformed stored value, which makes `JSON.parse` throw, is not modelled. `Cart.EmptyCartInvariant` covers only the first visit, with nothing stored.
- `parseInt` and `parseFloat` in the admin form. A number input arrives already parsed, and prices are integer cents rather than floating point.
- Entity Framework change tracking, `SaveChangesAsync`, and database collation and `ToLower` rules beyond ASCII. The table is a sequence; case folding is ASCII; string order is by character code.
- `Books.FilterCategorySound`: "blank" is the set of white-space characters that C#'s `Char.IsWhiteSpace` and JavaScript's `trim` share, including U+00A0 and the Unicode space separators. The two runtimes disagree on two characters, and the model counts neither as white space. U+0085 is white space to `string.IsNullOrWhiteSpace` (Books.cs:36), so a category of only U+0085 lists every book in the backend but none in the model. U+FEFF is removed by `trim` (bookService.ts:237), so a category of only U+FEFF lists every mock book in the source but none in the model.
- `BookService.MockAgreesWithBackend`: its equality does not cover categories made only of white space and U+0085 or U+FEFF. On those the two tiers really disagree, as the line above describes. It also holds only when tied rows come back in storage order; see the `BooksController.GetBooksPage` line about tie order. Finally, one character-code `Text.Compare` and one ASCII `Text.Lower` stand for both tiers, which differ there. The mock sorts with `localeCompare` (bookService.ts:256), which puts "apple" before "Banana"; the SQLite backend orders by character code, which puts "Banana" first. The mock's `toLowerCase` folds "É" in the category match, and SQLite's `lower()` does not.
- `Text.Compare`: does not model `localeCompare`'s locale-aware collation. It is character-code order, which also stands for the database's `ORDER BY`.
- `BooksController.GetBooks`: the model takes `sortField` and `sortOrder` as strings that are always present. ASP.NET binds an empty query value such as `?sortOrder=` to null. `sortOrder.ToLower()` (Books.cs:45) or `sortField.ToLower()` (Books.cs:147) then throws, and the request fails with a server error. The model instead answers as for "" (a Title-ascending page). A missing argument takes its declared default, as in the model. The same binding applies to `category`: the client sends `category=` for the empty filter, so the live envelope echoes `category: null` where the model echoes "".
- `BooksController.GetBooksPage`: the offset `(pageNumber - 1) * pageSize` (Books.cs:51) is computed in 32-bit `int` and wraps around; the model's offset is unbounded. The two agree while the product fits in an `int`, which at size 50 means page numbers up to 42949673. Beyond that the source's offset wraps: page 2147483647 at size 50 gives offset -100, `Skip(-100)` skips nothing, and the source answers the first page where the model answers an empty one.
- `BooksController.GetBooksPage`, `BookService.MockAgreesWithBackend`: the backend's `OrderBy` on one column becomes an SQL `ORDER BY`, which leaves the order of tied rows unspecified. The model breaks ties by storage order, through the same stable sort the mock uses. Several statements hold only for that tie order:
  - the page contents of `GetBooksPage`;
  - the exact equality in `MockAgreesWithBackend`;
  - the `Live` listing in `Catalog.ReplayKeepsQueryValid`, `BookService.FetchPage`, `BookService.LivePage`, `Catalog.CategoryChangeShowsFirstPage`, `Catalog.PageOfFifty` and `Admin.ReachableListRequest`;
  - `Catalog.LoadCategoriesComplete`, whose pages of 50 are separate `ORDER BY` queries, so an unstable tie order could shift a row from one page to the next.
  For example, sorting the sample by "category" has ties. The statements that do not depend on ties are `BooksController.GetBooksOrder` (the page is a filtered, ordered run) and `BooksController.GetBooksDescReversesAsc` (which requires distinct keys).
- `BooksController.UpdateBook`: the concurrency conflict is an input flag rather than a race between requests.
- `BooksController.CreateBook`: the database-generated key is an input that must be fresh and non-zero.
- `BookService.MockGetBooks`: the mock's `sort` is modelled as a stable sort. Modern JavaScript engines guarantee this.
- `BookService.FetchPageLength`, `BookService.FetchTotals` and `BookService.FetchPage`: they require page at least 1 and size 1..50. The catalog page's paging controls stay in that range (`Catalog.ReplayKeepsQueryValid`). The category loader does not: it sends size = `totalCount` (BookList.tsx:57), which can be above 50, and the mock would also take 0. Outside the range, the backend's clamp is stated by `BooksController.GetBooks`, `GetBooksTotals` and `GetBooksPage`. The unclamped mock branch is stated by `MockZeroPageSize` and `MockNegativePage`, and the loader's own outcome by the finding below.

Behaviour of the code that its labels, its comments or its other branches do not suggest; the model follows the code:

- `addToCart`'s branch for a new book increments the stored totals rather than re-summing the lines, as the update branch does. `Cart.AddNewKeepsDrift` states exactly what this preserves. On a consistent cart both give the same totals (`Cart.AddToCartTotals`).
- The category menu filters the "All" option out of the list and adds its own "All Categories" entry with value "".
- The admin table's "ID" column asks to sort by "bookId". The backend sorts that by title, and the mock leaves the list unsorted.
- The admin form's Cancel and close buttons clear both mode flags but keep `editingBook`. It is cleared only by a successful submit and by the "Add New Book" button (`handleCreateClick`).

## Findings

| source | as written | input that shows it | evidently intended | confidence | as-written member | corrected member |
|---|---|---|---|---|---|---|
| frontend/src/components/BookList.tsx:57 | to build the category menu, the page asks for page 1 with page size = `totalCount`, but the backend clamps any size above 50 to 50 (backend/BookStoreProject/Controllers/Books.cs:30) | a live table of 51 books with 51 distinct categories: one category never appears in the menu | the menu lists the category of every book | not executed | Catalog.LiveOptionsMissACategoryExample | Catalog.LoadCategoriesComplete |
