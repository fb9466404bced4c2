/**
 * The admin page (`AdminBooks`): the table's sort and paging handlers, the
 * create/edit form with its mode flags, the payloads it submits, and the
 * delete confirmation.
 *
 * Requests are not sent here: each handler that awaits one takes its
 * outcome as an argument. Form parsing of numbers is left out; a number
 * input arrives already parsed (prices in cents).
 */
module Admin {
  import opened Wrappers
  import opened Books
  import opened Paging
  import Text
  import BookService
  import BooksController

  // ---------------------------------------------------------------------------
  // The form
  // ---------------------------------------------------------------------------

  /** `formData`: a partial book; only a form copied from a book carries an id. */
  datatype BookForm = BookForm(
    bookId: Option<int>,
    title: string,
    author: string,
    publisher: string,
    isbn: string,
    classification: string,
    category: string,
    pageCount: int,
    price: int)

  /** The blank form of "Add New Book": empty strings, zero numbers, no id. */
  function EmptyForm(): BookForm
  {
    BookForm(None, "", "", "", "", "", "", 0, 0)
  }

  /** `{ ...book }`: the form of "Edit". */
  function FormOf(b: Book): BookForm
  {
    BookForm(Some(b.bookId), b.title, b.author, b.publisher, b.isbn, b.classification,
             b.category, b.pageCount, b.price)
  }

  /** `formData as Book` as the backend binds it: a missing id binds as 0. */
  function Payload(f: BookForm): Book
  {
    Book(match f.bookId case Some(id) => id case None => 0,
         f.title, f.author, f.publisher, f.isbn, f.classification, f.category, f.pageCount, f.price)
  }

  /** Submitting an untouched edit form sends the book it was copied from. */
  lemma PayloadOfFormOf(b: Book)
    ensures Payload(FormOf(b)) == b
    ensures FormOf(b).bookId == Some(b.bookId)
  {
  }

  /** The blank form binds as a record without an id, so the database assigns one. */
  lemma EmptyFormPayload()
    ensures Payload(EmptyForm()).bookId == 0
    ensures Payload(EmptyForm()).pageCount == 0 && Payload(EmptyForm()).price == 0
    ensures Payload(EmptyForm()).title == "" && Payload(EmptyForm()).category == ""
  {
  }

  /** One edit of a named input. */
  datatype FormInput = TextInput(name: string, text: string) | NumberInput(name: string, number: int)

  /**
   * `handleInputChange`: the named property takes the value; numbers only
   * for "pageCount" and "price". Names the form does not hold change nothing.
   */
  function ApplyInput(f: BookForm, input: FormInput): BookForm
  {
    match input
    case TextInput(name, t) =>
      if name == "title" then f.(title := t)
      else if name == "author" then f.(author := t)
      else if name == "publisher" then f.(publisher := t)
      else if name == "isbn" then f.(isbn := t)
      else if name == "classification" then f.(classification := t)
      else if name == "category" then f.(category := t)
      else f
    case NumberInput(name, n) =>
      if name == "pageCount" then f.(pageCount := n)
      else if name == "price" then f.(price := n)
      else f
  }

  /** No input reaches the id, and a text input changes at most the field it names. */
  lemma ApplyInputKeepsId(f: BookForm, input: FormInput)
    ensures ApplyInput(f, input).bookId == f.bookId
    ensures input.TextInput? ==>
              ApplyInput(f, input).pageCount == f.pageCount && ApplyInput(f, input).price == f.price
    ensures input.NumberInput? ==> ApplyInput(f, input).(pageCount := f.pageCount, price := f.price) == f
    ensures input.TextInput? && input.name == "title" ==> ApplyInput(f, input) == f.(title := input.text)
    ensures input.TextInput? && input.name == "author" ==> ApplyInput(f, input) == f.(author := input.text)
    ensures input.TextInput? && input.name == "publisher" ==> ApplyInput(f, input) == f.(publisher := input.text)
    ensures input.TextInput? && input.name == "isbn" ==> ApplyInput(f, input) == f.(isbn := input.text)
    ensures input.TextInput? && input.name == "classification" ==>
              ApplyInput(f, input) == f.(classification := input.text)
    ensures input.TextInput? && input.name == "category" ==> ApplyInput(f, input) == f.(category := input.text)
    ensures input.NumberInput? && input.name == "pageCount" ==> ApplyInput(f, input) == f.(pageCount := input.number)
    ensures input.NumberInput? && input.name == "price" ==> ApplyInput(f, input) == f.(price := input.number)
  {
  }

  // ---------------------------------------------------------------------------
  // The page state
  // ---------------------------------------------------------------------------

  datatype AdminView = AdminView(
    books: seq<Book>,
    pageSize: int,
    currentPage: int,
    totalPages: Pages,
    totalCount: int,
    sortField: string,
    sortOrder: string,
    editingBook: Option<Book>,
    isEditing: bool,
    isCreating: bool,
    bookToDelete: Option<Book>,
    form: BookForm,
    error: Option<string>)

  /** Ten per page, page 1 of 1, by title ascending, no form and no pending delete. */
  function InitialAdmin(): AdminView
  {
    AdminView([], 10, 1, Count(1), 0, "title", "asc", None, false, false, None, EmptyForm(), None)
  }

  /** A column header click: the same column flips the order, another column sorts ascending. */
  function HandleSort(v: AdminView, field: string): AdminView
  {
    if field == v.sortField then v.(sortOrder := if v.sortOrder == "asc" then "desc" else "asc")
    else v.(sortField := field, sortOrder := "asc")
  }

  /** `page > totalPages` in JavaScript: never true when the count is Infinity or NaN. */
  predicate PastLastPage(page: int, totalPages: Pages)
  {
    match totalPages
    case Count(n) => page > n
    case NotFinite => false
  }

  /** A page change outside 1..totalPages is ignored. */
  function HandlePageChange(v: AdminView, page: int): AdminView
  {
    if page < 1 || PastLastPage(page, v.totalPages) then v else v.(currentPage := page)
  }

  function HandlePageSizeChange(v: AdminView, size: int): AdminView
  {
    v.(pageSize := size, currentPage := 1)
  }

  function EditClick(v: AdminView, b: Book): AdminView
  {
    v.(editingBook := Some(b), isEditing := true, isCreating := false, form := FormOf(b))
  }

  function CreateClick(v: AdminView): AdminView
  {
    v.(isCreating := true, isEditing := false, editingBook := None, form := EmptyForm())
  }

  /** The close button and Cancel: both flags drop; the book being edited is kept. */
  function CloseForm(v: AdminView): AdminView
  {
    v.(isEditing := false, isCreating := false)
  }

  function InputChange(v: AdminView, input: FormInput): AdminView
  {
    v.(form := ApplyInput(v.form, input))
  }

  /** What a submit sends. */
  datatype SubmitRequest = CreateRequest(book: Book) | UpdateRequest(id: int, book: Book) | NoRequest

  /**
   * `handleSubmit`'s request: a create sends the form; an update sends the
   * form with its id overwritten by the edited book's, to that book's URL.
   */
  function SubmitRequestOf(v: AdminView): SubmitRequest
  {
    if v.isCreating then CreateRequest(Payload(v.form))
    else if v.isEditing && v.editingBook.Some? then
      UpdateRequest(v.editingBook.value.bookId, Payload(v.form).(bookId := v.editingBook.value.bookId))
    else NoRequest
  }

  /** After the request: success closes the form, failure keeps it open with a message. */
  function HandleSubmit(v: AdminView, ok: bool): AdminView
  {
    if ok then v.(isCreating := false, isEditing := false, editingBook := None)
    else v.(error := Some(if v.isCreating then "Failed to create book. Please try again."
                          else "Failed to update book. Please try again."))
  }

  function DeleteClick(v: AdminView, b: Book): AdminView
  {
    v.(bookToDelete := Some(b))
  }

  /** The close button and Cancel of the delete dialog. */
  function DismissDelete(v: AdminView): AdminView
  {
    v.(bookToDelete := None)
  }

  /** The id a confirmed delete sends, if any book is selected. */
  function DeleteRequestOf(v: AdminView): Option<int>
  {
    match v.bookToDelete
    case Some(b) => Some(b.bookId)
    case None => None
  }

  /** `handleConfirmDelete`: nothing without a selection; otherwise close on success, report on failure. */
  function ConfirmDelete(v: AdminView, ok: bool): AdminView
  {
    if v.bookToDelete.None? then v
    else if ok then v.(bookToDelete := None)
    else v.(error := Some("Failed to delete book. Please try again."))
  }

  /** A list answer replaces the rows and the totals; a failure only sets the message. */
  function Loaded(v: AdminView, r: PagedResult): AdminView
  {
    v.(books := r.books, totalPages := r.totalPages, totalCount := r.totalCount, error := None)
  }

  function LoadFailed(v: AdminView): AdminView
  {
    v.(error := Some("Failed to fetch books. Please try again later."))
  }

  // ---------------------------------------------------------------------------
  // Handler properties
  // ---------------------------------------------------------------------------

  /**
   * Clicking the sorted column flips "asc" and "desc" (anything else becomes
   * "asc"); clicking another column sorts it ascending; either way the page
   * stays where it is.
   */
  lemma HandleSortSpec(v: AdminView, field: string)
    ensures HandleSort(v, field).sortField == field
    ensures field == v.sortField && v.sortOrder == "asc" ==> HandleSort(v, field).sortOrder == "desc"
    ensures field == v.sortField && v.sortOrder != "asc" ==> HandleSort(v, field).sortOrder == "asc"
    ensures field != v.sortField ==> HandleSort(v, field).sortOrder == "asc"
    ensures HandleSort(v, field).(sortField := v.sortField, sortOrder := v.sortOrder) == v
  {
  }

  /** Two clicks on the sorted column restore the order when it was "asc" or "desc". */
  lemma SortTwiceRestores(v: AdminView)
    requires v.sortOrder == "asc" || v.sortOrder == "desc"
    ensures HandleSort(HandleSort(v, v.sortField), v.sortField) == v
  {
  }

  /** Two clicks on another column leave it sorted descending. */
  lemma SortNewColumnTwice(v: AdminView, field: string)
    requires field != v.sortField
    ensures HandleSort(HandleSort(v, field), field).sortField == field
    ensures HandleSort(HandleSort(v, field), field).sortOrder == "desc"
  {
  }

  /**
   * A worked example rather than a general property: the "ID" header asks for
   * "bookId", which is not on the backend's allow-list, so the backend sorts
   * by title instead. `BooksController.SortFieldDispatch` is the general rule.
   */
  lemma IdHeaderSortsByTitle(sortOrder: string)
    ensures BooksController.BackendComparator("bookId", sortOrder) == ByField(Title, IsDescending(sortOrder))
  {
    assert Text.Lower("bookId") == "bookid";
  }

  /**
   * A page change either is ignored or lands on the requested page, which is
   * then at least 1 and not past a finite page count.
   */
  lemma HandlePageChangeSpec(v: AdminView, page: int)
    ensures HandlePageChange(v, page) == v || HandlePageChange(v, page) == v.(currentPage := page)
    ensures HandlePageChange(v, page).currentPage != v.currentPage ==>
              HandlePageChange(v, page).currentPage == page && page >= 1 &&
              (v.totalPages.Count? ==> page <= v.totalPages.n)
    ensures 1 <= page && (v.totalPages.NotFinite? || page <= v.totalPages.n) ==>
              HandlePageChange(v, page).currentPage == page
  {
  }

  /** The form flags, the selection and the form: edit copies the book, create blanks the form. */
  lemma ModeTransitions(v: AdminView, b: Book)
    ensures EditClick(v, b).isEditing && !EditClick(v, b).isCreating
    ensures EditClick(v, b).form == FormOf(b) && EditClick(v, b).editingBook == Some(b)
    ensures CreateClick(v).isCreating && !CreateClick(v).isEditing
    ensures CreateClick(v).form == EmptyForm() && CreateClick(v).editingBook.None?
    ensures !CloseForm(v).isEditing && !CloseForm(v).isCreating
    ensures CloseForm(v).editingBook == v.editingBook
    ensures HandleSubmit(v, true).editingBook.None?
    ensures !HandleSubmit(v, true).isEditing && !HandleSubmit(v, true).isCreating
  {
  }

  /** A failed submit leaves the form open exactly as it was and says which action failed. */
  lemma FailedSubmitKeepsForm(v: AdminView)
    ensures HandleSubmit(v, false).(error := v.error) == v
    ensures HandleSubmit(v, false).error.Some?
    ensures v.isCreating ==> HandleSubmit(v, false).error == Some("Failed to create book. Please try again.")
  {
  }

  /** Without a selected book a confirmed delete sends nothing and changes nothing. */
  lemma ConfirmDeleteGuard(v: AdminView, ok: bool)
    requires v.bookToDelete.None?
    ensures DeleteRequestOf(v).None?
    ensures ConfirmDelete(v, ok) == v
  {
  }

  /**
   * Confirming the delete of a book listed at row `i` sends that book's id,
   * and the backend removes exactly that row.
   */
  lemma ConfirmDeleteRemovesRow(v: AdminView, rows: seq<Book>, i: int)
    requires BooksController.UniqueIds(rows) && 0 <= i < |rows|
    requires v.bookToDelete == Some(rows[i])
    ensures DeleteRequestOf(v) == Some(rows[i].bookId)
    ensures BooksController.DeleteBook(rows, DeleteRequestOf(v).value).rows == rows[..i] + rows[i + 1..]
    ensures ConfirmDelete(v, true).bookToDelete.None?
  {
    BooksController.DeleteRemovesOnlyThatRow(rows, i);
  }

  /**
   * The update request's URL id and payload id agree, so the backend's
   * id-mismatch answer (BadRequest) cannot be reached from this form.
   */
  lemma UpdateNeverBadRequest(v: AdminView, rows: seq<Book>, conflict: bool)
    requires SubmitRequestOf(v).UpdateRequest?
    ensures SubmitRequestOf(v).book.bookId == SubmitRequestOf(v).id
    ensures BooksController.UpdateBook(rows, SubmitRequestOf(v).id, SubmitRequestOf(v).book, conflict).result
            != Err(BooksController.BadRequest)
  {
  }

  // ---------------------------------------------------------------------------
  // The page's invariant over every sequence of events
  // ---------------------------------------------------------------------------

  datatype AdminEvent =
    | Sort(field: string)
    | PageChange(page: int)
    | PageSizeChange(size: int)
    | Edit(book: Book)
    | Create
    | Close
    | Input(input: FormInput)
    | Submit(ok: bool)
    | AskDelete(book: Book)
    | DismissDeleteDialog
    | ConfirmDeleteDialog(ok: bool)
    | ListLoaded(result: PagedResult)
    | ListFailed

  function Step(v: AdminView, e: AdminEvent): AdminView
  {
    match e
    case Sort(f) => HandleSort(v, f)
    case PageChange(p) => HandlePageChange(v, p)
    case PageSizeChange(n) => HandlePageSizeChange(v, n)
    case Edit(b) => EditClick(v, b)
    case Create => CreateClick(v)
    case Close => CloseForm(v)
    case Input(i) => InputChange(v, i)
    case Submit(ok) => HandleSubmit(v, ok)
    case AskDelete(b) => DeleteClick(v, b)
    case DismissDeleteDialog => DismissDelete(v)
    case ConfirmDeleteDialog(ok) => ConfirmDelete(v, ok)
    case ListLoaded(r) => Loaded(v, r)
    case ListFailed => LoadFailed(v)
  }

  function Run(v: AdminView, es: seq<AdminEvent>): AdminView
    decreases |es|
  {
    if |es| == 0 then v else Run(Step(v, es[0]), es[1..])
  }

  /** Page sizes the size menu offers. */
  predicate Offered(e: AdminEvent)
  {
    e.PageSizeChange? ==> e.size == 5 || e.size == 10 || e.size == 20 || e.size == 50
  }

  /**
   * The page never edits and creates at once; an edit always has its book
   * and the form holds that book's id; a create has no book and an id-less
   * form; the order is "asc" or "desc"; the page and size are ones the
   * backend leaves unclamped.
   */
  predicate AdminInvariant(v: AdminView)
  {
    && !(v.isEditing && v.isCreating)
    && (v.isEditing ==> v.editingBook.Some? && v.form.bookId == Some(v.editingBook.value.bookId))
    && (v.isCreating ==> v.editingBook.None? && v.form.bookId.None?)
    && (v.sortOrder == "asc" || v.sortOrder == "desc")
    && v.currentPage >= 1
    && 1 <= v.pageSize <= 50
  }

  lemma InitialAdminInvariant()
    ensures AdminInvariant(InitialAdmin())
  {
  }

  /** The table's handlers keep the invariant. */
  lemma TableEventsKeepInvariant(v: AdminView, field: string, page: int, size: int)
    requires AdminInvariant(v)
    requires 1 <= size <= 50
    ensures AdminInvariant(HandleSort(v, field))
    ensures AdminInvariant(HandlePageChange(v, page))
    ensures AdminInvariant(HandlePageSizeChange(v, size))
    ensures AdminInvariant(LoadFailed(v))
  {
  }

  /** The form's handlers keep the invariant. */
  lemma FormEventsKeepInvariant(v: AdminView, b: Book, input: FormInput, ok: bool)
    requires AdminInvariant(v)
    ensures AdminInvariant(EditClick(v, b)) && AdminInvariant(CreateClick(v))
    ensures AdminInvariant(CloseForm(v))
    ensures AdminInvariant(InputChange(v, input))
    ensures AdminInvariant(HandleSubmit(v, ok))
  {
    assert ApplyInput(v.form, input).bookId == v.form.bookId;
  }

  /** The delete dialog's handlers and a list answer keep the invariant. */
  lemma DeleteAndLoadKeepInvariant(v: AdminView, b: Book, ok: bool, r: PagedResult)
    requires AdminInvariant(v)
    ensures AdminInvariant(DeleteClick(v, b)) && AdminInvariant(DismissDelete(v))
    ensures AdminInvariant(ConfirmDelete(v, ok))
    ensures AdminInvariant(Loaded(v, r))
  {
  }

  lemma StepKeepsInvariant(v: AdminView, e: AdminEvent)
    requires AdminInvariant(v) && Offered(e)
    ensures AdminInvariant(Step(v, e))
  {
    var b := Payload(v.form);
    var r := PagedResult(v.books, v.currentPage, v.pageSize, 0, v.totalPages, v.sortField, v.sortOrder, "");
    match e
    case Sort(f) => TableEventsKeepInvariant(v, f, 1, 5);
    case PageChange(p) => TableEventsKeepInvariant(v, "", p, 5);
    case PageSizeChange(n) => TableEventsKeepInvariant(v, "", 1, n);
    case ListFailed => TableEventsKeepInvariant(v, "", 1, 5);
    case Edit(book) => FormEventsKeepInvariant(v, book, TextInput("", ""), true);
    case Create => FormEventsKeepInvariant(v, b, TextInput("", ""), true);
    case Close => FormEventsKeepInvariant(v, b, TextInput("", ""), true);
    case Input(i) => FormEventsKeepInvariant(v, b, i, true);
    case Submit(ok) => FormEventsKeepInvariant(v, b, TextInput("", ""), ok);
    case AskDelete(book) => DeleteAndLoadKeepInvariant(v, book, true, r);
    case DismissDeleteDialog => DeleteAndLoadKeepInvariant(v, b, true, r);
    case ConfirmDeleteDialog(ok) => DeleteAndLoadKeepInvariant(v, b, ok, r);
    case ListLoaded(result) => DeleteAndLoadKeepInvariant(v, b, true, result);
  }

  lemma {:induction false} RunKeepsInvariant(v: AdminView, es: seq<AdminEvent>)
    requires AdminInvariant(v)
    requires forall i :: 0 <= i < |es| ==> Offered(es[i])
    ensures AdminInvariant(Run(v, es))
    decreases |es|
  {
    if |es| > 0 {
      StepKeepsInvariant(v, es[0]);
      RunKeepsInvariant(Step(v, es[0]), es[1..]);
    }
  }

  /**
   * From any state the page can reach, a create sends a record without an
   * id, which the live backend always stores under a fresh key; an update
   * sends the edited book's own id.
   */
  lemma ReachableSubmit(es: seq<AdminEvent>, rows: seq<Book>, generatedId: int)
    requires forall i :: 0 <= i < |es| ==> Offered(es[i])
    requires generatedId != 0 && !BooksController.HasId(rows, generatedId)
    ensures SubmitRequestOf(Run(InitialAdmin(), es)).CreateRequest? ==>
              SubmitRequestOf(Run(InitialAdmin(), es)).book.bookId == 0 &&
              BooksController.CreateBook(rows, SubmitRequestOf(Run(InitialAdmin(), es)).book, generatedId).result.Ok?
    ensures SubmitRequestOf(Run(InitialAdmin(), es)).UpdateRequest? ==>
              Run(InitialAdmin(), es).form.bookId == Some(SubmitRequestOf(Run(InitialAdmin(), es)).id)
  {
    RunKeepsInvariant(InitialAdmin(), es);
  }

  /**
   * Every list request the page can make, after any sequence of events,
   * asks for a page at least 1 and a size the backend leaves unclamped, so
   * the rows shown are the run of the full listing at that page's offset.
   */
  lemma {:induction false} ReachableListRequest(source: BookService.Source, es: seq<AdminEvent>)
    requires forall i :: 0 <= i < |es| ==> Offered(es[i])
    ensures Run(InitialAdmin(), es).currentPage >= 1 && 1 <= Run(InitialAdmin(), es).pageSize <= 50
    ensures RunAt(BookService.FetchBooks(source, Run(InitialAdmin(), es).currentPage, Run(InitialAdmin(), es).pageSize,
                                         Run(InitialAdmin(), es).sortField, Run(InitialAdmin(), es).sortOrder, "").books,
                  BookService.Listing(source, Run(InitialAdmin(), es).sortField, Run(InitialAdmin(), es).sortOrder, ""),
                  Offset(Run(InitialAdmin(), es).currentPage, Run(InitialAdmin(), es).pageSize))
  {
    InitialAdminInvariant();
    RunKeepsInvariant(InitialAdmin(), es);
    var v := Run(InitialAdmin(), es);
    BookService.FetchPage(source, v.currentPage, v.pageSize, v.sortField, v.sortOrder, "");
  }
}
