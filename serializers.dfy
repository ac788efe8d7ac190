/** Borrowing a book (borrowing/serializers.py, `BorrowingSerializer`):
    per-field validation, then the all-or-nothing `create`. */
module Serializers {
  import opened Common
  import opened Dates
  import opened Books
  import opened Borrowings
  import opened Ledger

  /** Errors of single fields, reported together. */
  datatype FieldError =
    | ReturnDateNotAfterToday   // `validate_expected_return_date`
    | UnknownBook               // the submitted book key names no book
    | BookUnavailable           // `validate_book`

  datatype BorrowError =
    | FieldErrors(errors: seq<FieldError>)
    | AlreadyBorrowed           // the duplicate guard in `create`

  /** `validate_book`: a book with no copy on the shelf is refused; any other
      book passes unchanged. */
  function ValidateBook(book: Book): (r: Result<Book, FieldError>)
    ensures r.Ok? <==> book.inventory > 0
    ensures r.Ok? ==> r.value == book
    ensures r.Err? ==> r.error == BookUnavailable
  {
    if book.inventory == 0 then Err(BookUnavailable) else Ok(book)
  }

  /** `validate_expected_return_date`: a date on or before today is refused;
      any later date passes unchanged. */
  function ValidateExpectedReturnDate(value: Date, today: Date): (r: Result<Date, FieldError>)
    ensures r.Ok? <==> Before(today, value)
    ensures r.Ok? ==> r.value == value
    ensures r.Err? ==> r.error == ReturnDateNotAfterToday
  {
    if !Before(today, value) then Err(ReturnDateNotAfterToday) else Ok(value)
  }

  /** The serializer's field validation: every field is checked, in the
      order the serializer declares them (`expected_return_date` before
      `book`), and all failures are reported together. */
  function ValidateFields(books: map<nat, Book>, bookId: nat, expected: Date, today: Date)
    : (r: Result<(nat, Date), seq<FieldError>>)
    ensures r.Ok? <==> bookId in books && books[bookId].inventory > 0 && Before(today, expected)
    ensures r.Ok? ==> r.value == (bookId, expected)
    ensures r.Err? ==> (
      && |r.error| > 0
      && (ReturnDateNotAfterToday in r.error <==> !Before(today, expected))
      && (UnknownBook in r.error <==> bookId !in books)
      && (BookUnavailable in r.error <==> bookId in books && books[bookId].inventory == 0))
  {
    var dateErrors := match ValidateExpectedReturnDate(expected, today)
      case Ok(_) => []
      case Err(e) => [e];
    var bookErrors :=
      if bookId !in books then [UnknownBook]
      else match ValidateBook(books[bookId])
        case Ok(_) => []
        case Err(e) => [e];
    if dateErrors + bookErrors == [] then Ok((bookId, expected))
    else Err(dateErrors + bookErrors)
  }

  /** `user.borrowings.filter(book=book, is_active=True).exists()` */
  predicate HasActiveBorrowing(ledger: seq<Borrowing>, user: User, bookId: nat)
    ensures HasActiveBorrowing(ledger, user, bookId) <==> ActiveCountBy(ledger, user.id, bookId) > 0
  {
    exists i :: 0 <= i < |ledger| && ledger[i].isActive && ledger[i].book == bookId
                && ledger[i].user.id == user.id
  }

  /** The notification sent when a book is borrowed. */
  function BorrowedMessage(user: User, title: string): (r: string)
    ensures |r| == |UserText(user)| + |title| + 22
    ensures r[..|UserText(user)|] == UserText(user)
    ensures r[|UserText(user)|..|UserText(user)| + 20] == " borrowed the book '"
    ensures r[|r| - 2 - |title|..|r| - 2] == title
    ensures r[|r| - 2..] == "'."
  {
    UserText(user) + " borrowed the book '" + title + "'."
  }

  /** A successful borrow: the new row and the notification text. */
  datatype Created = Created(record: Borrowing, message: string)

  /** Validation followed by `create`. A request that fails anywhere leaves
      the tables as they were; one that succeeds takes one copy off the
      shelf and appends one active row owned by the requester. */
  function CreateBorrowing(s: State, requester: User, bookId: nat, expected: Date, today: Date)
    : (r: Step<Created, BorrowError>)
    ensures r.response.Err? ==> r.after == s
    ensures ValidateFields(s.books, bookId, expected, today).Err? ==>
      r.response == Err(FieldErrors(ValidateFields(s.books, bookId, expected, today).error))
    ensures r.response.Ok? <==>
      && bookId in s.books && s.books[bookId].inventory > 0 && Before(today, expected)
      && !HasActiveBorrowing(s.ledger, requester, bookId)
    ensures r.response == Err(AlreadyBorrowed) <==>
      && bookId in s.books && s.books[bookId].inventory > 0 && Before(today, expected)
      && HasActiveBorrowing(s.ledger, requester, bookId)
    ensures r.response.Ok? ==>
      var book := s.books[bookId];
      var rec := r.response.value.record;
      && r.after.books.Keys == s.books.Keys
      && r.after.books[bookId] == book.(inventory := book.inventory - 1)
      && (forall k :: k in s.books && k != bookId ==> r.after.books[k] == s.books[k])
      && r.after.ledger == s.ledger + [rec]
      && rec.user == requester && rec.book == bookId && rec.expectedReturnDate == expected
      && rec.isActive && rec.actualReturnDate == None && rec.borrowDate == today
      && rec.id == s.nextId && r.after.nextId == s.nextId + 1
      && r.response.value.message == BorrowedMessage(requester, book.title)
  {
    match ValidateFields(s.books, bookId, expected, today)
    case Err(errors) => Step(s, Err(FieldErrors(errors)))
    case Ok(_) =>
      if HasActiveBorrowing(s.ledger, requester, bookId) then Step(s, Err(AlreadyBorrowed))
      else
        var book := s.books[bookId];
        var rec := NewBorrowing(s.nextId, today, expected, bookId, requester);
        var after := State(s.books[bookId := book.(inventory := book.inventory - 1)],
                           s.ledger + [rec], s.nextId + 1);
        Step(after, Ok(Created(rec, BorrowedMessage(requester, book.title))))
  }
}
