/** The stored tables and the requests that change them in place: the
    borrow request (`BorrowingSerializer.create`), the return action
    (`BorrowingViewSet.return_borrowing`) and the daily overdue task. */
module Service {
  import opened Common
  import opened Dates
  import opened Books
  import opened Borrowings
  import opened Ledger
  import opened Serializers
  import opened Views
  import opened Tasks
  import opened Lifecycle

  class Library {
    var books: map<nat, Book>
    var ledger: seq<Borrowing>
    var nextId: nat
    /** Messages handed to the notification dispatcher, oldest first. */
    var outbox: seq<string>

    function Snapshot(): State
      reads this
    {
      State(books, ledger, nextId)
    }

    predicate Valid()
      reads this
    {
      Ledger.Valid(Snapshot())
    }

    /** Tables holding the given catalogue and no borrowings. */
    constructor (catalogue: map<nat, Book>)
      requires forall k :: k in catalogue ==> ValidBook(catalogue[k])
      ensures Valid()
      ensures books == catalogue && ledger == [] && outbox == []
    {
      books := catalogue;
      ledger := [];
      nextId := 1;
      outbox := [];
    }

    /** POST a borrowing: validate the fields, refuse a second active
        borrowing of the same book, then take a copy off the shelf, add the
        row and send the notification. */
    method Borrow(requester: User, bookId: nat, expected: Date, today: Date)
      returns (response: Result<Borrowing, BorrowError>)
      requires Valid() && ValidDate(today) && ValidDate(expected)
      modifies this
      ensures Valid()
      ensures var step := CreateBorrowing(old(Snapshot()), requester, bookId, expected, today);
        && Snapshot() == step.after
        && (step.response.Ok? ==> response == Ok(step.response.value.record)
                                  && outbox == old(outbox) + [step.response.value.message])
        && (step.response.Err? ==> response == Err(step.response.error) && outbox == old(outbox))
    {
      BorrowPreservesValid(Snapshot(), requester, bookId, expected, today);
      match ValidateFields(books, bookId, expected, today)
      case Err(errors) =>
        response := Err(FieldErrors(errors));
      case Ok(_) =>
        if HasActiveBorrowing(ledger, requester, bookId) {
          response := Err(AlreadyBorrowed);
        } else {
          var book := books[bookId];
          book := book.(inventory := book.inventory - 1);
          books := books[bookId := book];
          var rec := NewBorrowing(nextId, today, expected, bookId, requester);
          ledger := ledger + [rec];
          nextId := nextId + 1;
          outbox := outbox + [BorrowedMessage(requester, book.title)];
          response := Ok(rec);
        }
    }

    /** PATCH .../return: close the requester's row `pk` and put the copy
        back, or report why not. */
    method ReturnBorrowing(requester: User, pk: int, today: Date)
      returns (response: Result<string, ReturnError>)
      requires Valid() && ValidDate(today)
      modifies this`books, this`ledger
      ensures Valid()
      ensures var step := Views.ReturnBorrowing(old(Snapshot()), requester, pk, today);
        Snapshot() == step.after && response == step.response
    {
      ReturnPreservesValid(Snapshot(), requester, pk, today);
      var found := FindOwned(ledger, requester, pk);
      if found.None? {
        response := Err(NotFound);
        return;
      }
      var i := found.value;
      var borrowing := ledger[i];
      if borrowing.isActive {
        borrowing := borrowing.(actualReturnDate := Some(today), isActive := false);
        ledger := ledger[i := borrowing];
        var book := books[borrowing.book];
        book := book.(inventory := book.inventory + 1);
        books := books[borrowing.book := book];
        response := Ok(ReturnedText);
      } else {
        response := Err(AlreadyReturned);
      }
    }

    /** The daily task: select the overdue rows, group them by borrower and
        send one message; the tables are only read. */
    method SendOverdueReport(today: Date)
      requires Valid()
      modifies this`outbox
      ensures outbox == old(outbox) + [OverdueMessage(Snapshot(), today)]
    {
      var entries := OverdueEntries(Snapshot(), today);
      var message;
      if |entries| > 0 {
        var groups := GroupByEmail(entries);
        message := Render(groups);
      } else {
        message := NoneOverdueText;
      }
      outbox := outbox + [message];
    }
  }
}
