/** What borrowing and returning together guarantee about the tables. */
module Lifecycle {
  import opened Common
  import opened Dates
  import opened Books
  import opened Borrowings
  import opened Ledger
  import opened Serializers
  import opened Views

  /** A successful borrow keeps every invariant of the tables; in particular
      the decrement never takes a book's inventory below zero and the pair
      rule still holds. */
  lemma BorrowPreservesValid(s: State, requester: User, bookId: nat, expected: Date, today: Date)
    requires Valid(s) && ValidDate(today) && ValidDate(expected)
    ensures Valid(CreateBorrowing(s, requester, bookId, expected, today).after)
  {
    var r := CreateBorrowing(s, requester, bookId, expected, today);
    if r.response.Ok? {
      var t := r.after;
      var rec := r.response.value.record;
      assert t.ledger[|s.ledger|] == rec;
      forall i, j | 0 <= i < j < |t.ledger| && t.ledger[i].isActive && t.ledger[j].isActive
        ensures t.ledger[i].book != t.ledger[j].book || t.ledger[i].user.id != t.ledger[j].user.id
      {
        if j == |s.ledger| {
          assert t.ledger[i] == s.ledger[i];
        }
      }
    }
  }

  /** A return keeps every invariant of the tables. */
  lemma ReturnPreservesValid(s: State, requester: User, pk: int, today: Date)
    requires Valid(s) && ValidDate(today)
    ensures Valid(ReturnBorrowing(s, requester, pk, today).after)
  {
    var r := ReturnBorrowing(s, requester, pk, today);
    if r.response.Ok? {
      var i := FindOwned(s.ledger, requester, pk).value;
      var t := r.after;
      assert forall j :: 0 <= j < |t.ledger| && j != i ==> t.ledger[j] == s.ledger[j];
      assert t.ledger[i].id == s.ledger[i].id && t.ledger[i].book == s.ledger[i].book;
    }
  }

  /** Borrowing moves one copy of the book from the shelf to the borrower:
      for every book, copies on the shelf plus copies out stay the same. */
  lemma BorrowConservesHoldings(s: State, requester: User, bookId: nat, expected: Date, today: Date, k: nat)
    requires k in s.books
    ensures var t := CreateBorrowing(s, requester, bookId, expected, today).after;
      k in t.books && Holdings(t, k) == Holdings(s, k)
  {
    var r := CreateBorrowing(s, requester, bookId, expected, today);
    if r.response.Ok? {
      CountAppend(s.ledger, r.response.value.record, ActiveFor(k));
    }
  }

  /** Returning moves the copy back: for every book, copies on the shelf plus
      copies out stay the same. */
  lemma ReturnConservesHoldings(s: State, requester: User, pk: int, today: Date, k: nat)
    requires RefsIntact(s) && k in s.books
    ensures var t := ReturnBorrowing(s, requester, pk, today).after;
      k in t.books && Holdings(t, k) == Holdings(s, k)
  {
    var r := ReturnBorrowing(s, requester, pk, today);
    if r.response.Ok? {
      var i := FindOwned(s.ledger, requester, pk).value;
      CountUpdate(s.ledger, i, Closed(s.ledger[i], today), ActiveFor(k));
    }
  }

  /** After a successful borrow the requester holds exactly one copy of the
      book. */
  lemma OneActiveAfterBorrow(s: State, requester: User, bookId: nat, expected: Date, today: Date)
    requires CreateBorrowing(s, requester, bookId, expected, today).response.Ok?
    ensures ActiveCountBy(CreateBorrowing(s, requester, bookId, expected, today).after.ledger,
                          requester.id, bookId) == 1
  {
    var r := CreateBorrowing(s, requester, bookId, expected, today);
    CountAppend(s.ledger, r.response.value.record, ActiveByFor(requester.id, bookId));
  }

  /** Borrowing the same book again before returning it is refused. */
  lemma NoSecondBorrowBeforeReturn(s: State, requester: User, bookId: nat, expected: Date, today: Date,
                                   expected': Date, today': Date)
    requires CreateBorrowing(s, requester, bookId, expected, today).response.Ok?
    ensures var t := CreateBorrowing(s, requester, bookId, expected, today).after;
      && CreateBorrowing(t, requester, bookId, expected', today').response.Err?
      && (ValidateFields(t.books, bookId, expected', today').Ok? ==>
            CreateBorrowing(t, requester, bookId, expected', today').response == Err(AlreadyBorrowed))
  {
    var r := CreateBorrowing(s, requester, bookId, expected, today);
    assert r.after.ledger[|s.ledger|] == r.response.value.record;
  }

  /** The same lookup finds the same row after the row was closed. */
  lemma FindOwnedAfterClose(ledger: seq<Borrowing>, requester: User, pk: int, today: Date)
    requires FindOwned(ledger, requester, pk).Some?
    ensures var i := FindOwned(ledger, requester, pk).value;
      FindOwned(ledger[i := Closed(ledger[i], today)], requester, pk) == Some(i)
  {
    var i := FindOwned(ledger, requester, pk).value;
    var closed := ledger[i := Closed(ledger[i], today)];
    var j := FindOwned(closed, requester, pk);
    assert closed[i].id == pk && closed[i].user.id == requester.id;
    assert j.Some? && j.value <= i;
    assert closed[j.value] == ledger[j.value] || j.value == i;
  }

  /** A second return of the same row is refused and changes nothing. */
  lemma SecondReturnIsNoop(s: State, requester: User, pk: int, today: Date, today': Date)
    requires RefsIntact(s)
    requires ReturnBorrowing(s, requester, pk, today).response.Ok?
    ensures var t := ReturnBorrowing(s, requester, pk, today).after;
      RefsIntact(t) && ReturnBorrowing(t, requester, pk, today') == Step(t, Err(AlreadyReturned))
  {
    var t := ReturnBorrowing(s, requester, pk, today).after;
    var i := FindOwned(s.ledger, requester, pk).value;
    FindOwnedAfterClose(s.ledger, requester, pk, today);
    assert forall j :: 0 <= j < |t.ledger| ==> t.ledger[j].book == s.ledger[j].book;
  }

  /** Borrowing a book and returning that borrowing puts the tables' book
      counts back where they were (5 copies, 4 after the borrow, 5 after the
      return). */
  lemma BorrowThenReturnRestoresInventory(s: State, requester: User, bookId: nat,
                                          expected: Date, today: Date, today': Date)
    requires RefsIntact(s)
    requires forall i :: 0 <= i < |s.ledger| ==> s.ledger[i].id < s.nextId
    requires CreateBorrowing(s, requester, bookId, expected, today).response.Ok?
    ensures var t := CreateBorrowing(s, requester, bookId, expected, today).after;
      RefsIntact(t)
      && var u := ReturnBorrowing(t, requester, s.nextId, today');
      u.response.Ok? && u.after.books == s.books
  {
    var r := CreateBorrowing(s, requester, bookId, expected, today);
    var t := r.after;
    var rec := r.response.value.record;
    FindOwnedFresh(s.ledger, rec, requester);
    assert t.ledger[|s.ledger|] == rec;
    var u := ReturnBorrowing(t, requester, s.nextId, today');
    assert u.after.books.Keys == s.books.Keys;
    assert forall k :: k in s.books ==> u.after.books[k] == s.books[k];
  }

  /** A row under a key no stored row has is the one the lookup finds. */
  lemma FindOwnedFresh(ledger: seq<Borrowing>, rec: Borrowing, requester: User)
    requires forall i :: 0 <= i < |ledger| ==> ledger[i].id < rec.id
    requires rec.user.id == requester.id
    ensures FindOwned(ledger + [rec], requester, rec.id) == Some(|ledger|)
  {
    var l := ledger + [rec];
    assert l[|ledger|] == rec;
  }
}
