/** The library's stored state: the book table and the borrowing ledger,
    with the invariants the database and the borrowing rules keep. */
module Ledger {
  import opened Common
  import opened Dates
  import opened Books
  import opened Borrowings

  /** A snapshot of the tables: books by primary key, the ledger rows in
      insertion order, and the next primary key the ledger will hand out. */
  datatype State = State(books: map<nat, Book>, ledger: seq<Borrowing>, nextId: nat)

  /** The result of one request: the state afterwards and the response. */
  datatype Step<+T, +E> = Step(after: State, response: Result<T, E>)

  /** Rows that hold a copy of book `k` out. */
  function ActiveFor(k: nat): Borrowing -> bool {
    (b: Borrowing) => b.isActive && b.book == k
  }

  /** Rows in which user `u` holds a copy of book `k` out. */
  function ActiveByFor(u: nat, k: nat): Borrowing -> bool {
    (b: Borrowing) => b.isActive && b.book == k && b.user.id == u
  }

  /** Number of copies of book `k` currently out. */
  function ActiveCount(ledger: seq<Borrowing>, k: nat): (n: nat)
    ensures n == 0 <==> forall i :: 0 <= i < |ledger| ==> !(ledger[i].isActive && ledger[i].book == k)
  {
    Count(ledger, ActiveFor(k))
  }

  /** Number of copies of book `k` user `u` currently has out. */
  function ActiveCountBy(ledger: seq<Borrowing>, u: nat, k: nat): (n: nat)
    ensures n == 0 <==> forall i :: 0 <= i < |ledger| ==>
      !(ledger[i].isActive && ledger[i].book == k && ledger[i].user.id == u)
  {
    Count(ledger, ActiveByFor(u, k))
  }

  /** Copies on the shelf plus copies out: what borrowing and returning keep. */
  function Holdings(s: State, k: nat): int
    requires k in s.books
  {
    s.books[k].inventory + ActiveCount(s.ledger, k)
  }

  /** Every row points at a stored book (the foreign key, cascade-deleted). */
  predicate RefsIntact(s: State) {
    forall i :: 0 <= i < |s.ledger| ==> s.ledger[i].book in s.books
  }

  /** A row's fields agree with its lifecycle: active exactly while it has no
      return date, dates are real dates, the due date after the borrow date. */
  predicate WellFormedRow(b: Borrowing) {
    && (b.isActive <==> b.actualReturnDate.None?)
    && ValidDate(b.borrowDate)
    && ValidDate(b.expectedReturnDate)
    && Before(b.borrowDate, b.expectedReturnDate)
    && (b.actualReturnDate.Some? ==> ValidDate(b.actualReturnDate.value))
  }

  /** At most one active row per (user, book) pair. */
  predicate OneActivePerPair(ledger: seq<Borrowing>) {
    forall i, j :: 0 <= i < j < |ledger| && ledger[i].isActive && ledger[j].isActive ==>
      ledger[i].book != ledger[j].book || ledger[i].user.id != ledger[j].user.id
  }

  predicate Valid(s: State) {
    && (forall k :: k in s.books ==> ValidBook(s.books[k]))
    && RefsIntact(s)
    && (forall i :: 0 <= i < |s.ledger| ==> WellFormedRow(s.ledger[i]))
    && (forall i :: 0 <= i < |s.ledger| ==> s.ledger[i].id < s.nextId)
    && (forall i, j :: 0 <= i < j < |s.ledger| ==> s.ledger[i].id != s.ledger[j].id)
    && OneActivePerPair(s.ledger)
  }

  /** Under the pair invariant a user holds at most one copy of a book. */
  lemma {:induction false} AtMostOneActive(ledger: seq<Borrowing>, u: nat, k: nat)
    requires OneActivePerPair(ledger)
    ensures ActiveCountBy(ledger, u, k) <= 1
  {
    if ledger != [] {
      var rest := ledger[1..];
      assert OneActivePerPair(rest) by {
        forall i, j | 0 <= i < j < |rest| && rest[i].isActive && rest[j].isActive
          ensures rest[i].book != rest[j].book || rest[i].user.id != rest[j].user.id
        {
          assert rest[i] == ledger[i + 1] && rest[j] == ledger[j + 1];
        }
      }
      AtMostOneActive(rest, u, k);
      if ActiveByFor(u, k)(ledger[0]) {
        forall i | 0 <= i < |rest|
          ensures !(rest[i].isActive && rest[i].book == k && rest[i].user.id == u)
        {
          assert rest[i] == ledger[i + 1];
        }
      }
    }
  }
}
