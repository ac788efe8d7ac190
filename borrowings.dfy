/** The `Borrowing` record of the ledger (borrowing/models.py) and the user
    it belongs to. */
module Borrowings {
  import opened Common
  import opened Dates

  /** The requesting user: primary key, e-mail and the staff flag. */
  datatype User = User(id: nat, email: string, isStaff: bool)

  /** `str(user)`: the user model identifies users by e-mail. */
  function UserText(u: User): (r: string)
    ensures r == u.email
  {
    u.email
  }

  /** One ledger row. `book` is the primary key of the borrowed book;
      `actualReturnDate` is the nullable return date. */
  datatype Borrowing = Borrowing(
    id: nat,
    borrowDate: Date,
    expectedReturnDate: Date,
    actualReturnDate: Option<Date>,
    book: nat,
    user: User,
    isActive: bool)

  /** `Borrowing.objects.create(user=..., book=..., expected_return_date=...)`:
      the creation date is stamped from the clock, not from the input, and
      the defaults make the row active and not yet returned. */
  function NewBorrowing(id: nat, today: Date, expected: Date, book: nat, user: User): (r: Borrowing)
    ensures r.isActive && r.actualReturnDate == None
    ensures r.borrowDate == today
    ensures r.id == id && r.book == book && r.user == user && r.expectedReturnDate == expected
  {
    Borrowing(id, today, expected, None, book, user, true)
  }

  // ---------------------------------------------------------------------
  // Default ordering: `Meta.ordering = ["-is_active", "expected_return_date"]`.

  /** `a` may be listed before `b`: active rows first, then by ascending
      expected return date. */
  predicate ListedBefore(a: Borrowing, b: Borrowing) {
    (a.isActive && !b.isActive)
    || (a.isActive == b.isActive && !Before(b.expectedReturnDate, a.expectedReturnDate))
  }

  lemma ListedBeforeTotalPreorder(a: Borrowing, b: Borrowing, c: Borrowing)
    ensures ListedBefore(a, b) || ListedBefore(b, a)
    ensures ListedBefore(a, b) && ListedBefore(b, c) ==> ListedBefore(a, c)
  {
    BeforeIsStrictTotalOrder(a.expectedReturnDate, b.expectedReturnDate, c.expectedReturnDate);
    BeforeIsStrictTotalOrder(c.expectedReturnDate, b.expectedReturnDate, a.expectedReturnDate);
  }

  lemma ListedBeforeIsTotalPreorder()
    ensures TotalPreorder(ListedBefore)
  {
    forall a, b, c {
      ListedBeforeTotalPreorder(a, b, c);
    }
  }

  predicate InDefaultOrder(s: seq<Borrowing>) {
    Ordered(s, ListedBefore)
  }

  /** The rows in the default listing order; rows that tie keep their
      relative order. */
  function SortByDefault(s: seq<Borrowing>): (r: seq<Borrowing>)
    ensures InDefaultOrder(r)
    ensures multiset(r) == multiset(s)
  {
    ListedBeforeIsTotalPreorder();
    Sort(s, ListedBefore)
  }

  // ---------------------------------------------------------------------
  // `__str__`

  const TextPrefix := "The book '"
  const BorrowedBy := "' was borrowed by "

  /** `str(borrowing)`, given the title of its book: "The book '<title>' was
      borrowed by <user> on <YYYY-MM-DD>." */
  function BorrowingText(b: Borrowing, title: string): (r: string)
    requires ValidDate(b.borrowDate)
    ensures |r| == |TextPrefix| + |title| + |BorrowedBy| + |UserText(b.user)| + 15
    ensures r[..|TextPrefix|] == TextPrefix
    ensures r[|TextPrefix|..|TextPrefix| + |title|] == title
    ensures r[|TextPrefix| + |title|..|TextPrefix| + |title| + |BorrowedBy|] == BorrowedBy
    ensures r[|TextPrefix| + |title| + |BorrowedBy|..|r| - 15] == UserText(b.user)
    ensures r[|r| - 15..|r| - 11] == " on "
    ensures ParseIso(r[|r| - 11..|r| - 1]) == Some(b.borrowDate)
    ensures r[|r| - 1] == '.'
  {
    var date := IsoFormat(b.borrowDate);
    var r := TextPrefix + title + BorrowedBy + UserText(b.user) + " on " + date + ".";
    assert r[|r| - 11..|r| - 1] == date;
    IsoRoundTrip(b.borrowDate);
    r
  }
}
