# Library service: the borrowing lifecycle in Dafny

This project models the core of a Django library-service backend: the book
table and the borrowing ledger, the two requests that change them (borrowing
a book, returning it), the visibility and filter rules for listing
borrowings, and the daily report of overdue borrowings. Each request is one
atomic step over the stored tables.

- `common.dfy` (`Common`): `Option`, `Result`, an order-keeping `Filter`
  (a `QuerySet.filter`), a stable `Sort` under a total preorder (a model's
  `Meta.ordering`) and `Count`.
- `text.dfy` (`Text`): `str.join`, zero-padded decimals, ASCII
  `str.capitalize`/`str.lower`, counting characters.
- `dates.dfy` (`Dates`): `datetime.date` values, their chronological order
  and their `YYYY-MM-DD` text, with a proved parse-back.
- `books.dfy` (`Books`): the `Book` record and its title ordering
  (book/models.py).
- `borrowings.dfy` (`Borrowings`): the `Borrowing` record, its default
  ordering and its text (borrowing/models.py).
- `ledger.dfy` (`Ledger`): the stored tables as a value (`State`), the
  table invariants, and the counts of copies out.
- `serializers.dfy` (`Serializers`): field validation and `create`
  (borrowing/serializers.py), as a function from state to state.
- `views.dfy` (`Views`): `return_borrowing` and `get_queryset`
  (borrowing/views.py).
- `tasks.dfy` (`Tasks`): the overdue report (notification/tasks.py). The
  grouping is a method with loops. It is proved against a reference
  grouping.
- `lifecycle.dfy` (`Lifecycle`): lemmas about borrowing and returning
  together.
- `service.dfy` (`Service`): the class `Library` holding the tables as
  fields. Its methods update them in place. Each method's contract ties the
  new tables to the step functions above.

"Today" is a parameter everywhere. A user is an id, an e-mail and the staff
flag. `daily_fee` is an integer number of cents. Notifications are appended
to the `outbox` field of `Library` rather than sent.

## Model

| member | source | states |
|---|---|---|
| Books.CoverCodeRoundTrip | book/models.py:6-8 | the two cover choices are stored as "HARD" and "SOFT", and reading a stored value back gives the same choice |
| Books.CoverFromCode | book/models.py:12-16 | only the two choice values are accepted as a cover |
| Books.MakeBook | book/models.py:10-21 | a book is accepted exactly when title and author are non-blank and at most 255 characters, inventory is between 0 and 2147483647 and the fee fits 6 digits with 2 decimals (at most 999999 cents in magnitude); a missing cover defaults to HARD |
| Books.TextLeqTotalPreorder | book/models.py:23-24 | code-point order on titles compares any two titles, chains, and only ties equal titles |
| Books.TitleLeqIsTotalPreorder | book/models.py:23-24 | ordering books by title is a total preorder, so the title ordering is a valid listing order |
| Books.Catalogue | book/models.py:23-24 | the stored books are listed in title order, each as often as it is stored |
| Dates.IsoRoundTrip | borrowing/models.py:29 | the `YYYY-MM-DD` text of a date reads back as that date |
| Dates.ParseThenFormat | borrowing/models.py:29 | a date text that reads back is the text of the date it reads as, so each date has one text |
| Dates.IsoFormatInjective | borrowing/models.py:29 | two dates have the same text exactly when they are the same date |
| Dates.BeforeIsStrictTotalOrder | borrowing/models.py:9 | date comparison is a strict total order |
| Borrowings.NewBorrowing | borrowing/models.py:8-21 | a new row is active, has no return date, is dated today and carries the given owner, book and due date |
| Borrowings.ListedBeforeTotalPreorder | borrowing/models.py:24 | the default order (active rows first, then by due date) compares any two rows and chains |
| Borrowings.ListedBeforeIsTotalPreorder | borrowing/models.py:24 | the default order is a total preorder, so it is a valid listing order |
| Borrowings.SortByDefault | borrowing/models.py:24 | the listed rows are in default order and are a permutation of the selected rows |
| Borrowings.BorrowingText | borrowing/models.py:26-30 | the text of a row is "The book '", the title, "' was borrowed by ", the user's text, " on ", the borrow date as `YYYY-MM-DD` and a full stop, and that date reads back from the text |
| Ledger.AtMostOneActive | borrowing/serializers.py:45-51 | under the pair invariant a user holds at most one active row for a book |
| Serializers.ValidateBook | borrowing/serializers.py:23-29 | a book passes exactly when its inventory is not 0, and it passes unchanged |
| Serializers.ValidateExpectedReturnDate | borrowing/serializers.py:31-37 | a due date passes exactly when it is strictly after today, and it passes unchanged |
| Serializers.ValidateFields | borrowing/serializers.py:16-37 | the fields pass exactly when the book exists, has a copy and the due date is after today; otherwise every failing check is reported, and only those |
| Serializers.HasActiveBorrowing | borrowing/serializers.py:45-48 | the requester has an active row for the book exactly when their count of copies of it out is positive |
| Serializers.BorrowedMessage | borrowing/serializers.py:60 | the notification is the user's text, then " borrowed the book '", then the title, then "'." |
| Serializers.CreateBorrowing | borrowing/serializers.py:39-62 | a borrow succeeds exactly when the fields pass and the requester holds no active row for the book; a refused borrow changes nothing and reports exactly the field errors of the validation when the fields fail, or "already borrowed" when they pass; a successful one takes one copy of that book only, appends one active row owned by the requester with the given book and due date, dated today, under a fresh key, and produces the notification |
| Views.FindOwned | borrowing/views.py:68-72 | the lookup finds the first row with that key owned by the requester, and finds nothing exactly when no such row exists |
| Views.Closed | borrowing/views.py:75-77 | closing a row stamps today's return date, clears the active flag and changes nothing else |
| Views.ReturnBorrowing | borrowing/views.py:66-91 | a row the requester does not own is not found; an already closed row is reported; both change nothing; an active row is closed and its book alone gets one copy back |
| Views.CapitalizedWords | borrowing/views.py:44 | after `capitalize()`, the parameter reads "True"/"False" exactly when it is "true"/"false" in any case, and "1"/"0" only when it is that digit |
| Views.ActiveFilter | borrowing/views.py:36-44 | the `is_active` filter applies only on `list` with a non-empty parameter, and then is the parameter's reading, or its error |
| Views.ParseIsActive | borrowing/views.py:43-44 | the `is_active` parameter means true exactly for "true" in any case or "1", false exactly for "false" in any case or "0" |
| Views.Narrowed | borrowing/views.py:24-46 | a row survives the filters exactly when the requester is staff or owns it, on `list` matches `user_id` if given, and matches the `is_active` flag if given; a surviving row appears as often as it is stored, any other not at all |
| Views.GetQueryset | borrowing/views.py:24-46 | the query fails only for an unreadable `is_active`; otherwise it returns exactly the surviving rows, each as often as it is stored, in default order |
| Views.NonStaffSeesOnlyOwn | borrowing/views.py:27-28 | a requester who is not staff only sees their own rows |
| Views.StaffSeesAll | borrowing/views.py:27-28 | staff with no filter see every row, each as often as it is stored |
| Views.ForeignUserIdYieldsNothing | borrowing/views.py:36-41 | a non-staff requester filtering by another user's id gets no rows |
| Views.IsActiveFilterSelects | borrowing/views.py:38-44 | "true"/"false" in any case keep exactly the visible rows with that flag |
| Tasks.OverdueRows | notification/tasks.py:16-19 | a row is reported exactly when it is active and its due date is strictly before today, as often as it is stored; the rows come in the default ordering, so by ascending due date |
| Tasks.BorrowersByEarliestDue | notification/tasks.py:16-22 | over rows in ascending due-date order, which is how `Tasks.OverdueRows` returns them, a borrower listed before another has a row due no later than every row of the other |
| Tasks.Emails | notification/tasks.py:22 | the borrowers are the distinct e-mails of the overdue rows, each once |
| Tasks.TitlesOf | notification/tasks.py:24-25 | a borrower's list is empty exactly when no overdue row is theirs |
| Tasks.FirstIndex | notification/tasks.py:22 | locates the first overdue row of a borrower |
| Tasks.EmailsInFirstSeenOrder | notification/tasks.py:22 | borrowers are listed in the order of their first overdue row in the queryset |
| Tasks.EveryOverdueTitleListedOnce | notification/tasks.py:24-25 | the lists hold as many titles as there are overdue rows, each row's title under its own borrower |
| Tasks.CollectBorrowers | notification/tasks.py:22 | the dictionary comprehension gives every borrower an empty list, with the borrowers in first-seen order |
| Tasks.AppendTitles | notification/tasks.py:24-25 | after the loop each borrower's list holds the titles of their overdue rows in scan order |
| Tasks.Items | notification/tasks.py:27-29 | the dictionary's items are the reference grouping |
| Tasks.GroupByEmail | notification/tasks.py:21-29 | the grouping the task performs equals the reference grouping |
| Tasks.Line | notification/tasks.py:28 | a line is a line break, the borrower's e-mail, " still has not returned the books: ", their titles joined by ", ", and a full stop |
| Tasks.Render | notification/tasks.py:27-31 | the joined lines are empty exactly when there are no borrowers, and otherwise start with a line break and end with a full stop |
| Tasks.ReportText | notification/tasks.py:21-35 | with no overdue entries the message is "No borrowings are overdue today!"; otherwise it starts with a line break and ends with a full stop |
| Tasks.OneLinePerBorrower | notification/tasks.py:27-31 | with no line breaks inside e-mails and titles, the message holds one line per distinct borrower |
| Tasks.NoneOverdueExactlyWhenEmpty | notification/tasks.py:21-35 | the "No borrowings are overdue today!" text is sent exactly when nothing is overdue |
| Tasks.OverdueMessage | notification/tasks.py:15-35 | the day's message is the none-overdue text exactly when no stored row is active and past its due date |
| Tasks.SingleOverdueRow | notification/tasks.py:27-31 | one overdue row gives the single line "\n<email> still has not returned the books: <title>." |
| Lifecycle.BorrowPreservesValid | borrowing/serializers.py:39-59 | borrowing keeps the table invariants, including non-negative inventory and at most one active row per user and book |
| Lifecycle.ReturnPreservesValid | borrowing/views.py:74-81 | returning keeps the table invariants |
| Lifecycle.BorrowConservesHoldings | borrowing/serializers.py:53-59 | for every book, copies on the shelf plus active rows stay the same across a borrow |
| Lifecycle.ReturnConservesHoldings | borrowing/views.py:75-81 | for every book, copies on the shelf plus active rows stay the same across a return |
| Lifecycle.OneActiveAfterBorrow | borrowing/serializers.py:45-59 | after a successful borrow the requester holds exactly one active row for that book |
| Lifecycle.NoSecondBorrowBeforeReturn | borrowing/serializers.py:45-51 | borrowing the same book again before returning it is refused, with "already borrowed" whenever the second request's fields pass |
| Lifecycle.FindOwnedAfterClose | borrowing/views.py:68-77 | closing a row does not change which row the lookup finds |
| Lifecycle.SecondReturnIsNoop | borrowing/views.py:74-91 | returning the same row a second time is refused and changes nothing |
| Lifecycle.BorrowThenReturnRestoresInventory | borrowing/views.py:80 | borrowing a book and returning that row restores every book's inventory (5, then 4, then 5) |
| Service.Library.constructor | book/models.py:10-21 | tables holding a catalogue of books that meet the field constraints, and no borrowings, satisfy the table invariants |
| Service.Library.Borrow | borrowing/serializers.py:39-62 | the in-place borrow leaves the tables as the borrow step says, keeps the invariants, and sends the notification only on success |
| Service.Library.ReturnBorrowing | borrowing/views.py:66-91 | the in-place return leaves the tables as the return step says and keeps the invariants |
| Service.Library.SendOverdueReport | notification/tasks.py:15-35 | one run sends exactly one message, the report text, and does not touch the tables |

## Where the code decides

- The checks of a borrow are not run one after another. The serializer
  validates `expected_return_date` and then `book`, in the order of its
  declared fields. It reports every failing field together. The duplicate
  check runs only after the fields pass (`Serializers.ValidateFields`,
  `Serializers.CreateBorrowing`).
- The inventory decrement happens in `create` and nowhere else.
- The overdue report walks its queryset in the default ordering of
  `Borrowing` (borrowing/models.py:24), not in the order rows were stored.
  Borrowers therefore appear by their earliest-due overdue row, and each
  borrower's titles by due date (`Tasks.OverdueRows`,
  `Tasks.BorrowersByEarliestDue`).
- A non-staff requester's `user_id` filter is not ignored. It narrows their
  own rows, so another user's id gives an empty list.

## Left out

- Sending notifications (notification/services.py) is not modelled. It is an
  outbound HTTP call. `async_task` queuing is left out too. A message handed
  to the dispatcher is an entry appended to `Library.outbox`.
- The chat-bot polling loop (notification/telegram_server.py) is not
  modelled. It is I/O with no logic of its own.
- The scheduler registration (user/signals.py) is not modelled. It is a
  thin wrapper over a library that is not shown.
- Concurrency is not modelled. `transaction.atomic` and two simultaneous
  borrows of the last copy are left to the database. Each request is one
  atomic step.
- The catalogue endpoints (book/views.py), their permissions and image
  upload are not modelled. Neither are pagination, response codes, the
  OpenAPI decorators, routing and authentication. Only the field
  constraints of `Book` (`Books.MakeBook`) and its title ordering
  (`Books.Catalogue`) are modelled.
- `select_related` and the serializer classes chosen per action are left
  out. They change which fields are rendered, not which rows are returned.
- Views.GetQueryset: `user_id` is taken as an already-parsed integer. The
  string-to-integer conversion of the query parameter is not modelled.
- Views.FindOwned: the URL key is taken as an integer. A non-numeric key
  also gives not-found in the framework, and that is not modelled.
- Views.ParseIsActive: case mapping covers ASCII letters only.
- Borrowings.SortByDefault: rows that tie in the default order keep ledger
  order. The database leaves that order unspecified.
- Tasks.OverdueRows: overdue rows due on the same day keep ledger order, so
  the report's order among them is one of the orders the database may use.
- Books.Catalogue: titles compare by code point, which is the order of
  SQLite's default collation. A database that collates by locale lists
  titles in another order.
- Books.MakeBook: the inventory ceiling is the one used on SQLite and
  PostgreSQL. On MySQL the ceiling is 4294967295, and that is not modelled.
- Books.ValidBook: the stored-book invariant does not carry the inventory
  ceiling. The ceiling is checked when a book is submitted, and `save()`
  on return does not run validators.
- `Book.__str__` (book/models.py:26-27) returns the title. Nothing in the
  modelled core calls it, so the model reads the title field directly.
- Updating and deleting a borrowing are not modelled. `BorrowingViewSet`
  is a `ModelViewSet` (borrowing/views.py:19), so as written it also routes
  PUT, PATCH and DELETE on a single borrowing. An update could change the
  book without touching inventory. A delete could drop an active row
  without putting the copy back. The tests expect both to be refused with
  405 (borrowing/tests/test_borrowing_api.py:118-140). The invariant and
  conservation lemmas are claimed for borrow and return only.
- Borrowings.UserText: the user model (user/models.py) is not part of this
  model. A user's text form is taken to be their e-mail.
- Dates: only the clock's current date is used, as the parameter `today`.
  Time zones are not modelled. The source reads two clocks. Validation,
  return stamping and the overdue task use `timezone.now().date()`, the
  UTC date when time-zone support is on. `borrow_date` is stamped by
  `auto_now_add` with the local date in the configured time zone. Under a
  non-UTC zone the two can differ by a day. The model uses one `today`
  for both. So `Ledger.WellFormedRow`'s "borrow date before due date" holds
  in the model but may fail in the source near midnight.
- Deleting a book, which cascades to its borrowings, is not modelled.
  `Ledger.RefsIntact` records its consequence: every row points at a stored
  book.
