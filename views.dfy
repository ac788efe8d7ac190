/** The borrowing endpoints (borrowing/views.py, `BorrowingViewSet`): the
    return action and the visibility and filter rules of `get_queryset`. */
module Views {
  import opened Common
  import opened Text
  import opened Dates
  import opened Borrowings
  import opened Ledger

  // ---------------------------------------------------------------------
  // return_borrowing

  datatype ReturnError = NotFound | AlreadyReturned

  const ReturnedText := "You have successfully returned the book."

  /** `get_object_or_404(Borrowing, user=request.user, pk=pk)`: the position
      of the row with key `pk`, provided the requester owns it. */
  function FindOwned(ledger: seq<Borrowing>, requester: User, pk: int): (r: Option<nat>)
    ensures r.Some? ==> r.value < |ledger| && ledger[r.value].id == pk
                        && ledger[r.value].user.id == requester.id
    ensures r.Some? ==> forall i :: 0 <= i < r.value ==>
      !(ledger[i].id == pk && ledger[i].user.id == requester.id)
    ensures r.None? <==> forall i :: 0 <= i < |ledger| ==>
      !(ledger[i].id == pk && ledger[i].user.id == requester.id)
  {
    if ledger == [] then None
    else if ledger[0].id == pk && ledger[0].user.id == requester.id then Some(0)
    else match FindOwned(ledger[1..], requester, pk)
      case None => None
      case Some(i) => Some(i + 1)
  }

  /** A row as the return action leaves it. */
  function Closed(b: Borrowing, today: Date): (r: Borrowing)
    ensures !r.isActive && r.actualReturnDate == Some(today)
    ensures r.(actualReturnDate := b.actualReturnDate, isActive := b.isActive) == b
  {
    b.(actualReturnDate := Some(today), isActive := false)
  }

  /** `return_borrowing`: a row the requester does not own is not found; an
      active row is closed today and its copy goes back on the shelf; a row
      already closed is reported and left alone. */
  function ReturnBorrowing(s: State, requester: User, pk: int, today: Date)
    : (r: Step<string, ReturnError>)
    requires RefsIntact(s)
    ensures r.response.Err? ==> r.after == s
    ensures r.response == Err(NotFound) <==> FindOwned(s.ledger, requester, pk).None?
    ensures r.response == Err(AlreadyReturned) <==>
      FindOwned(s.ledger, requester, pk).Some?
      && !s.ledger[FindOwned(s.ledger, requester, pk).value].isActive
    ensures r.response.Ok? ==>
      var i := FindOwned(s.ledger, requester, pk).value;
      var k := s.ledger[i].book;
      && s.ledger[i].isActive
      && r.response.value == ReturnedText
      && r.after.ledger == s.ledger[i := Closed(s.ledger[i], today)]
      && r.after.books.Keys == s.books.Keys
      && r.after.books[k] == s.books[k].(inventory := s.books[k].inventory + 1)
      && (forall k' :: k' in s.books && k' != k ==> r.after.books[k'] == s.books[k'])
      && r.after.nextId == s.nextId
  {
    match FindOwned(s.ledger, requester, pk)
    case None => Step(s, Err(NotFound))
    case Some(i) =>
      var b := s.ledger[i];
      if b.isActive then
        var book := s.books[b.book];
        var after := State(s.books[b.book := book.(inventory := book.inventory + 1)],
                           s.ledger[i := Closed(b, today)], s.nextId);
        Step(after, Ok(ReturnedText))
      else Step(s, Err(AlreadyReturned))
  }

  // ---------------------------------------------------------------------
  // get_queryset

  datatype Action = List | Retrieve | OtherAction

  /** The list query parameters. `userId` is `None` when `user_id` is absent
      or empty; `isActive` is the raw `is_active` text, `None` when absent. */
  datatype ListParams = ListParams(userId: Option<int>, isActive: Option<string>)

  /** A filter value the boolean field cannot read. */
  datatype QueryError = InvalidIsActive(value: string)

  /** `is_active.capitalize()` read as a boolean field value: "True" and "1"
      mean true, "False" and "0" mean false, anything else is refused. */
  function ParseIsActive(v: string): (r: Result<bool, QueryError>)
    ensures r.Ok? && r.value <==> LowerAll(v) == "true" || v == "1"
    ensures r.Ok? && !r.value <==> LowerAll(v) == "false" || v == "0"
  {
    CapitalizedWords(v);
    var c := Capitalize(v);
    if c == "True" || c == "1" then Ok(true)
    else if c == "False" || c == "0" then Ok(false)
    else Err(InvalidIsActive(v))
  }

  /** Which texts `capitalize()` turns into the words the boolean field reads. */
  lemma CapitalizedWords(v: string)
    ensures Capitalize(v) == "True" <==> LowerAll(v) == "true"
    ensures Capitalize(v) == "False" <==> LowerAll(v) == "false"
    ensures Capitalize(v) == "1" <==> v == "1"
    ensures Capitalize(v) == "0" <==> v == "0"
  {
    CapitalizeIsWord(v, "true");
    CapitalizeIsWord(v, "false");
    assert [Upper('t')] + "rue" == "True";
    assert [Upper('f')] + "alse" == "False";
    if |v| == 1 {
      assert Capitalize(v) == [Upper(v[0])];
    }
  }

  /** The `is_active` filter in force, if any: an absent or empty parameter
      filters nothing. */
  function ActiveFilter(action: Action, params: ListParams): (r: Result<Option<bool>, QueryError>)
    ensures r == Ok(None) <==> action != List || params.isActive.None? || params.isActive.value == ""
    ensures r.Ok? && r.value.Some? ==> ParseIsActive(params.isActive.value) == Ok(r.value.value)
    ensures r.Err? ==> ParseIsActive(params.isActive.value).Err?
  {
    if action != List || params.isActive.None? || params.isActive.value == "" then Ok(None)
    else match ParseIsActive(params.isActive.value)
      case Ok(flag) => Ok(Some(flag))
      case Err(e) => Err(e)
  }

  /** Whether a row survives every filter `get_queryset` applies. */
  predicate Admitted(requester: User, action: Action, params: ListParams, flag: Option<bool>, b: Borrowing) {
    && (requester.isStaff || b.user.id == requester.id)
    && (action == List && params.userId.Some? ==> b.user.id == params.userId.value)
    && (flag.Some? ==> b.isActive == flag.value)
  }

  /** The chain of `filter` calls of `get_queryset`, in ledger order. */
  function Narrowed(ledger: seq<Borrowing>, requester: User, action: Action, params: ListParams,
                    flag: Option<bool>): (q: seq<Borrowing>)
    ensures forall b :: b in q <==> b in ledger && Admitted(requester, action, params, flag, b)
    ensures forall b ::
      multiset(q)[b] == if Admitted(requester, action, params, flag, b) then multiset(ledger)[b] else 0
  {
    var q1 := if requester.isStaff then ledger
              else Filter(ledger, (b: Borrowing) => b.user.id == requester.id);
    var q2 := if action == List && params.userId.Some?
              then Filter(q1, (b: Borrowing) => b.user.id == params.userId.value)
              else q1;
    if flag.Some? then Filter(q2, (b: Borrowing) => b.isActive == flag.value) else q2
  }

  /** `get_queryset`, evaluated: non-staff requesters are confined to their
      own rows; on `list`, `user_id` and `is_active` narrow the rows further;
      the rows come back in the default ordering. */
  function GetQueryset(ledger: seq<Borrowing>, requester: User, action: Action, params: ListParams)
    : (r: Result<seq<Borrowing>, QueryError>)
    ensures r.Err? <==> ActiveFilter(action, params).Err?
    ensures r.Ok? ==> InDefaultOrder(r.value)
    ensures r.Ok? ==> forall b :: b in r.value <==>
      b in ledger && Admitted(requester, action, params, ActiveFilter(action, params).value, b)
    ensures r.Ok? ==>
      forall b :: multiset(r.value)[b] ==
        if Admitted(requester, action, params, ActiveFilter(action, params).value, b)
        then multiset(ledger)[b] else 0
  {
    match ActiveFilter(action, params)
    case Err(e) => Err(e)
    case Ok(flag) =>
      var q := Narrowed(ledger, requester, action, params, flag);
      var r := SortByDefault(q);
      assert forall b :: b in r <==> b in multiset(q);
      Ok(r)
  }

  /** A requester who is not staff only ever sees their own rows. */
  lemma NonStaffSeesOnlyOwn(ledger: seq<Borrowing>, requester: User, action: Action, params: ListParams)
    requires !requester.isStaff
    requires GetQueryset(ledger, requester, action, params).Ok?
    ensures forall b :: b in GetQueryset(ledger, requester, action, params).value ==>
      b.user.id == requester.id
  {
  }

  /** Staff see every row when no filter is in force, each as often as it is
      stored. */
  lemma StaffSeesAll(ledger: seq<Borrowing>, requester: User, action: Action)
    requires requester.isStaff
    ensures GetQueryset(ledger, requester, action, ListParams(None, None)).Ok?
    ensures multiset(GetQueryset(ledger, requester, action, ListParams(None, None)).value)
         == multiset(ledger)
  {
  }

  /** A non-staff requester asking for another user's rows gets none. */
  lemma ForeignUserIdYieldsNothing(
    ledger: seq<Borrowing>, requester: User, other: int, isActive: Option<string>)
    requires !requester.isStaff && other != requester.id
    requires GetQueryset(ledger, requester, List, ListParams(Some(other), isActive)).Ok?
    ensures GetQueryset(ledger, requester, List, ListParams(Some(other), isActive)).value == []
  {
  }

  /** "true"/"false" in any letter case select active/closed rows. */
  lemma IsActiveFilterSelects(ledger: seq<Borrowing>, requester: User, v: string, b: Borrowing)
    requires LowerAll(v) == "true" || LowerAll(v) == "false"
    ensures GetQueryset(ledger, requester, List, ListParams(None, Some(v))).Ok?
    ensures b in GetQueryset(ledger, requester, List, ListParams(None, Some(v))).value <==>
      b in ledger && (requester.isStaff || b.user.id == requester.id)
      && b.isActive == (LowerAll(v) == "true")
  {
    assert v != "";
  }
}
