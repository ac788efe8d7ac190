/** The daily overdue report (notification/tasks.py,
    `send_borrowings_list_notification`). */
module Tasks {
  import opened Common
  import opened Text
  import opened Dates
  import opened Books
  import opened Borrowings
  import opened Ledger

  /** A row is overdue while it is active and its due date has passed; a row
      due today is not overdue yet. */
  predicate IsOverdue(b: Borrowing, today: Date) {
    b.isActive && Before(b.expectedReturnDate, today)
  }

  /** `Borrowing.objects.filter(is_active=True, expected_return_date__lt=today)`:
      every overdue row, as often as it is stored, in the model's default
      ordering, which for these all-active rows is by ascending due date. */
  function OverdueRows(ledger: seq<Borrowing>, today: Date): (r: seq<Borrowing>)
    ensures forall b ::
      multiset(r)[b] == if IsOverdue(b, today) then multiset(ledger)[b] else 0
    ensures forall b :: b in r <==> b in ledger && b.isActive && Before(b.expectedReturnDate, today)
    ensures InDefaultOrder(r)
    ensures forall i, j :: 0 <= i < j < |r| ==> !Before(r[j].expectedReturnDate, r[i].expectedReturnDate)
  {
    var q := Filter(ledger, (b: Borrowing) => IsOverdue(b, today));
    var r := SortByDefault(q);
    assert forall b :: b in r <==> b in multiset(q);
    assert forall i :: 0 <= i < |r| ==> r[i] in r;
    r
  }

  /** What the report uses of a row: the borrower's e-mail and the title. */
  datatype Entry = Entry(email: string, title: string)

  function Entries(rows: seq<Borrowing>, books: map<nat, Book>): (r: seq<Entry>)
    requires forall i :: 0 <= i < |rows| ==> rows[i].book in books
    ensures |r| == |rows|
    ensures forall i :: 0 <= i < |rows| ==>
      r[i] == Entry(rows[i].user.email, books[rows[i].book].title)
  {
    seq(|rows|, i requires 0 <= i < |rows| => Entry(rows[i].user.email, books[rows[i].book].title))
  }

  // ---------------------------------------------------------------------
  // Reference definition of the grouping.

  /** Some entry of `s` belongs to borrower `e`. */
  predicate Mentions(s: seq<Entry>, e: string) {
    exists i :: 0 <= i < |s| && s[i].email == e
  }

  /** The distinct e-mails of `s`, in the order each first appears. */
  function Emails(s: seq<Entry>): (es: seq<string>)
    ensures forall e :: e in es <==> Mentions(s, e)
    ensures forall j :: 0 <= j < |es| ==> Mentions(s, es[j])
    ensures forall j1, j2 :: 0 <= j1 < j2 < |es| ==> es[j1] != es[j2]
  {
    if s == [] then []
    else
      var p := s[..|s| - 1];
      var es := Emails(p);
      assert forall i :: 0 <= i < |p| ==> s[i] == p[i];
      if s[|s| - 1].email in es then es else es + [s[|s| - 1].email]
  }

  /** The titles of the entries of borrower `e`, in scan order. */
  function TitlesOf(s: seq<Entry>, e: string): (ts: seq<string>)
    ensures ts == [] <==> forall i :: 0 <= i < |s| ==> s[i].email != e
  {
    if s == [] then []
    else
      var p := s[..|s| - 1];
      assert forall i :: 0 <= i < |p| ==> s[i] == p[i];
      TitlesOf(p, e) + (if s[|s| - 1].email == e then [s[|s| - 1].title] else [])
  }

  /** Scanning one more entry adds its title to its own borrower only. */
  lemma TitlesOfSnoc(s: seq<Entry>, x: Entry, e: string)
    ensures TitlesOf(s + [x], e) == TitlesOf(s, e) + (if x.email == e then [x.title] else [])
  {
    assert (s + [x])[..|s|] == s;
  }

  /** One borrower and the titles they have not returned. */
  datatype Group = Group(email: string, titles: seq<string>)

  /** The `borrowers` dictionary, as its items in insertion order. */
  function Grouped(s: seq<Entry>): (gs: seq<Group>)
    ensures |gs| == |Emails(s)|
    ensures forall j :: 0 <= j < |gs| ==> gs[j].email == Emails(s)[j] && gs[j].titles == TitlesOf(s, gs[j].email)
  {
    var es := Emails(s);
    seq(|es|, j requires 0 <= j < |es| => Group(es[j], TitlesOf(s, es[j])))
  }

  /** Position of the first entry of borrower `e`. */
  function FirstIndex(s: seq<Entry>, e: string): (i: nat)
    requires Mentions(s, e)
    ensures i < |s| && s[i].email == e
    ensures forall k :: 0 <= k < i ==> s[k].email != e
  {
    if s[0].email == e then 0
    else
      assert Mentions(s[1..], e) by {
        var i :| 0 <= i < |s| && s[i].email == e;
        assert s[1..][i - 1] == s[i];
      }
      1 + FirstIndex(s[1..], e)
  }

  /** Borrowers are listed in the order of their first overdue row. */
  lemma {:induction false} EmailsInFirstSeenOrder(s: seq<Entry>, j1: nat, j2: nat)
    requires j1 < j2 < |Emails(s)|
    ensures FirstIndex(s, Emails(s)[j1]) < FirstIndex(s, Emails(s)[j2])
  {
    var p := s[..|s| - 1];
    var x := s[|s| - 1];
    assert forall i :: 0 <= i < |p| ==> s[i] == p[i];
    var es := Emails(s);
    var e1, e2 := es[j1], es[j2];
    assert e1 in es && e2 in es;
    if x.email in Emails(p) {
      assert es == Emails(p);
      EmailsInFirstSeenOrder(p, j1, j2);
      FirstIndexOfPrefix(p, x, e1);
      FirstIndexOfPrefix(p, x, e2);
    } else {
      assert es == Emails(p) + [x.email];
      assert e1 in Emails(p);
      FirstIndexOfPrefix(p, x, e1);
      if j2 < |Emails(p)| {
        EmailsInFirstSeenOrder(p, j1, j2);
        FirstIndexOfPrefix(p, x, e2);
      } else {
        assert e2 == x.email;
        assert forall i :: 0 <= i < |p| ==> s[i].email != e2;
      }
    }
  }

  lemma FirstIndexOfPrefix(p: seq<Entry>, x: Entry, e: string)
    requires Mentions(p, e)
    ensures Mentions(p + [x], e)
    ensures FirstIndex(p + [x], e) == FirstIndex(p, e)
  {
    var w :| 0 <= w < |p| && p[w].email == e;
    assert (p + [x])[w] == p[w];
    var a, b := FirstIndex(p + [x], e), FirstIndex(p, e);
    assert (p + [x])[b] == p[b];
    assert a <= b;
    assert p[a] == (p + [x])[a];
  }

  // ---------------------------------------------------------------------
  // Every overdue title is listed exactly once.

  /** Number of titles listed under the e-mails `es`. */
  function SumTitles(es: seq<string>, s: seq<Entry>): nat {
    if es == [] then 0 else SumTitles(es[..|es| - 1], s) + |TitlesOf(s, es[|es| - 1])|
  }

  /** Number of titles listed in the groups. */
  function TitleTotal(gs: seq<Group>): nat {
    if gs == [] then 0 else TitleTotal(gs[..|gs| - 1]) + |gs[|gs| - 1].titles|
  }

  lemma {:induction false} SumTitlesAppend(es: seq<string>, p: seq<Entry>, x: Entry)
    requires forall j1, j2 :: 0 <= j1 < j2 < |es| ==> es[j1] != es[j2]
    ensures SumTitles(es, p + [x]) == SumTitles(es, p) + (if x.email in es then 1 else 0)
  {
    if es != [] {
      var init := es[..|es| - 1];
      var last := es[|es| - 1];
      assert (p + [x])[..|p|] == p;
      SumTitlesAppend(init, p, x);
      assert x.email in es <==> x.email in init || x.email == last;
      assert x.email == last ==> x.email !in init;
    }
  }

  lemma {:induction false} SumTitlesOfEmails(s: seq<Entry>)
    ensures SumTitles(Emails(s), s) == |s|
  {
    if s != [] {
      var p := s[..|s| - 1];
      var x := s[|s| - 1];
      assert s == p + [x];
      SumTitlesOfEmails(p);
      SumTitlesAppend(Emails(p), p, x);
      if x.email !in Emails(p) {
        var es := Emails(p) + [x.email];
        assert es[..|es| - 1] == Emails(p);
        assert TitlesOf(p, x.email) == [];
        assert (p + [x])[..|p|] == p;
      }
    }
  }

  /** Groups that pair each e-mail with its titles list as many titles as
      the e-mails have. */
  lemma {:induction false} TitleTotalOfPairs(gs: seq<Group>, es: seq<string>, s: seq<Entry>)
    requires |gs| == |es|
    requires forall j :: 0 <= j < |gs| ==> gs[j].titles == TitlesOf(s, es[j])
    ensures TitleTotal(gs) == SumTitles(es, s)
  {
    if gs != [] {
      var n := |gs| - 1;
      TitleTotalOfPairs(gs[..n], es[..n], s);
    }
  }

  /** The report lists as many titles as there are overdue rows: each row's
      title once, under its own borrower. */
  lemma EveryOverdueTitleListedOnce(s: seq<Entry>)
    ensures TitleTotal(Grouped(s)) == |s|
  {
    TitleTotalOfPairs(Grouped(s), Emails(s), s);
    SumTitlesOfEmails(s);
  }

  // ---------------------------------------------------------------------
  // The grouping as the task performs it.

  /** `borrowers = {email: [] for ...}`: one empty list per borrower, with
      the borrowers kept in insertion order. */
  method CollectBorrowers(entries: seq<Entry>)
    returns (emails: seq<string>, borrowers: map<string, seq<string>>)
    ensures emails == Emails(entries)
    ensures forall e :: e in borrowers <==> e in emails
    ensures forall e :: e in borrowers ==> borrowers[e] == []
  {
    emails, borrowers := [], map[];
    var i := 0;
    while i < |entries|
      invariant 0 <= i <= |entries|
      invariant emails == Emails(entries[..i])
      invariant forall e :: e in borrowers <==> e in emails
      invariant forall e :: e in borrowers ==> borrowers[e] == []
    {
      assert entries[..i + 1][..i] == entries[..i];
      var e := entries[i].email;
      if e !in borrowers {
        emails := emails + [e];
        borrowers := borrowers[e := []];
      }
      i := i + 1;
    }
    assert entries[..i] == entries;
  }

  /** The loop appending each title to its borrower's list. */
  method AppendTitles(entries: seq<Entry>, emails: seq<string>, borrowers: map<string, seq<string>>)
    returns (filled: map<string, seq<string>>)
    requires emails == Emails(entries)
    requires forall e :: e in borrowers <==> e in emails
    requires forall e :: e in borrowers ==> borrowers[e] == []
    ensures forall e :: e in filled <==> e in emails
    ensures forall e :: e in filled ==> filled[e] == TitlesOf(entries, e)
  {
    filled := borrowers;
    var i := 0;
    while i < |entries|
      invariant 0 <= i <= |entries|
      invariant forall e :: e in filled <==> e in emails
      invariant forall e :: e in filled ==> filled[e] == TitlesOf(entries[..i], e)
    {
      var entry := entries[i];
      assert entries[..i + 1] == entries[..i] + [entry];
      forall e ensures TitlesOf(entries[..i + 1], e)
        == TitlesOf(entries[..i], e) + (if entry.email == e then [entry.title] else [])
      {
        TitlesOfSnoc(entries[..i], entry, e);
      }
      assert Mentions(entries, entry.email);
      filled := filled[entry.email := filled[entry.email] + [entry.title]];
      i := i + 1;
    }
    assert entries[..i] == entries;
  }

  /** `borrowers.items()`: each borrower, in insertion order, with their list. */
  method Items(entries: seq<Entry>, emails: seq<string>, borrowers: map<string, seq<string>>)
    returns (groups: seq<Group>)
    requires emails == Emails(entries)
    requires forall e :: e in borrowers <==> e in emails
    requires forall e :: e in borrowers ==> borrowers[e] == TitlesOf(entries, e)
    ensures groups == Grouped(entries)
  {
    ghost var expected := Grouped(entries);
    groups := [];
    var j := 0;
    while j < |emails|
      invariant 0 <= j <= |emails|
      invariant groups == expected[..j]
    {
      assert emails[j] in emails;
      assert expected[j] == Group(emails[j], borrowers[emails[j]]);
      assert expected[..j + 1] == expected[..j] + [expected[j]];
      groups := groups + [Group(emails[j], borrowers[emails[j]])];
      j := j + 1;
    }
    assert expected[..j] == expected;
  }

  /** The grouping the task performs: the borrowers in order of their first
      overdue row, each with the titles of their overdue rows in scan order. */
  method GroupByEmail(entries: seq<Entry>) returns (groups: seq<Group>)
    ensures groups == Grouped(entries)
  {
    var emails, borrowers := CollectBorrowers(entries);
    borrowers := AppendTitles(entries, emails, borrowers);
    groups := Items(entries, emails, borrowers);
  }

  // ---------------------------------------------------------------------
  // The message.

  const NoneOverdueText := "No borrowings are overdue today!"
  const LineMiddle := " still has not returned the books: "

  /** One borrower's line: "\n<email> still has not returned the books: <titles>." */
  function Line(g: Group): (r: string)
    ensures |r| == |g.email| + |LineMiddle| + |Join(g.titles, ", ")| + 2
    ensures r[0] == '\n' && r[|r| - 1] == '.'
    ensures r[1..1 + |g.email|] == g.email
    ensures r[1 + |g.email|..1 + |g.email| + |LineMiddle|] == LineMiddle
    ensures r[1 + |g.email| + |LineMiddle|..|r| - 1] == Join(g.titles, ", ")
  {
    "\n" + g.email + LineMiddle + Join(g.titles, ", ") + "."
  }

  /** `"".join(lines)` */
  function Render(gs: seq<Group>): (r: string)
    ensures r == [] <==> gs == []
    ensures gs != [] ==> r[0] == '\n' && r[|r| - 1] == '.'
  {
    if gs == [] then "" else Line(gs[0]) + Render(gs[1..])
  }

  /** The message the task sends for the given overdue entries. */
  function ReportText(entries: seq<Entry>): (r: string)
    ensures entries == [] ==> r == NoneOverdueText
    ensures entries != [] ==> |r| > 0 && r[0] == '\n' && r[|r| - 1] == '.'
  {
    if entries == [] then NoneOverdueText
    else
      assert entries[0].email in Emails(entries);
      Render(Grouped(entries))
  }

  /** The entries of the rows overdue on day `today`, in queryset order. */
  function OverdueEntries(s: State, today: Date): seq<Entry>
    requires RefsIntact(s)
  {
    var rows := OverdueRows(s.ledger, today);
    assert forall i :: 0 <= i < |rows| ==> rows[i] in s.ledger;
    Entries(rows, s.books)
  }

  /** The message the task sends on day `today`. */
  function OverdueMessage(s: State, today: Date): (r: string)
    requires RefsIntact(s)
    ensures r == NoneOverdueText <==> forall b :: b in s.ledger ==> !IsOverdue(b, today)
  {
    var entries := OverdueEntries(s, today);
    NoneOverdueExactlyWhenEmpty(entries);
    var rows := OverdueRows(s.ledger, today);
    assert rows != [] ==> rows[0] in rows;
    ReportText(entries)
  }

  /** Over rows in ascending due-date order, which is how `OverdueRows`
      returns them, borrowers are listed by their earliest-due row: a
      borrower listed before another has a row due no later than any row of
      the other. */
  lemma BorrowersByEarliestDue(rows: seq<Borrowing>, books: map<nat, Book>, j1: nat, j2: nat, k: nat)
    requires forall i :: 0 <= i < |rows| ==> rows[i].book in books
    requires forall i, j :: 0 <= i < j < |rows| ==> !Before(rows[j].expectedReturnDate, rows[i].expectedReturnDate)
    requires j1 < j2 < |Emails(Entries(rows, books))|
    requires k < |rows| && rows[k].user.email == Emails(Entries(rows, books))[j2]
    ensures exists i ::
      && 0 <= i < |rows|
      && rows[i].user.email == Emails(Entries(rows, books))[j1]
      && !Before(rows[k].expectedReturnDate, rows[i].expectedReturnDate)
  {
    var entries := Entries(rows, books);
    var es := Emails(entries);
    assert entries[k].email == es[j2];
    assert Mentions(entries, es[j1]) && Mentions(entries, es[j2]);
    EmailsInFirstSeenOrder(entries, j1, j2);
    var i := FirstIndex(entries, es[j1]);
    assert i < FirstIndex(entries, es[j2]) <= k;
    assert rows[i].user.email == entries[i].email;
  }

  /** The "none overdue" text is sent exactly when nothing is overdue. */
  lemma NoneOverdueExactlyWhenEmpty(entries: seq<Entry>)
    ensures ReportText(entries) == NoneOverdueText <==> entries == []
  {
    if entries != [] {
      assert ReportText(entries)[0] != NoneOverdueText[0];
    }
  }

  /** A text made of a line break, pieces free of line breaks and a full
      stop holds one line break. */
  lemma {:induction false} OneBreakAtFront(email: string, mid: string, titles: string)
    requires '\n' !in email && '\n' !in mid && '\n' !in titles
    ensures Occurrences("\n" + email + mid + titles + ".", '\n') == 1
  {
    OccurrencesConcat(email, mid, '\n');
    OccurrencesConcat(email + mid, titles, '\n');
    OccurrencesConcat(email + mid + titles, ".", '\n');
    OccurrencesConcat("\n", email + mid + titles + ".", '\n');
    assert "\n" + email + mid + titles + "." == "\n" + (email + mid + titles + ".");
  }

  /** A line holds exactly its leading line break. */
  lemma LineHasOneBreak(g: Group)
    requires '\n' !in g.email
    requires forall t :: 0 <= t < |g.titles| ==> '\n' !in g.titles[t]
    ensures Occurrences(Line(g), '\n') == 1
  {
    assert '\n' !in ", ";
    JoinAvoids(g.titles, ", ", '\n');
    assert '\n' !in LineMiddle;
    OneBreakAtFront(g.email, LineMiddle, Join(g.titles, ", "));
  }

  /** When e-mails and titles hold no line break, the report has exactly one
      line per distinct borrower. */
  lemma {:induction false} OneLinePerBorrower(gs: seq<Group>)
    requires forall k :: 0 <= k < |gs| ==> '\n' !in gs[k].email
    requires forall k, t :: 0 <= k < |gs| && 0 <= t < |gs[k].titles| ==> '\n' !in gs[k].titles[t]
    ensures Occurrences(Render(gs), '\n') == |gs|
  {
    if gs != [] {
      OneLinePerBorrower(gs[1..]);
      LineHasOneBreak(gs[0]);
      OccurrencesConcat(Line(gs[0]), Render(gs[1..]), '\n');
    }
  }

  /** One overdue row for borrower `email` on book `title` gives one line
      naming both. */
  lemma SingleOverdueRow(email: string, title: string)
    ensures ReportText([Entry(email, title)]) == "\n" + email + LineMiddle + title + "."
  {
    var s := [Entry(email, title)];
    assert s[..0] == [];
    assert Emails(s) == [email];
    assert TitlesOf(s, email) == [title];
    assert Grouped(s) == [Group(email, [title])];
    assert Render(Grouped(s)) == Line(Group(email, [title])) + Render([]);
  }
}
