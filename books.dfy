/** The `Book` record of the catalogue (book/models.py). */
module Books {
  import opened Common

  /** `Book.CoverType`: the two cover choices, stored as "HARD" / "SOFT". */
  datatype CoverType = Hard | Soft

  /** The cover a book gets when none is given. */
  const DefaultCover: CoverType := Hard

  /** The stored value of a cover choice. */
  function CoverCode(c: CoverType): (r: string)
    ensures |r| == 4
  {
    match c
    case Hard => "HARD"
    case Soft => "SOFT"
  }

  /** Reads a stored cover value; anything but the two choices is refused. */
  function CoverFromCode(s: string): (r: Option<CoverType>)
    ensures r.Some? ==> CoverCode(r.value) == s
  {
    if s == "HARD" then Some(Hard)
    else if s == "SOFT" then Some(Soft)
    else None
  }

  lemma CoverCodeRoundTrip(c: CoverType)
    ensures CoverFromCode(CoverCode(c)) == Some(c)
  {
  }

  const MaxTextLength := 255
  /** `daily_fee` has at most 6 digits, 2 of them after the point: in cents
      its magnitude is at most 999999. */
  const MaxFeeCents := 999_999
  /** The range validator of a `PositiveIntegerField` on SQLite and
      PostgreSQL: a submitted inventory is at most 2^31 - 1. */
  const MaxInventory := 2_147_483_647

  /** A catalogue entry. `inventory` is a `PositiveIntegerField`, which admits
      0, hence `nat`; `dailyFee` is the decimal fee in cents. */
  datatype Book = Book(
    title: string,
    author: string,
    cover: CoverType,
    inventory: nat,
    dailyFee: int)

  /** The constraints the model's field declarations put on a stored book. */
  predicate ValidBook(b: Book) {
    && 0 < |b.title| <= MaxTextLength
    && 0 < |b.author| <= MaxTextLength
    && -MaxFeeCents <= b.dailyFee <= MaxFeeCents
  }

  datatype BookFieldError =
    | BlankOrLongTitle
    | BlankOrLongAuthor
    | InventoryOutOfRange
    | FeeOutOfRange

  /** Building a book from submitted field values: each field is checked
      against its declaration and a missing cover takes the default. */
  function MakeBook(title: string, author: string, cover: Option<CoverType>,
                    inventory: int, dailyFee: int): (r: Result<Book, seq<BookFieldError>>)
    ensures r.Ok? <==>
      0 < |title| <= MaxTextLength && 0 < |author| <= MaxTextLength
      && 0 <= inventory <= MaxInventory && -MaxFeeCents <= dailyFee <= MaxFeeCents
    ensures r.Ok? ==> ValidBook(r.value) && r.value.inventory == inventory
    ensures r.Ok? && cover.None? ==> r.value.cover == Hard
    ensures r.Ok? && cover.Some? ==> r.value.cover == cover.value
    ensures r.Err? ==> |r.error| > 0
  {
    var errors :=
      (if 0 < |title| <= MaxTextLength then [] else [BlankOrLongTitle])
      + (if 0 < |author| <= MaxTextLength then [] else [BlankOrLongAuthor])
      + (if 0 <= inventory <= MaxInventory then [] else [InventoryOutOfRange])
      + (if -MaxFeeCents <= dailyFee <= MaxFeeCents then [] else [FeeOutOfRange]);
    if errors == [] then
      Ok(Book(title, author, match cover case Some(c) => c case None => DefaultCover,
              inventory, dailyFee))
    else Err(errors)
  }

  /** Texts compared code point by code point: the order of SQLite's
      default BINARY collation. A database collating by locale orders
      titles differently. */
  predicate TextLeq(a: string, b: string) {
    a == [] || (b != [] && (a[0] < b[0] || (a[0] == b[0] && TextLeq(a[1..], b[1..]))))
  }

  /** `Meta.ordering = ["title"]`: `a` may be listed before `b`. */
  predicate TitleLeq(a: Book, b: Book) {
    TextLeq(a.title, b.title)
  }

  /** Code-point order compares any two texts, chains, and ties only equal
      texts. */
  lemma {:induction false} TextLeqTotalPreorder(a: string, b: string, c: string)
    ensures TextLeq(a, b) || TextLeq(b, a)
    ensures TextLeq(a, b) && TextLeq(b, c) ==> TextLeq(a, c)
    ensures TextLeq(a, b) && TextLeq(b, a) ==> a == b
  {
    if a != [] && b != [] && c != [] {
      TextLeqTotalPreorder(a[1..], b[1..], c[1..]);
      if TextLeq(a, b) && TextLeq(b, a) {
        assert a == [a[0]] + a[1..] && b == [b[0]] + b[1..];
      }
    } else if a != [] && b != [] {
      TextLeqTotalPreorder(a[1..], b[1..], b[1..]);
      if TextLeq(a, b) && TextLeq(b, a) {
        assert a == [a[0]] + a[1..] && b == [b[0]] + b[1..];
      }
    }
  }

  lemma TitleLeqIsTotalPreorder()
    ensures TotalPreorder(TitleLeq)
  {
    forall a: Book, b: Book, c: Book {
      TextLeqTotalPreorder(a.title, b.title, c.title);
    }
  }

  /** `Book.objects.all()`: `stored` is the book table's rows in
      primary-key order; they are listed by title, each as often as it is
      stored, and books with the same title keep primary-key order. */
  function Catalogue(stored: seq<Book>): (r: seq<Book>)
    ensures Ordered(r, TitleLeq)
    ensures multiset(r) == multiset(stored)
  {
    TitleLeqIsTotalPreorder();
    Sort(stored, TitleLeq)
  }
}
