/** The value layer of the book demo: the validated `Book` record, the
    `Reviews` rating enum with its points mapping, and the row mapper that
    turns one stored `(id, title, points)` row back into a `Book`. */
module Books {

  /** A Java reference that may be `null`. */
  datatype Nullable<+T> = Null | NonNull(value: T)

  /** The exceptions the core can throw. */
  datatype Failure =
    | IllegalArgument(message: string)
    | NullPointer

  datatype Result<+T> = Ok(value: T) | Err(error: Failure)

  const PointsMessage: string := "Points must be in interval [0:2]"
  const TitleMessage: string := "Title must not be empty"

  /** An immutable book record. Only `MakeBook` produces one from raw values. */
  datatype Book = Book(id: int, title: string, points: int)

  predicate ValidPoints(points: int) {
    0 <= points <= 2
  }

  /** The invariant every constructed `Book` satisfies. */
  predicate ValidBook(b: Book) {
    ValidPoints(b.points) && |b.title| > 0
  }

  /** The record's compact constructor: the range check on `points` runs
      first, then the emptiness check on `title` (which dereferences it). */
  function MakeBook(id: int, title: Nullable<string>, points: int): (r: Result<Book>)
    ensures r.Ok? <==> ValidPoints(points) && title.NonNull? && |title.value| > 0
    ensures r.Ok? ==> ValidBook(r.value)
    ensures r.Ok? ==> r.value.id == id && r.value.points == points && NonNull(r.value.title) == title
  {
    if points < 0 || points > 2 then
      Err(IllegalArgument(PointsMessage))
    else if title.Null? then
      Err(NullPointer)
    else if |title.value| == 0 then
      Err(IllegalArgument(TitleMessage))
    else
      Ok(Book(id, title.value, points))
  }

  /** When both checks would fail, the points failure is the one thrown. */
  lemma PointsCheckedFirst(id: int, title: Nullable<string>, points: int)
    requires !ValidPoints(points)
    ensures MakeBook(id, title, points) == Err(IllegalArgument(PointsMessage))
  {
  }

  /** With points in range, an absent or empty title is reported. */
  lemma TitleFailure(id: int, title: Nullable<string>, points: int)
    requires ValidPoints(points)
    ensures title.Null? ==> MakeBook(id, title, points) == Err(NullPointer)
    ensures title == NonNull("") ==> MakeBook(id, title, points) == Err(IllegalArgument(TitleMessage))
  {
  }

  /** Every valid book can be rebuilt from its own components, and only
      valid ones: construction accepts exactly the invariant. */
  lemma MakeBookAcceptsExactlyValid(b: Book)
    ensures ValidBook(b) ==> MakeBook(b.id, NonNull(b.title), b.points) == Ok(b)
    ensures MakeBook(b.id, NonNull(b.title), b.points).Ok? <==> ValidBook(b)
  {
  }

  /** The rating levels; `NotDefiend` keeps the source's spelling. */
  datatype Reviews = Bad | Good | Excellent | NotDefiend

  /** The switch in `buildBook`: a total mapping with `-1` as the sentinel
      for the undefined rating. */
  function PointsFor(status: Reviews): (points: int)
    ensures -1 <= points <= 2
    ensures ValidPoints(points) <==> status != NotDefiend
  {
    match status
    case Bad => 0
    case Good => 1
    case Excellent => 2
    case _ => -1
  }

  /** Distinct ratings give distinct points, so the points of a book
      identify its rating. */
  lemma PointsForInjective(s: Reviews, t: Reviews)
    ensures PointsFor(s) == PointsFor(t) <==> s == t
  {
  }

  /** One stored row as the row mapper reads it: `getInt("id")`,
      `getString("title")` (which may be SQL NULL) and `getInt("points")`. */
  datatype Row = Row(id: int, title: Nullable<string>, points: int)

  predicate ValidRow(row: Row) {
    ValidPoints(row.points) && row.title.NonNull? && |row.title.value| > 0
  }

  /** The row of a book as the insert stores it. */
  function RowOf(b: Book): Row {
    Row(b.id, NonNull(b.title), b.points)
  }

  /** `BookRowMapper.mapRow`: the row's values go through the same
      validation as any other construction, so an invalid stored row is
      rejected rather than trusted. */
  function MapRow(row: Row): (r: Result<Book>)
    ensures r.Ok? <==> ValidRow(row)
    ensures r.Ok? ==> ValidBook(r.value) && RowOf(r.value) == row
    ensures !ValidPoints(row.points) ==> r == Err(IllegalArgument(PointsMessage))
  {
    MakeBook(row.id, row.title, row.points)
  }

  /** Reading back the row of a constructed book gives that same book. */
  lemma MapRowOfBook(b: Book)
    requires ValidBook(b)
    ensures MapRow(RowOf(b)) == Ok(b)
  {
  }

  /** The row mapper applied to a result set in order; the first row it
      rejects ends the read with that row's exception. */
  function MapRows(rows: seq<Row>): (r: Result<seq<Book>>)
    ensures r.Ok? <==> forall i :: 0 <= i < |rows| ==> ValidRow(rows[i])
    ensures r.Ok? ==> |r.value| == |rows| && forall i :: 0 <= i < |rows| ==> RowOf(r.value[i]) == rows[i]
    ensures r.Err? ==> exists k :: 0 <= k < |rows| && MapRow(rows[k]) == Err(r.error) && forall i :: 0 <= i < k ==> ValidRow(rows[i])
  {
    if rows == [] then
      Ok([])
    else
      match MapRow(rows[0])
      case Err(e) => Err(e)
      case Ok(b) =>
        match MapRows(rows[1..])
        case Err(e) => Err(e)
        case Ok(bs) => Ok([b] + bs)
  }

  /** The rows of `books`, one per book, in order. */
  function RowsOf(books: seq<Book>): (rows: seq<Row>)
    ensures |rows| == |books| && forall i :: 0 <= i < |books| ==> rows[i] == RowOf(books[i])
  {
    seq(|books|, i requires 0 <= i < |books| => RowOf(books[i]))
  }

  /** Reading back the rows of constructed books gives those books, in the
      same order; an empty table reads back as the empty list. */
  lemma {:induction false} ReadBackAll(books: seq<Book>)
    requires forall i :: 0 <= i < |books| ==> ValidBook(books[i])
    ensures MapRows(RowsOf(books)) == Ok(books)
  {
    var rows := RowsOf(books);
    var r := MapRows(rows);
    assert r.Ok?;
    assert forall i :: 0 <= i < |books| ==> RowOf(r.value[i]) == RowOf(books[i]);
    assert r.value == books;
  }
}
