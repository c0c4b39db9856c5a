/** The data-access layer of the book demo: `BookDao.buildBook` with its
    class-level id counter, the statements `add`, `findById` and `findAll`
    hand to the store, and what the id sequence guarantees over a run. */
module BookRepository {
  import opened Books

  /** The value of the static `idGenerator` when the process starts. */
  const InitialId: int := 100

  // ---------------------------------------------------------------------
  // Statements handed to the store
  // ---------------------------------------------------------------------

  /** A positional parameter of a prepared statement. */
  datatype SqlValue = IntParam(i: int) | StringParam(s: string)

  /** Statement text plus the positional parameters bound to its `?`s. */
  datatype Statement = Statement(sql: string, params: seq<SqlValue>)

  // The query texts, with each `?` written as a separate piece.
  const SelectByIdQuery: string := "select * from books\nwhere id = " + "?" + "\n"
  const SelectAllQuery: string := "select * from books"
  const InsertQuery: string := "insert into books\nvalues(" + "?" + ", " + "?" + ", " + "?" + ")\n"

  /** The number of `?` placeholders in a statement text. */
  function Placeholders(sql: string): nat {
    if sql == [] then 0
    else (if sql[0] == '?' then 1 else 0) + Placeholders(sql[1..])
  }

  lemma {:induction false} PlaceholdersAppend(a: string, b: string)
    ensures Placeholders(a + b) == Placeholders(a) + Placeholders(b)
  {
    if a == [] {
      assert a + b == b;
    } else {
      assert (a + b)[1..] == a[1..] + b;
      PlaceholdersAppend(a[1..], b);
    }
  }

  lemma {:induction false} NoPlaceholders(sql: string)
    requires '?' !in sql
    ensures Placeholders(sql) == 0
  {
    if sql != [] {
      assert sql[0] in sql;
      assert forall c :: c in sql[1..] ==> c in sql;
      NoPlaceholders(sql[1..]);
    }
  }

  /** A `?`-free piece followed by one `?`. */
  lemma OnePlaceholderAfter(a: string)
    requires '?' !in a
    ensures Placeholders(a + "?") == 1
  {
    NoPlaceholders(a);
    PlaceholdersAppend(a, "?");
    assert "?"[1..] == [];
  }

  /** A statement binds exactly one positional value per `?` in its text,
      which is what positional binding in the store requires. */
  predicate WellFormed(st: Statement) {
    |st.params| == Placeholders(st.sql)
  }

  lemma InsertQueryPlaceholders()
    ensures Placeholders(InsertQuery) == 3
  {
    var a, b, c, d := "insert into books\nvalues(", ", ", ", ", ")\n";
    OnePlaceholderAfter(a);
    OnePlaceholderAfter(b);
    OnePlaceholderAfter(c);
    NoPlaceholders(d);
    PlaceholdersAppend(a + "?", b + "?");
    PlaceholdersAppend(a + "?" + (b + "?"), c + "?");
    PlaceholdersAppend(a + "?" + (b + "?") + (c + "?"), d);
    assert InsertQuery == a + "?" + (b + "?") + (c + "?") + d;
  }

  lemma SelectByIdQueryPlaceholders()
    ensures Placeholders(SelectByIdQuery) == 1
  {
    var a, b := "select * from books\nwhere id = ", "\n";
    OnePlaceholderAfter(a);
    NoPlaceholders(b);
    PlaceholdersAppend(a + "?", b);
  }

  lemma SelectAllQueryPlaceholders()
    ensures Placeholders(SelectAllQuery) == 0
  {
    NoPlaceholders(SelectAllQuery);
  }

  /** The three parameters of the insert, bound in column order
      `(id, title, points)`. */
  predicate InsertShape(params: seq<SqlValue>) {
    |params| == 3 && params[0].IntParam? && params[1].StringParam? && params[2].IntParam?
  }

  /** The `books` row an insert with these parameters writes. */
  function BoundRow(params: seq<SqlValue>): (row: Row)
    requires InsertShape(params)
    ensures row.title.NonNull?
  {
    Row(params[0].i, NonNull(params[1].s), params[2].i)
  }

  /** The insert issued by `add` for a built book. */
  function InsertStatement(b: Book): (st: Statement)
    ensures st.sql == InsertQuery && WellFormed(st)
    ensures InsertShape(st.params) && BoundRow(st.params) == RowOf(b)
  {
    InsertQueryPlaceholders();
    Statement(InsertQuery, [IntParam(b.id), StringParam(b.title), IntParam(b.points)])
  }

  /** The select issued by `findById`: its one placeholder is bound to the
      requested id. */
  function FindByIdStatement(id: int): (st: Statement)
    ensures st.sql == SelectByIdQuery && WellFormed(st)
    ensures |st.params| == 1 && st.params[0] == IntParam(id)
  {
    SelectByIdQueryPlaceholders();
    Statement(SelectByIdQuery, [IntParam(id)])
  }

  /** Looking a book up by its id binds the same value the insert wrote to
      the `id` column. */
  lemma FindByIdKeyIsInsertedId(b: Book)
    ensures FindByIdStatement(b.id).params == [IntParam(BoundRow(InsertStatement(b).params).id)]
  {
  }

  /** The select issued by `findAll`: a text without placeholders, so no
      parameters. */
  function FindAllStatement(): (st: Statement)
    ensures st.sql == SelectAllQuery && WellFormed(st)
  {
    SelectAllQueryPlaceholders();
    Statement(SelectAllQuery, [])
  }

  /** Writing a constructed book and reading its row back yields the same
      book: the insert binds its fields in the order the mapper reads them. */
  lemma InsertThenMapRow(b: Book)
    requires ValidBook(b)
    ensures MapRow(BoundRow(InsertStatement(b).params)) == Ok(b)
  {
    MapRowOfBook(b);
  }

  // ---------------------------------------------------------------------
  // buildBook and the id sequence, as values
  // ---------------------------------------------------------------------

  /** The arguments of one `buildBook` call. */
  datatype Call = Call(name: Nullable<string>, status: Nullable<Reviews>)

  /** What one call yields and the counter value it leaves behind. */
  datatype Step = Step(outcome: Result<Book>, next: int)

  /** One `buildBook` call from counter value `counter`. The switch on the
      rating runs first (a null rating throws there, before the counter is
      touched); then the counter is read for the id and post-incremented
      before the record constructor can throw. */
  function Build(counter: int, call: Call): (step: Step)
    ensures step.next == if call.status.Null? then counter else counter + 1
    ensures step.outcome.Ok? <==>
              call.status.NonNull? && call.status.value != NotDefiend &&
              call.name.NonNull? && |call.name.value| > 0
    ensures step.outcome.Ok? ==>
              step.outcome.value == Book(counter, call.name.value, PointsFor(call.status.value))
    ensures call.status == NonNull(NotDefiend) ==> step.outcome == Err(IllegalArgument(PointsMessage))
    ensures call.status.Null? ==> step.outcome == Err(NullPointer)
  {
    match call.status
    case Null => Step(Err(NullPointer), counter)
    case NonNull(s) => Step(MakeBook(counter, call.name, PointsFor(s)), counter + 1)
  }

  /** The counter after running `calls` in order from `start`. */
  function Counter(start: int, calls: seq<Call>): int
    decreases |calls|
  {
    if calls == [] then start
    else Build(Counter(start, calls[..|calls| - 1]), calls[|calls| - 1]).next
  }

  /** The outcome of each of `calls`, run in order from `start`. */
  function Outcomes(start: int, calls: seq<Call>): (r: seq<Result<Book>>)
    decreases |calls|
    ensures |r| == |calls|
  {
    if calls == [] then []
    else
      var init := calls[..|calls| - 1];
      Outcomes(start, init) + [Build(Counter(start, init), calls[|calls| - 1]).outcome]
  }

  lemma CounterStep(start: int, calls: seq<Call>, k: nat)
    requires k < |calls|
    ensures Counter(start, calls[..k + 1]) == Build(Counter(start, calls[..k]), calls[k]).next
  {
    assert calls[..k + 1][..k] == calls[..k];
  }

  /** The k-th call (counting from 0) is built from the counter value left
      by the calls before it. */
  lemma {:induction false} OutcomeAt(start: int, calls: seq<Call>, k: nat)
    requires k < |calls|
    ensures Outcomes(start, calls)[k] == Build(Counter(start, calls[..k]), calls[k]).outcome
    decreases |calls|
  {
    var n := |calls|;
    var init := calls[..n - 1];
    if k < n - 1 {
      OutcomeAt(start, init, k);
      assert init[..k] == calls[..k];
    } else {
      assert init == calls[..k];
    }
  }

  /** When every call names a rating, the counter advances once per call:
      the k-th call (counting from 1) receives id `start + k - 1`. */
  lemma {:induction false} CounterCountsCalls(start: int, calls: seq<Call>)
    requires forall i :: 0 <= i < |calls| ==> calls[i].status.NonNull?
    ensures Counter(start, calls) == start + |calls|
    decreases |calls|
  {
    if calls != [] {
      CounterCountsCalls(start, calls[..|calls| - 1]);
    }
  }

  /** The counter never goes backwards, and a call with a rating moves it
      past the value that call consumed. */
  lemma {:induction false} CounterMonotone(start: int, calls: seq<Call>, i: nat, j: nat)
    requires i <= j <= |calls|
    ensures Counter(start, calls[..i]) <= Counter(start, calls[..j])
    ensures i < j && calls[i].status.NonNull? ==> Counter(start, calls[..i]) < Counter(start, calls[..j])
    decreases j - i
  {
    if i < j {
      CounterStep(start, calls, i);
      CounterMonotone(start, calls, i + 1, j);
    }
  }

  /** Counting every call, failed ones included, the k-th call (from 0) of
      a run where each call names a rating is given id `start + k`. */
  lemma IdOfKthCall(start: int, calls: seq<Call>, k: nat)
    requires forall i :: 0 <= i < |calls| ==> calls[i].status.NonNull?
    requires k < |calls| && Outcomes(start, calls)[k].Ok?
    ensures Outcomes(start, calls)[k].value.id == start + k
  {
    OutcomeAt(start, calls, k);
    CounterCountsCalls(start, calls[..k]);
  }

  /** Ids of successfully built books are strictly increasing in call order. */
  lemma SuccessfulIdsIncrease(start: int, calls: seq<Call>, i: nat, j: nat)
    requires i < j < |calls|
    requires Outcomes(start, calls)[i].Ok? && Outcomes(start, calls)[j].Ok?
    ensures Outcomes(start, calls)[i].value.id < Outcomes(start, calls)[j].value.id
  {
    OutcomeAt(start, calls, i);
    OutcomeAt(start, calls, j);
    CounterMonotone(start, calls, i, j);
  }

  /** A rated call whose construction failed still consumed its id, and no
      successfully built book ever carries that id: failures leave gaps. */
  lemma FailedIdNeverReused(start: int, calls: seq<Call>, i: nat, j: nat)
    requires i < |calls| && j < |calls|
    requires calls[i].status.NonNull? && Outcomes(start, calls)[i].Err?
    requires Outcomes(start, calls)[j].Ok?
    ensures Outcomes(start, calls)[j].value.id != Counter(start, calls[..i])
  {
    OutcomeAt(start, calls, j);
    if i < j {
      CounterMonotone(start, calls, i, j);
    } else if j < i {
      CounterMonotone(start, calls, j, i);
    }
  }

  // ---------------------------------------------------------------------
  // The repository object
  // ---------------------------------------------------------------------

  /** `BookDao`. Its `idGenerator` is a static field in the source; a single
      instance stands for that one process-wide counter. The ghost `calls`
      records every `buildBook` call so far. */
  class BookDao {
    var idGenerator: int
    ghost var calls: seq<Call>

    ghost predicate Valid()
      reads this
    {
      idGenerator == Counter(InitialId, calls)
    }

    /** The outcome of every `buildBook` call so far, in order. */
    ghost function History(): seq<Result<Book>>
      reads this
    {
      Outcomes(InitialId, calls)
    }

    constructor ()
      ensures Valid() && calls == [] && idGenerator == InitialId
    {
      idGenerator := InitialId;
      calls := [];
    }

    /** `buildBook`: map the rating to points, take the current counter as
        the id and post-increment it, then run the record's validation. */
    method BuildBook(name: Nullable<string>, status: Nullable<Reviews>) returns (book: Result<Book>)
      requires Valid()
      modifies this
      ensures Valid() && calls == old(calls) + [Call(name, status)]
      ensures idGenerator == if status.Null? then old(idGenerator) else old(idGenerator) + 1
      ensures book == Build(old(idGenerator), Call(name, status)).outcome
      ensures History() == old(History()) + [book]
    {
      calls := calls + [Call(name, status)];
      assert calls[..|calls| - 1] == old(calls);
      if status.Null? {
        book := Err(NullPointer);
        return;
      }
      var points := PointsFor(status.value);
      var id := idGenerator;
      idGenerator := idGenerator + 1;
      book := MakeBook(id, name, points);
    }

    /** `add`: build the book, then hand the insert its `(id, title, points)`.
        A failed build propagates and no insert is issued. */
    method Add(title: Nullable<string>, reviews: Nullable<Reviews>) returns (insert: Result<Statement>)
      requires Valid()
      modifies this
      ensures Valid() && calls == old(calls) + [Call(title, reviews)]
      ensures idGenerator == if reviews.Null? then old(idGenerator) else old(idGenerator) + 1
      ensures insert.Ok? <==> History()[|History()| - 1].Ok?
      ensures insert.Ok? ==> insert.value == InsertStatement(History()[|History()| - 1].value)
      ensures insert.Err? ==> insert.error == History()[|History()| - 1].error
    {
      var book := BuildBook(title, reviews);
      match book
      case Err(e) =>
        insert := Err(e);
      case Ok(b) =>
        insert := Ok(InsertStatement(b));
    }
  }

  /** The two inserts a fresh process issues at startup, and what reading
      their rows back gives. */
  method StartupInserts() returns (first: Result<Statement>, second: Result<Statement>)
    ensures first == Ok(Statement(InsertQuery, [IntParam(100), StringParam("Effective Java Book"), IntParam(2)]))
    ensures second == Ok(Statement(InsertQuery, [IntParam(101), StringParam("React 101"), IntParam(1)]))
    ensures MapRows([BoundRow(first.value.params), BoundRow(second.value.params)])
            == Ok([Book(100, "Effective Java Book", 2), Book(101, "React 101", 1)])
  {
    var dao := new BookDao();
    first := dao.Add(NonNull("Effective Java Book"), NonNull(Excellent));
    second := dao.Add(NonNull("React 101"), NonNull(Good));
    var b1, b2 := Book(100, "Effective Java Book", 2), Book(101, "React 101", 1);
    InsertThenMapRow(b1);
    InsertThenMapRow(b2);
    assert [BoundRow(first.value.params), BoundRow(second.value.params)] == RowsOf([b1, b2]);
    ReadBackAll([b1, b2]);
  }
}
