# Book records and their data-access object, in Dafny

This project models the logic of a small Java demo. The demo stores "book" records in a `books` table through a data-access object (`BookDao`):

- `Book` is an immutable record `(id, title, points)`. Its compact constructor throws when `points` is outside `[0, 2]`. Otherwise it throws when `title` is empty. The points check runs first.
- `Reviews` is a rating enum `BAD, GOOD, EXCELLENT, NOT_DEFIEND`. `buildBook` maps it to points 0, 1, 2 and, for the undefined rating, the sentinel `-1`. The sentinel always fails `Book` validation.
- `BookDao.buildBook` takes the id from a class-level counter that starts at 100. It post-increments the counter inside the constructor's argument list, so the counter advances even when the constructor then throws.
- `BookDao.add` builds a book and hands the insert its `(id, title, points)` in that order. `findById` and `findAll` issue fixed selects. `BookRowMapper.mapRow` turns a stored row back into a `Book` by calling the same constructor, so the row is validated again.

Files:

- `books.dfy` (module `Books`) holds the value layer: `Book`, `MakeBook` (the compact constructor), `Reviews` and `PointsFor`, the row mapper `MapRow`, and `MapRows`, which applies the row mapper to each row of a result set in order.
- `book_dao.dfy` (module `BookRepository`) holds the statements handed to the store, a pure specification of `buildBook` over a run of calls (`Build`, `Counter`, `Outcomes`) with the id-sequence lemmas, and the class `BookDao`. The class has the real counter field `idGenerator` and a ghost history of calls. Its methods are proved against the pure specification.

Java `null` is modelled explicitly with `Nullable`:

- A null title passes the points check and then throws `NullPointerException` at `title.isEmpty()`.
- A null rating throws `NullPointerException` in the `switch`. That happens before `idGenerator++` is evaluated, so the counter does not move. This is the one path on which `buildBook` leaves the counter unchanged. Every call with a non-null rating advances it by exactly 1, whether or not construction succeeds.

Two consequences of the code that are easy to miss:

- `mapRow` builds its result with the `Book` constructor (PlayingWithRecordsApplication.java:131). Stored rows are therefore validated again on every read. `MapRow` rejects an out-of-range `points` or an empty or NULL title.
- The counter advances on every `buildBook` call whose rating is non-null, failed ones included (line 108), not once per successful `add`. That leaves gaps in the ids, as `FailedIdNeverReused` states.

## Model

| member | source | states |
|---|---|---|
| `Books.MakeBook` | src/main/java/org/adex/PlayingWithRecordsApplication.java:113-120 | construction succeeds exactly when points are in [0,2] and the title is non-null and non-empty; a built book satisfies the record invariant and carries the given id, title and points |
| `Books.PointsCheckedFirst` | src/main/java/org/adex/PlayingWithRecordsApplication.java:114-116 | with points out of range, the points exception is thrown whatever the title, including an empty or null one |
| `Books.TitleFailure` | src/main/java/org/adex/PlayingWithRecordsApplication.java:117-118 | with points in range, a null title throws NullPointerException and an empty title throws the title exception |
| `Books.MakeBookAcceptsExactlyValid` | src/main/java/org/adex/PlayingWithRecordsApplication.java:113-120 | rebuilding a book from its own components succeeds exactly when it satisfies the invariant, and then gives the same book |
| `Books.PointsFor` | src/main/java/org/adex/PlayingWithRecordsApplication.java:102-107 | the rating switch is total with results in [-1,2]; its result is a valid points value exactly when the rating is not NOT_DEFIEND |
| `Books.PointsForInjective` | src/main/java/org/adex/PlayingWithRecordsApplication.java:102-106 | distinct ratings, the undefined one included, map to distinct points |
| `Books.MapRow` | src/main/java/org/adex/PlayingWithRecordsApplication.java:130-132 | a row maps to a book exactly when it passes the record's validation; the book has the row's values; out-of-range points give the points exception |
| `Books.MapRowOfBook` | src/main/java/org/adex/PlayingWithRecordsApplication.java:130-132 | the row of a valid book maps back to that same book |
| `Books.MapRows` | src/main/java/org/adex/PlayingWithRecordsApplication.java:97-99 | reading a result set succeeds exactly when every row is valid, giving one book per row in order; otherwise it fails with the exception of the first invalid row |
| `Books.ReadBackAll` | src/main/java/org/adex/PlayingWithRecordsApplication.java:97-99 | the rows of valid books read back as exactly those books in order; an empty table reads back as an empty list |
| `BookRepository.InsertStatement` | src/main/java/org/adex/PlayingWithRecordsApplication.java:91-94 | the insert uses the insert query, binds one value per `?` in its text, and binds exactly the book's id, title and points, in column order |
| `BookRepository.FindByIdStatement` | src/main/java/org/adex/PlayingWithRecordsApplication.java:85-88 | the select-by-id binds one value per `?` in its text, and that one value is the requested id |
| `BookRepository.FindByIdKeyIsInsertedId` | src/main/java/org/adex/PlayingWithRecordsApplication.java:86-93 | looking a book up by its id binds the same value the insert wrote to the `id` column |
| `BookRepository.FindAllStatement` | src/main/java/org/adex/PlayingWithRecordsApplication.java:96-99 | the select-all binds one value per `?` in its text, so it binds none |
| `BookRepository.InsertQueryPlaceholders` | src/main/java/org/adex/PlayingWithRecordsApplication.java:76-79 | the insert text has exactly three placeholders, one per column |
| `BookRepository.SelectByIdQueryPlaceholders` | src/main/java/org/adex/PlayingWithRecordsApplication.java:69-72 | the select-by-id text has exactly one placeholder |
| `BookRepository.SelectAllQueryPlaceholders` | src/main/java/org/adex/PlayingWithRecordsApplication.java:74 | the select-all text has no placeholder |
| `BookRepository.InsertThenMapRow` | src/main/java/org/adex/PlayingWithRecordsApplication.java:93 | the row written by the insert for a valid book maps back to that book |
| `BookRepository.Build` | src/main/java/org/adex/PlayingWithRecordsApplication.java:101-109 | one buildBook call: succeeds exactly for a non-null defined rating and a non-null non-empty title, with the current counter as id and the rating's points; NOT_DEFIEND always throws the points exception; the counter advances by 1 unless the rating is null |
| `BookRepository.OutcomeAt` | src/main/java/org/adex/PlayingWithRecordsApplication.java:101-109 | in a run of calls, each call is built from the counter value left by the calls before it |
| `BookRepository.CounterCountsCalls` | src/main/java/org/adex/PlayingWithRecordsApplication.java:108 | when every call names a rating, the counter advances once per call, failed calls included |
| `BookRepository.IdOfKthCall` | src/main/java/org/adex/PlayingWithRecordsApplication.java:108 | when every call names a rating, the k-th call (from 0, failed calls counted), if it succeeds, gets id start + k |
| `BookRepository.CounterMonotone` | src/main/java/org/adex/PlayingWithRecordsApplication.java:108 | the counter never decreases over a run, and a call with a rating strictly raises it past the id it consumed |
| `BookRepository.SuccessfulIdsIncrease` | src/main/java/org/adex/PlayingWithRecordsApplication.java:108 | ids of successfully built books are strictly increasing in call order, hence never reused |
| `BookRepository.FailedIdNeverReused` | src/main/java/org/adex/PlayingWithRecordsApplication.java:108 | the id consumed by a failed call with a rating is never the id of any successfully built book |
| `BookRepository.BookDao.constructor` | src/main/java/org/adex/PlayingWithRecordsApplication.java:62 | the counter starts at 100 with an empty call history |
| `BookRepository.BookDao.BuildBook` | src/main/java/org/adex/PlayingWithRecordsApplication.java:101-109 | returns the outcome `Build` specifies from the old counter, appends the call to the history and advances the counter by 1 on every path except a null rating, success and failure alike |
| `BookRepository.BookDao.Add` | src/main/java/org/adex/PlayingWithRecordsApplication.java:91-94 | issues the insert of the book just built; when building fails, the exception propagates and no insert is produced; the counter moves as in `BuildBook` |
| `BookRepository.StartupInserts` | src/main/java/org/adex/PlayingWithRecordsApplication.java:38-41 | in a fresh process the two startup inserts bind (100, "Effective Java Book", 2) and (101, "React 101", 1), and their rows read back as those two books in order |

## Left out

- Spring bootstrap (`main`) and the `Runner` class's printing are not modelled. Only the two `add` calls the runner makes are modelled, in `StartupInserts`.
- Executing statements through `JdbcTemplate` is not modelled, because the store's behaviour is not part of this code. `Add` returns the statement it would execute, not the affected-row count. `findById` and `findAll` are modelled up to the statement they issue and, for `findAll`, the mapping of the returned rows. The zero-row and many-row errors of `queryForObject` are not modelled.
- `ResultSet` reading is not modelled. A row is the `(int, nullable string, int)` triple the mapper reads. JDBC's reading of SQL NULL integers as 0 is not modelled.
- `BookDao.BuildBook`: `idGenerator` is an unbounded integer. The source's 32-bit `int` would wrap to a negative value after 2^31 - 1. That is far beyond this demo's use.
- Concurrent calls are not modelled. The unsynchronised `idGenerator++` on a static field could hand two concurrent calls the same id. One `BookDao` object stands for the single process-wide counter, used sequentially.
- Java strings are modelled as sequences of characters. Only emptiness matters to the validation.
