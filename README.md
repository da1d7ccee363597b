# Library lending domain — a Dafny model

This project models the lending domain of a small library application written
in Kotlin on Spring Boot:

- the `Book` entity and the blank-name guard of its constructor;
- the fetch-or-fail helpers `fail()` and `findByIdOrThrow`;
- the per-category statistics counter `BookStatResponse` and its `plusOne`;
- the book service's `saveBook`, `loanBook` and `returnBook`, which work over a
  book catalog, a user store and a ledger of `UserLoanHistory` entries.

The central rule of the ledger is that a book name has at most one open loan,
meaning an entry with `isReturn = false`. A loan of a book that is already on
loan is refused and writes nothing.

Modules, leaf first:

- `Wrappers` (`wrappers.dfy`): `Option`, `Result`, `Outcome`, and the exceptions
  the code raises.
- `Books` (`books.dfy`): `Book`, Kotlin's `isBlank`, and the constructor as
  `NewBook`. It returns the book or the `IllegalArgumentException` with its
  message.
- `ExceptionUtils` (`exception_utils.dfy`): `Fail`, `FindByIdOrNull` and
  `FindByIdOrThrow` over a repository modelled as a `map` from id to entity.
- `BookStats` (`book_stats.dfy`): Kotlin's 32-bit `Int` as `int32`, `count++`
  with its wrap-around, and the class `BookStatResponse` with a `const`
  `bookType` and a mutable `count`.
- `LoanHistory` (`loan_history.dfy`): the ledger entries, the two open-loan
  queries and the at-most-one-open invariant, with lemmas showing that lending
  and returning preserve it.
- `LendingService` (`lending_service.dfy`): the class `BookService`. It holds
  the three stores as sequences plus a fresh-id counter. `Valid()` is its
  invariant, and each operation states its whole new state.
- `BookServiceScenarios` (`service_scenarios.dfy`): the scenarios of
  `BookServiceTest.kt`, and a two-borrower lifecycle, written as client
  methods whose postconditions are what the scenarios assert.

`type` is a reserved word in Dafny, so the book category field is named
`bookType`. The category itself is an abstract type compared only for equality.

The book service's own source is not part of this model. Its behaviour is
taken from what `BookServiceTest.kt` asserts. Where the tests are silent, the
model makes these choices:

- `loanBook` resolves the user by name first. It then checks that the catalog
  holds a book of that name. If either is missing, it fails the way `fail()`
  does (`IllegalArgumentException` without a message).
- `loanBook` then refuses a book that has an open loan by anyone, with the
  message "진작 대출되어 있는 책입니다.".
- `returnBook` resolves the user the same way. It fails with `NoActiveLoan`
  when that user has no open entry for the book. It does not consult the
  catalog.
- Lookups by name take the first match in insertion order.

Two points where the sources differ:

- The test compares `books[0].type` with the string `"COMPUTER"`, while
  `BookStatResponse.kt` declares `type: BookType`. The abstract `BookType`
  covers both readings.
- In `BookServiceTest.kt`, the test that refuses a loan and the return test
  write an open `UserLoanHistory` straight into its store. The scenarios here
  create that entry with a successful `LoanBook`, which produces the same
  entry. A raw write could break the invariant that the service keeps.

## Model

| member | source | states |
|---|---|---|
| `Books.NewBook` | src/main/kotlin/com/group/libraryapp/domain/book/Book.kt:11-23 | construction succeeds exactly when the name is not blank; the book then holds the given name, type and id unchanged (id `None` by default); a blank name yields IllegalArgumentException with the blank-name message and no book |
| `Books.TrimStart` | src/main/kotlin/com/group/libraryapp/domain/book/Book.kt:20 | an independent view of blankness: the result is the input with its leading whitespace dropped, that is a suffix of the input, every dropped character is whitespace, and what remains is empty or starts with a non-whitespace character |
| `Books.BlankIffTrimsToEmpty` | src/main/kotlin/com/group/libraryapp/domain/book/Book.kt:20 | `isBlank` holds exactly when trimming leading whitespace leaves the empty string (it follows from the contract of `TrimStart`) |
| `Books.EmptyNameRejected` | src/main/kotlin/com/group/libraryapp/domain/book/Book.kt:20-21 | the empty name is blank, so constructing a book named "" fails with the blank-name exception |
| `Books.WhitespaceNameRejected` | src/main/kotlin/com/group/libraryapp/domain/book/Book.kt:20-21 | a name from which trimming leading whitespace leaves nothing (by `BlankIffTrimsToEmpty`, exactly a name made only of whitespace) is rejected |
| `Books.NonBlankNameAccepted` | src/main/kotlin/com/group/libraryapp/domain/book/Book.kt:12-23 | a name with one non-whitespace character yields a book with that exact name, the given type, and no id when none is supplied |
| `ExceptionUtils.Fail` | src/main/kotlin/com/group/libraryapp/util/ExceptionUtils.kt:7-9 | `fail()` never yields a value: it is always IllegalArgumentException without a message |
| `ExceptionUtils.FindByIdOrNull` | src/main/kotlin/com/group/libraryapp/util/ExceptionUtils.kt:12 | the lookup is non-null exactly when the id is in the repository, and then it is the stored entity |
| `ExceptionUtils.FindByIdOrThrow` | src/main/kotlin/com/group/libraryapp/util/ExceptionUtils.kt:11-13 | succeeds exactly when the id is present, returning the stored entity; otherwise fails with IllegalArgumentException instead of returning null |
| `ExceptionUtils.ThrowAgreesWithOrNull` | src/main/kotlin/com/group/libraryapp/util/ExceptionUtils.kt:12 | `findByIdOrThrow` succeeds exactly when `findByIdOrNull` is non-null, and with the same entity |
| `BookStats.Increment` | src/main/kotlin/com/group/libraryapp/dto/book/request/reponse/BookStatResponse.kt:7-10 | `count++` on a 32-bit `Int` adds one below `Int.MAX_VALUE`; at `Int.MAX_VALUE` it wraps to `Int.MIN_VALUE` |
| `BookStats.IncrementedByAdds` | src/main/kotlin/com/group/libraryapp/dto/book/request/reponse/BookStatResponse.kt:7-11 | with `count + n <= 2^31 - 1`, `n` successive increments raise the count by exactly `n` |
| `BookStats.BookStatResponse.constructor` | src/main/kotlin/com/group/libraryapp/dto/book/request/reponse/BookStatResponse.kt:5-8 | stores the given type and count unchanged |
| `BookStats.BookStatResponse.PlusOne` | src/main/kotlin/com/group/libraryapp/dto/book/request/reponse/BookStatResponse.kt:9-11 | the new count is the increment of the old one; only `count` may change, so the type stays as it was |
| `LoanHistory.FindAnyActiveLoan` | src/test/kotlin/com/group/libraryapp/service/book/BookServiceTest.kt:73-86 | finds nothing exactly when no entry for the book name is open; otherwise gives the first open entry for that name, whoever holds it |
| `LoanHistory.FindActiveLoan` | src/test/kotlin/com/group/libraryapp/service/book/BookServiceTest.kt:89-103 | finds nothing exactly when the given user has no open entry for the book name; otherwise gives that user's first such entry |
| `LoanHistory.AtMostOneOpenIffCountsBounded` | src/test/kotlin/com/group/libraryapp/service/book/BookServiceTest.kt:73-86 | the ledger invariant holds exactly when every book name has at most one open entry, in both directions |
| `LoanHistory.AtMostOneOpenBoundsCount` | src/test/kotlin/com/group/libraryapp/service/book/BookServiceTest.kt:73-86 | under the invariant a book name has at most one open entry |
| `LoanHistory.LoanKeepsAtMostOneOpen` | src/test/kotlin/com/group/libraryapp/service/book/BookServiceTest.kt:54-86 | appending an open entry for a book with no open loan keeps the invariant |
| `LoanHistory.LoanOpensExactlyOne` | src/test/kotlin/com/group/libraryapp/service/book/BookServiceTest.kt:54-69 | after such a loan the book has exactly one open entry |
| `LoanHistory.RefusedLoanKeepsSingleOpen` | src/test/kotlin/com/group/libraryapp/service/book/BookServiceTest.kt:78-85 | when a loan is refused because the book is on loan, the ledger holds exactly one open entry for it |
| `LoanHistory.MarkReturned` | src/test/kotlin/com/group/libraryapp/service/book/BookServiceTest.kt:98-103 | marking an entry returned keeps the ledger size and the entry's user and book name, sets its flag, and leaves every other entry unchanged |
| `LoanHistory.ReturnKeepsAtMostOneOpen` | src/test/kotlin/com/group/libraryapp/service/book/BookServiceTest.kt:89-105 | marking an entry returned keeps the invariant |
| `LoanHistory.ReturnClosesTheLoan` | src/test/kotlin/com/group/libraryapp/service/book/BookServiceTest.kt:89-103 | under the invariant, returning an open entry leaves its book name with no open loan |
| `LendingService.FindUserByName` | src/test/kotlin/com/group/libraryapp/service/book/BookServiceTest.kt:57-61 | finds nothing exactly when no user has the name; otherwise gives the first user with that name |
| `LendingService.BookService.constructor` | src/test/kotlin/com/group/libraryapp/service/book/BookServiceTest.kt:30-34 | every scenario starts from empty stores, which satisfy the invariant |
| `LendingService.BookService.SaveBook` | src/test/kotlin/com/group/libraryapp/service/book/BookServiceTest.kt:38-50 | succeeds exactly when the name is not blank and then appends one book with that name, that type and a fresh id, one that no book already in the catalog has (the invariant keeps every stored book id below the counter); a blank name fails with the blank-name exception and changes nothing; the invariant is kept |
| `LendingService.BookService.SaveUser` | src/test/kotlin/com/group/libraryapp/service/book/BookServiceTest.kt:57 | appends the user with a fresh id and returns that id |
| `LendingService.BookService.LoanBook` | src/test/kotlin/com/group/libraryapp/service/book/BookServiceTest.kt:54-86 | an unknown user or book fails as `fail()` does; a book with an open loan fails with the "already loaned" message; in each failure the ledger is unchanged; otherwise exactly one open entry is appended, for the user found by name; the invariant is kept |
| `LendingService.BookService.ReturnBook` | src/test/kotlin/com/group/libraryapp/service/book/BookServiceTest.kt:89-105 | an unknown user fails as `fail()` does; no open entry for that user and book fails with `NoActiveLoan`; otherwise exactly that entry is marked returned and nothing is added; the invariant is kept |
| `BookServiceScenarios.SaveBookScenario` | src/test/kotlin/com/group/libraryapp/service/book/BookServiceTest.kt:38-50 | saving a book into an empty catalog leaves exactly one book, with that name and type |
| `BookServiceScenarios.LoanBookScenario` | src/test/kotlin/com/group/libraryapp/service/book/BookServiceTest.kt:54-69 | after the loan the ledger holds one entry, for that book name, with the saved user's id, not returned |
| `BookServiceScenarios.LoanBookFailScenario` | src/test/kotlin/com/group/libraryapp/service/book/BookServiceTest.kt:73-86 | lending a book that is on loan fails with the "already loaned" message, and the single open entry remains |
| `BookServiceScenarios.ReturnBookScenario` | src/test/kotlin/com/group/libraryapp/service/book/BookServiceTest.kt:89-105 | after the return the ledger still holds one entry, now returned |
| `BookServiceScenarios.TwoBorrowersScenario` | src/test/kotlin/com/group/libraryapp/service/book/BookServiceTest.kt:54-105 | one user borrows; a second is refused; after the return the second borrows; the ledger holds the closed entry and the new open one |

## Left out

- Persistence and wiring (JPA entities, `@GeneratedValue(IDENTITY)`, Spring
  repositories, dependency injection): stores are sequences and maps. Id
  generation is a single fresh-id counter starting at 1.
- Transactions and concurrency: the model is sequential. The check-then-write
  of `loanBook` is therefore atomic by construction.
- The statistics aggregation that groups books by type with `plusOne` lives in
  the book service, which is not part of this model. Only the counter itself
  is modelled.
- `Book.fixture`, `BookType`'s values, the request objects and the user entity
  are outside this model. They become plain arguments, an abstract type and a datatype
  `User(name, age, id)`.
- Exception messages are string constants. Their content carries no behaviour.
- `Books.IsWhitespace` follows JDK 9 and later Unicode tables. U+180E, which
  older JDKs count as a space, is not whitespace here.
- `ExceptionUtils.FindByIdOrThrow`: being read-only holds by construction,
  because the repository is a value passed in, so no separate "unchanged"
  clause is stated.
- The removal of test data (`deleteAll` after each test) is not modelled.
  Every scenario starts from a fresh, empty `BookService`.
