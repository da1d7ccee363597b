/**
 * The scenarios of service/book/BookServiceTest.kt, and the lending
 * lifecycle of two users sharing one book, as client code of `BookService`:
 * each method starts from empty stores and its postcondition is what the
 * scenario asserts. A loan history the test writes straight into the store
 * is produced here by a successful `LoanBook`, which leaves the same entry.
 */
module BookServiceScenarios {
  import opened Wrappers
  import opened Books
  import opened LoanHistory
  import opened LendingService

  const AliceInWonderland: string := "이상한 나라의 엘리스"
  const Hong: string := "홍길동"
  const Choi: string := "최태현"

  lemma AliceInWonderlandIsNotBlank()
    ensures !IsBlank(AliceInWonderland)
  {
    assert !IsWhitespace(AliceInWonderland[0]);
  }

  /** Saving a book into an empty catalog leaves exactly that one book. */
  method SaveBookScenario(computer: BookType) returns (saved: seq<Book>)
    ensures |saved| == 1
    ensures saved[0].name == AliceInWonderland && saved[0].bookType == computer
  {
    var service := new BookService();
    AliceInWonderlandIsNotBlank();
    var _ := service.SaveBook(AliceInWonderland, computer);
    saved := service.books;
  }

  /** Lending a book nobody holds records one open entry for the user found by name. */
  method LoanBookScenario(bookType: BookType) returns (results: seq<UserLoanHistory>, savedUserId: nat)
    ensures |results| == 1
    ensures results[0].bookName == AliceInWonderland
    ensures results[0].userId == savedUserId && !results[0].isReturn
  {
    var service := new BookService();
    AliceInWonderlandIsNotBlank();
    var _ := service.SaveBook(AliceInWonderland, bookType);
    assert HasBookNamed(service.books, AliceInWonderland) by {
      assert service.books[0].name == AliceInWonderland;
    }
    savedUserId := service.SaveUser(Hong, None);
    assert FindUserByName(service.users, Hong) == Some(0);
    var r := service.LoanBook(Hong, AliceInWonderland);
    results := service.histories;
  }

  /** Lending a book that is on loan fails with the "already loaned" message and writes nothing. */
  method LoanBookFailScenario(bookType: BookType) returns (r: Outcome, results: seq<UserLoanHistory>)
    ensures r == Fail(IllegalArgument(Some(AlreadyLoanedMessage)))
    ensures |results| == 1 && OpenCount(results, AliceInWonderland) == 1
  {
    var service := new BookService();
    AliceInWonderlandIsNotBlank();
    var _ := service.SaveBook(AliceInWonderland, bookType);
    assert HasBookNamed(service.books, AliceInWonderland) by {
      assert service.books[0].name == AliceInWonderland;
    }
    var _ := service.SaveUser(Hong, None);
    assert FindUserByName(service.users, Hong) == Some(0);
    var _ := service.LoanBook(Hong, AliceInWonderland);
    r := service.LoanBook(Hong, AliceInWonderland);
    results := service.histories;
    RefusedLoanKeepsSingleOpen(results, AliceInWonderland);
  }

  /** Returning a borrowed book marks its entry returned and adds none. */
  method ReturnBookScenario(bookType: BookType) returns (results: seq<UserLoanHistory>)
    ensures |results| == 1 && results[0].isReturn
  {
    var service := new BookService();
    AliceInWonderlandIsNotBlank();
    var _ := service.SaveBook(AliceInWonderland, bookType);
    assert HasBookNamed(service.books, AliceInWonderland) by {
      assert service.books[0].name == AliceInWonderland;
    }
    var _ := service.SaveUser(Choi, None);
    assert FindUserByName(service.users, Choi) == Some(0);
    var _ := service.LoanBook(Choi, AliceInWonderland);
    var _ := service.ReturnBook(Choi, AliceInWonderland);
    results := service.histories;
  }

  /**
   * Alice borrows the book; Bob is refused while she holds it; once she
   * returns it, Bob borrows it and the ledger holds her closed entry and
   * his open one.
   */
  method TwoBorrowersScenario(bookType: BookType)
    returns (first: Outcome, second: Outcome, third: Outcome, fourth: Outcome,
             results: seq<UserLoanHistory>, alice: nat, bob: nat)
    ensures first == Pass && third == Pass && fourth == Pass
    ensures second == Fail(IllegalArgument(Some(AlreadyLoanedMessage)))
    ensures results == [UserLoanHistory(alice, AliceInWonderland, true),
                        UserLoanHistory(bob, AliceInWonderland, false)]
  {
    var service := new BookService();
    AliceInWonderlandIsNotBlank();
    var _ := service.SaveBook(AliceInWonderland, bookType);
    assert HasBookNamed(service.books, AliceInWonderland) by {
      assert service.books[0].name == AliceInWonderland;
    }
    alice := service.SaveUser("Alice", None);
    bob := service.SaveUser("Bob", None);
    assert FindUserByName(service.users, "Alice") == Some(0);
    assert FindUserByName(service.users, "Bob") == Some(1) by {
      assert service.users[0].name != "Bob";
      assert service.users[1..] == [User("Bob", None, bob)];
    }
    first := service.LoanBook("Alice", AliceInWonderland);
    second := service.LoanBook("Bob", AliceInWonderland);
    third := service.ReturnBook("Alice", AliceInWonderland);
    fourth := service.LoanBook("Bob", AliceInWonderland);
    results := service.histories;
  }
}
