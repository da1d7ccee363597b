/**
 * The book service: registering books, lending them to users and taking
 * them back, over the book, user and loan-history stores. The stores are
 * sequences in insertion order (what `findAll()` returns) and ids come from
 * one fresh-id counter.
 */
module LendingService {
  import opened Wrappers
  import opened Books
  import opened LoanHistory

  /** The message of the exception raised for a book that is already on loan. */
  const AlreadyLoanedMessage: string := "진작 대출되어 있는 책입니다."

  /** A persisted user: name, optional age and the id the store assigned. */
  datatype User = User(name: string, age: Option<int>, id: nat)

  /** `findByName` on the user store: the position of the first user with that name. */
  function FindUserByName(users: seq<User>, name: string): (r: Option<nat>)
    ensures r.None? <==> forall k :: 0 <= k < |users| ==> users[k].name != name
    ensures r.Some? ==> r.value < |users| && users[r.value].name == name
    ensures r.Some? ==> forall k :: 0 <= k < r.value ==> users[k].name != name
  {
    if users == [] then None
    else if users[0].name == name then Some(0)
    else match FindUserByName(users[1..], name)
      case None => None
      case Some(k) => Some(k + 1)
  }

  /** The catalog holds a book of that name. */
  predicate HasBookNamed(books: seq<Book>, name: string) {
    exists k :: 0 <= k < |books| && books[k].name == name
  }

  /** Some user in the store has that id. */
  predicate IsRegistered(users: seq<User>, id: nat) {
    exists i :: 0 <= i < |users| && users[i].id == id
  }

  class BookService {
    var books: seq<Book>
    var users: seq<User>
    var histories: seq<UserLoanHistory>
    var nextId: nat

    /**
     * The consistency of the three stores: books went through the
     * constructor's guard and were given ids already issued, user ids are distinct and
     * already issued, every ledger entry names a registered user, and no book
     * name has two open loans.
     */
    ghost predicate Valid()
      reads this
    {
      && (forall k :: 0 <= k < |books| ==> ValidBook(books[k]) && books[k].id.Some? && books[k].id.value < nextId)
      && (forall k :: 0 <= k < |users| ==> users[k].id < nextId)
      && (forall i, j :: 0 <= i < j < |users| ==> users[i].id != users[j].id)
      && (forall k :: 0 <= k < |histories| ==> IsRegistered(users, histories[k].userId))
      && AtMostOneOpen(histories)
    }

    /** Empty stores; the identity counter starts at 1. */
    constructor ()
      ensures Valid()
      ensures books == [] && users == [] && histories == [] && nextId == 1
    {
      books, users, histories, nextId := [], [], [], 1;
    }

    /**
     * `saveBook`: constructs the book (which fails on a blank name, leaving
     * the stores as they were) and appends it with a fresh id.
     */
    method SaveBook(name: string, bookType: BookType) returns (r: Outcome)
      requires Valid()
      modifies this
      ensures Valid()
      ensures users == old(users) && histories == old(histories)
      ensures r.Pass? <==> !IsBlank(name)
      ensures r.Pass? ==> books == old(books) + [Book(name, bookType, Some(old(nextId)))]
                          && nextId == old(nextId) + 1
      ensures r.Pass? ==> forall k :: 0 <= k < |old(books)| ==> old(books)[k].id != Some(old(nextId))
      ensures r.Fail? ==> r.error == IllegalArgument(Some(BlankNameMessage))
                          && books == old(books) && nextId == old(nextId)
    {
      match NewBook(name, bookType)
      case Err(e) =>
        r := Fail(e);
      case Ok(book) =>
        books := books + [book.(id := Some(nextId))];
        nextId := nextId + 1;
        r := Pass;
    }

    /** `save` on the user store: appends the user with a fresh id. */
    method SaveUser(name: string, age: Option<int>) returns (id: nat)
      requires Valid()
      modifies this
      ensures Valid()
      ensures id == old(nextId) && nextId == old(nextId) + 1
      ensures users == old(users) + [User(name, age, id)]
      ensures books == old(books) && histories == old(histories)
    {
      id := nextId;
      forall k | 0 <= k < |histories| ensures IsRegistered(users + [User(name, age, id)], histories[k].userId) {
        assert IsRegistered(users, histories[k].userId);
        var i :| 0 <= i < |users| && users[i].id == histories[k].userId;
        assert (users + [User(name, age, id)])[i] == users[i];
      }
      users := users + [User(name, age, id)];
      nextId := nextId + 1;
    }

    /**
     * `loanBook`: resolves the user by name and the book in the catalog
     * (each failing as `fail()` does), refuses a book that has an open loan
     * by anyone, and otherwise appends one open entry for that user. A
     * refusal writes nothing.
     */
    method LoanBook(userName: string, bookName: string) returns (r: Outcome)
      requires Valid()
      modifies this
      ensures Valid()
      ensures books == old(books) && users == old(users) && nextId == old(nextId)
      ensures FindUserByName(users, userName).None? ==>
                r == Fail(IllegalArgument(None)) && histories == old(histories)
      ensures FindUserByName(users, userName).Some? && !HasBookNamed(books, bookName) ==>
                r == Fail(IllegalArgument(None)) && histories == old(histories)
      ensures FindUserByName(users, userName).Some? && HasBookNamed(books, bookName)
              && FindAnyActiveLoan(old(histories), bookName).Some? ==>
                r == Fail(IllegalArgument(Some(AlreadyLoanedMessage))) && histories == old(histories)
      ensures FindUserByName(users, userName).Some? && HasBookNamed(books, bookName)
              && FindAnyActiveLoan(old(histories), bookName).None? ==>
                r == Pass
                && histories == old(histories) +
                     [UserLoanHistory(users[FindUserByName(users, userName).value].id, bookName, false)]
    {
      match FindUserByName(users, userName)
      case None =>
        r := Fail(IllegalArgument(None));
      case Some(u) =>
        if !HasBookNamed(books, bookName) {
          r := Fail(IllegalArgument(None));
        } else if FindAnyActiveLoan(histories, bookName).Some? {
          r := Fail(IllegalArgument(Some(AlreadyLoanedMessage)));
        } else {
          LoanKeepsAtMostOneOpen(histories, users[u].id, bookName);
          histories := histories + [UserLoanHistory(users[u].id, bookName, false)];
          r := Pass;
        }
    }

    /**
     * `returnBook`: resolves the user by name, finds that user's open entry
     * for the book and marks it returned; no entry is added and no other
     * entry changes. The catalog is not consulted.
     */
    method ReturnBook(userName: string, bookName: string) returns (r: Outcome)
      requires Valid()
      modifies this
      ensures Valid()
      ensures books == old(books) && users == old(users) && nextId == old(nextId)
      ensures FindUserByName(users, userName).None? ==>
                r == Fail(IllegalArgument(None)) && histories == old(histories)
      ensures FindUserByName(users, userName).Some?
              && FindActiveLoan(old(histories), users[FindUserByName(users, userName).value].id, bookName).None? ==>
                r == Fail(NoActiveLoan) && histories == old(histories)
      ensures FindUserByName(users, userName).Some?
              && FindActiveLoan(old(histories), users[FindUserByName(users, userName).value].id, bookName).Some? ==>
                r == Pass
                && histories == MarkReturned(old(histories),
                     FindActiveLoan(old(histories), users[FindUserByName(users, userName).value].id, bookName).value)
    {
      match FindUserByName(users, userName)
      case None =>
        r := Fail(IllegalArgument(None));
      case Some(u) =>
        match FindActiveLoan(histories, users[u].id, bookName)
        case None =>
          r := Fail(NoActiveLoan);
        case Some(k) =>
          ReturnKeepsAtMostOneOpen(histories, k);
          histories := MarkReturned(histories, k);
          r := Pass;
    }
  }
}
