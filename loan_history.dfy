/**
 * The loan history ledger: one `UserLoanHistory` per loan event, the queries
 * the lending service runs on it, and the "at most one open loan per book
 * name" invariant.
 */
module LoanHistory {
  import opened Wrappers

  /**
   * A loan event: the borrower's user id, the book's name copied at loan time
   * (not a reference to the catalog) and whether the book came back.
   */
  datatype UserLoanHistory = UserLoanHistory(userId: nat, bookName: string, isReturn: bool)

  /** The entry is an open (unreturned) loan of `bookName`. */
  predicate IsOpenLoanOf(e: UserLoanHistory, bookName: string) {
    e.bookName == bookName && !e.isReturn
  }

  /** The ledger invariant: no two entries for the same book name are open at once. */
  ghost predicate AtMostOneOpen(h: seq<UserLoanHistory>) {
    forall i, j :: 0 <= i < j < |h| && h[i].bookName == h[j].bookName ==> h[i].isReturn || h[j].isReturn
  }

  /** `findAnyActiveLoan`: the first open entry for `bookName`, whoever borrowed it. */
  function FindAnyActiveLoan(h: seq<UserLoanHistory>, bookName: string): (r: Option<nat>)
    ensures r.None? <==> forall k :: 0 <= k < |h| ==> !IsOpenLoanOf(h[k], bookName)
    ensures r.Some? ==> r.value < |h| && IsOpenLoanOf(h[r.value], bookName)
    ensures r.Some? ==> forall k :: 0 <= k < r.value ==> !IsOpenLoanOf(h[k], bookName)
  {
    if h == [] then None
    else if IsOpenLoanOf(h[0], bookName) then Some(0)
    else match FindAnyActiveLoan(h[1..], bookName)
      case None => None
      case Some(k) => Some(k + 1)
  }

  /** `findActiveLoan`: the first open entry for `bookName` borrowed by user `userId`. */
  function FindActiveLoan(h: seq<UserLoanHistory>, userId: nat, bookName: string): (r: Option<nat>)
    ensures r.None? <==> forall k :: 0 <= k < |h| ==> !(h[k].userId == userId && IsOpenLoanOf(h[k], bookName))
    ensures r.Some? ==> r.value < |h| && h[r.value].userId == userId && IsOpenLoanOf(h[r.value], bookName)
    ensures r.Some? ==> forall k :: 0 <= k < r.value ==> !(h[k].userId == userId && IsOpenLoanOf(h[k], bookName))
  {
    if h == [] then None
    else if h[0].userId == userId && IsOpenLoanOf(h[0], bookName) then Some(0)
    else match FindActiveLoan(h[1..], userId, bookName)
      case None => None
      case Some(k) => Some(k + 1)
  }

  /** The number of open entries for `bookName`. */
  function OpenCount(h: seq<UserLoanHistory>, bookName: string): nat {
    if h == [] then 0
    else OpenCount(h[..|h| - 1], bookName) + (if IsOpenLoanOf(h[|h| - 1], bookName) then 1 else 0)
  }

  /** A ledger with no open entry for `bookName` counts none. */
  lemma {:induction false} OpenCountNone(h: seq<UserLoanHistory>, bookName: string)
    requires forall k :: 0 <= k < |h| ==> !IsOpenLoanOf(h[k], bookName)
    ensures OpenCount(h, bookName) == 0
  {
    if h != [] {
      OpenCountNone(h[..|h| - 1], bookName);
    }
  }

  /** Every open entry for `bookName` at index `k` or later is counted. */
  lemma {:induction false} OpenCountAtLeastOne(h: seq<UserLoanHistory>, bookName: string, k: nat)
    requires k < |h| && IsOpenLoanOf(h[k], bookName)
    ensures OpenCount(h, bookName) >= 1
  {
    if k < |h| - 1 {
      OpenCountAtLeastOne(h[..|h| - 1], bookName, k);
    }
  }

  /** Two open entries for `bookName` count at least two. */
  lemma {:induction false} OpenCountAtLeastTwo(h: seq<UserLoanHistory>, bookName: string, i: nat, j: nat)
    requires i < j < |h| && IsOpenLoanOf(h[i], bookName) && IsOpenLoanOf(h[j], bookName)
    ensures OpenCount(h, bookName) >= 2
  {
    if j < |h| - 1 {
      OpenCountAtLeastTwo(h[..|h| - 1], bookName, i, j);
    } else {
      OpenCountAtLeastOne(h[..|h| - 1], bookName, i);
    }
  }

  /** The invariant holds exactly when every book name has at most one open entry. */
  lemma {:induction false} AtMostOneOpenIffCountsBounded(h: seq<UserLoanHistory>)
    ensures AtMostOneOpen(h) <==> forall bookName :: OpenCount(h, bookName) <= 1
  {
    if AtMostOneOpen(h) {
      forall bookName ensures OpenCount(h, bookName) <= 1 {
        AtMostOneOpenBoundsCount(h, bookName);
      }
    }
    if !AtMostOneOpen(h) {
      var i, j :| 0 <= i < j < |h| && h[i].bookName == h[j].bookName && !h[i].isReturn && !h[j].isReturn;
      OpenCountAtLeastTwo(h, h[i].bookName, i, j);
    }
  }

  /** Under the invariant a book name has at most one open entry. */
  lemma {:induction false} AtMostOneOpenBoundsCount(h: seq<UserLoanHistory>, bookName: string)
    requires AtMostOneOpen(h)
    ensures OpenCount(h, bookName) <= 1
  {
    if h != [] {
      var prefix := h[..|h| - 1];
      assert AtMostOneOpen(prefix) by {
        forall i, j | 0 <= i < j < |prefix| && prefix[i].bookName == prefix[j].bookName
          ensures prefix[i].isReturn || prefix[j].isReturn
        {
          assert prefix[i] == h[i] && prefix[j] == h[j];
        }
      }
      if IsOpenLoanOf(h[|h| - 1], bookName) {
        forall k | 0 <= k < |prefix| ensures !IsOpenLoanOf(prefix[k], bookName) {
          assert prefix[k] == h[k];
        }
        OpenCountNone(prefix, bookName);
      } else {
        AtMostOneOpenBoundsCount(prefix, bookName);
      }
    }
  }

  /** Appending an open loan of a book that has none keeps the invariant. */
  lemma LoanKeepsAtMostOneOpen(h: seq<UserLoanHistory>, userId: nat, bookName: string)
    requires AtMostOneOpen(h)
    requires FindAnyActiveLoan(h, bookName).None?
    ensures AtMostOneOpen(h + [UserLoanHistory(userId, bookName, false)])
  {
  }

  /** After such a loan the book has exactly one open entry. */
  lemma LoanOpensExactlyOne(h: seq<UserLoanHistory>, userId: nat, bookName: string)
    requires FindAnyActiveLoan(h, bookName).None?
    ensures OpenCount(h + [UserLoanHistory(userId, bookName, false)], bookName) == 1
  {
    var h' := h + [UserLoanHistory(userId, bookName, false)];
    assert h'[..|h'| - 1] == h;
    OpenCountNone(h, bookName);
  }

  /** A loan refused because the book is on loan leaves its single open entry in place. */
  lemma RefusedLoanKeepsSingleOpen(h: seq<UserLoanHistory>, bookName: string)
    requires AtMostOneOpen(h)
    requires FindAnyActiveLoan(h, bookName).Some?
    ensures OpenCount(h, bookName) == 1
  {
    OpenCountAtLeastOne(h, bookName, FindAnyActiveLoan(h, bookName).value);
    AtMostOneOpenBoundsCount(h, bookName);
  }

  /** The ledger after the entry at `k` is marked returned. */
  function MarkReturned(h: seq<UserLoanHistory>, k: nat): (r: seq<UserLoanHistory>)
    requires k < |h|
    ensures |r| == |h| && r[k].isReturn
    ensures r[k].userId == h[k].userId && r[k].bookName == h[k].bookName
    ensures forall i :: 0 <= i < |h| && i != k ==> r[i] == h[i]
  {
    h[k := h[k].(isReturn := true)]
  }

  /** Marking an entry returned keeps the invariant. */
  lemma ReturnKeepsAtMostOneOpen(h: seq<UserLoanHistory>, k: nat)
    requires AtMostOneOpen(h) && k < |h|
    ensures AtMostOneOpen(MarkReturned(h, k))
  {
  }

  /** Returning the open loan of a book leaves that book with no open entry. */
  lemma ReturnClosesTheLoan(h: seq<UserLoanHistory>, k: nat)
    requires AtMostOneOpen(h) && k < |h| && !h[k].isReturn
    ensures FindAnyActiveLoan(MarkReturned(h, k), h[k].bookName).None?
  {
  }
}
