/**
 * One catalog entry and its lending life cycle: `LibraryItem`, its subclass
 * `Book`, borrowing, returning and the late fee.
 *
 * Timestamps are whole milliseconds (what a JavaScript `Date` holds) and a
 * day is a fixed 86 400 000 ms.
 */
module Lending {
  import opened Wrappers

  const DAY_MS: int := 1000 * 60 * 60 * 24
  /** A loan lasts this many days before fees accrue. */
  const LOAN_DAYS: int := 14
  const LATE_FEE_PER_DAY: int := 2

  /** What distinguishes a `Book` from a plain `LibraryItem` (the `instanceof Book` test). */
  datatype Kind = General | Book(author: string, isbn: string)

  /** The mutable part of an item. */
  datatype LendingState = LendingState(availableCopies: int, borrowed: bool, borrowedDate: Option<int>)

  function DueDate(borrowedDate: int): int
  {
    borrowedDate + LOAN_DAYS * DAY_MS
  }

  /**
   * `calculateLateFees`: two units per whole day past the due date; a
   * partial day is dropped (`Math.floor` of a positive quotient).
   */
  function LateFee(returnDate: int, borrowedDate: int): (fee: nat)
    ensures fee % LATE_FEE_PER_DAY == 0
    ensures fee == 0 <==> returnDate < DueDate(borrowedDate) + DAY_MS
  {
    var due := DueDate(borrowedDate);
    if returnDate > due then (returnDate - due) / DAY_MS * LATE_FEE_PER_DAY else 0
  }

  /**
   * The fee is `2 * days` exactly when the return falls in the `days`-th
   * whole day after the due date (for 0: before one full day has passed).
   */
  lemma LateFeeCharacterized(returnDate: int, borrowedDate: int, days: nat)
    ensures LateFee(returnDate, borrowedDate) == LATE_FEE_PER_DAY * days <==>
      if days == 0 then returnDate < DueDate(borrowedDate) + DAY_MS
      else DueDate(borrowedDate) + days * DAY_MS <= returnDate < DueDate(borrowedDate) + (days + 1) * DAY_MS
  {
  }

  /** A later return never costs less. */
  lemma LateFeeMonotone(earlier: int, later: int, borrowedDate: int)
    requires earlier <= later
    ensures LateFee(earlier, borrowedDate) <= LateFee(later, borrowedDate)
  {
  }

  /** A return 28 days after the borrow date is 14 days late: 28 units. */
  lemma FeeFourWeeksAfterBorrow(now: int)
    ensures LateFee(now, now - 28 * DAY_MS) == 28
  {
  }

  /** The borrowed flag is only ever set together with a borrow date. */
  predicate Consistent(s: LendingState)
  {
    s.borrowed ==> s.borrowedDate.Some?
  }

  /** `borrowItem(date)`: only when a copy is available; otherwise nothing happens. */
  function Borrow(s: LendingState, date: int): LendingState
  {
    if s.availableCopies > 0 then
      s.(availableCopies := s.availableCopies - 1, borrowed := true, borrowedDate := Some(date))
    else s
  }

  /** The state change of `returnItem`: only a borrowed item is returned. */
  function Return(s: LendingState): LendingState
  {
    if s.borrowed then s.(availableCopies := s.availableCopies + 1, borrowed := false) else s
  }

  /** The value `returnItem` yields. */
  function ReturnFee(s: LendingState, returnDate: int, borrowedDate: int): nat
  {
    if s.borrowed then LateFee(returnDate, borrowedDate) else 0
  }

  /** A borrow followed by a return gives the copy back and clears the flag. */
  lemma BorrowThenReturn(s: LendingState, date: int)
    requires s.availableCopies > 0
    ensures Return(Borrow(s, date)) == s.(borrowed := false, borrowedDate := Some(date))
  {
  }

  /** A second return changes nothing and costs nothing. */
  lemma ReturnIdempotent(s: LendingState, returnDate: int, borrowedDate: int)
    ensures Return(Return(s)) == Return(s)
    ensures ReturnFee(Return(s), returnDate, borrowedDate) == 0
  {
  }

  /** One step of an item's history, as the catalog drives it. */
  datatype Action = BorrowAt(date: int) | ReturnAt

  function Step(s: LendingState, a: Action): LendingState
  {
    match a
    case BorrowAt(date) => Borrow(s, date)
    case ReturnAt => Return(s)
  }

  /** The state after performing `actions` in order. */
  function Run(s: LendingState, actions: seq<Action>): LendingState
    decreases |actions|
  {
    if actions == [] then s else Run(Step(s, actions[0]), actions[1..])
  }

  /**
   * The copies on the shelf plus the one recorded as out never exceed the
   * stock the item was created with, and the shelf count never goes negative.
   */
  predicate WithinStock(s: LendingState, stock: int)
  {
    0 <= s.availableCopies && s.availableCopies + (if s.borrowed then 1 else 0) <= stock
  }

  /** Any sequence of borrows and returns keeps `WithinStock` and `Consistent`. */
  lemma {:induction false} RunPreservesInvariants(s: LendingState, actions: seq<Action>, stock: int)
    requires WithinStock(s, stock) && Consistent(s)
    ensures WithinStock(Run(s, actions), stock) && Consistent(Run(s, actions))
    decreases |actions|
  {
    if actions != [] {
      RunPreservesInvariants(Step(s, actions[0]), actions[1..], stock);
    }
  }

  /**
   * The single `borrowed` flag remembers one loan only: of two borrows in a
   * row, the second is never given back, and one copy stays off the shelf.
   */
  lemma SecondBorrowNeverReturned(n: int, first: int, second: int)
    requires n >= 2
    ensures Run(LendingState(n, false, None), [BorrowAt(first), BorrowAt(second), ReturnAt, ReturnAt]).availableCopies == n - 1
  {
    var actions := [BorrowAt(first), BorrowAt(second), ReturnAt, ReturnAt];
    var s1 := LendingState(n - 1, true, Some(first));
    var s2 := LendingState(n - 2, true, Some(second));
    var s3 := LendingState(n - 1, false, Some(second));
    assert actions[1..] == [BorrowAt(second), ReturnAt, ReturnAt];
    assert actions[1..][1..] == [ReturnAt, ReturnAt];
    assert actions[1..][1..][1..] == [ReturnAt];
    assert Run(s3, [ReturnAt]) == s3;
    assert Run(s2, [ReturnAt, ReturnAt]) == s3;
    assert Run(s1, actions[1..]) == s3;
  }

  /**
   * An item created with `n >= 0` copies has between 0 and `n` copies on the
   * shelf after any sequence of borrows and returns.
   */
  lemma ShelfCountBounded(n: int, actions: seq<Action>)
    requires n >= 0
    ensures 0 <= Run(LendingState(n, false, None), actions).availableCopies <= n
  {
    RunPreservesInvariants(LendingState(n, false, None), actions, n);
  }

  /** `LibraryItem` and `Book`: title and kind are fixed; lending state changes in place. */
  class LibraryItem {
    const title: string
    const kind: Kind
    var availableCopies: int
    var borrowed: bool
    var borrowedDate: Option<int>

    function State(): LendingState
      reads this
    {
      LendingState(availableCopies, borrowed, borrowedDate)
    }

    /** `new LibraryItem(title, availableCopies)` */
    constructor (title: string, availableCopies: int)
      ensures this.title == title && kind == General
      ensures State() == LendingState(availableCopies, false, None)
    {
      this.title := title;
      this.kind := General;
      this.availableCopies := availableCopies;
      this.borrowed := false;
      this.borrowedDate := None;
    }

    /** `new Book(title, author, ISBN, availableCopies)` */
    constructor NewBook(title: string, author: string, isbn: string, availableCopies: int)
      ensures this.title == title && kind == Book(author, isbn)
      ensures State() == LendingState(availableCopies, false, None)
    {
      this.title := title;
      this.kind := Book(author, isbn);
      this.availableCopies := availableCopies;
      this.borrowed := false;
      this.borrowedDate := None;
    }

    /** `borrowItem(date)` */
    method BorrowItem(date: int)
      modifies this
      ensures old(availableCopies) > 0 ==>
        availableCopies == old(availableCopies) - 1 && borrowed && borrowedDate == Some(date)
      ensures old(availableCopies) <= 0 ==> unchanged(this)
      ensures State() == Borrow(old(State()), date)
    {
      if availableCopies > 0 {
        availableCopies := availableCopies - 1;
        borrowed := true;
        borrowedDate := Some(date);
      }
    }

    /**
     * `returnItem(returnDate, borrowedDate)`: the fee is computed from the
     * date the caller passes, not from the recorded one.
     */
    method ReturnItem(returnDate: int, borrowedOn: int) returns (fee: nat)
      modifies this
      ensures old(borrowed) ==>
        availableCopies == old(availableCopies) + 1 && !borrowed && borrowedDate == old(borrowedDate)
        && fee == LateFee(returnDate, borrowedOn)
      ensures !old(borrowed) ==> unchanged(this) && fee == 0
      ensures State() == Return(old(State())) && fee == ReturnFee(old(State()), returnDate, borrowedOn)
    {
      if borrowed {
        availableCopies := availableCopies + 1;
        borrowed := false;
        return LateFee(returnDate, borrowedOn);
      }
      return 0;
    }
  }
}
