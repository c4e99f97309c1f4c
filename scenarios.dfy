/**
 * Concrete sessions of the catalog: add a book, borrow it, return it through
 * `returnBookByISBN` as the menu does, search; and the same return charged
 * from the recorded borrow date.
 */
module Scenarios {
  import opened Wrappers
  import opened Text
  import opened Lending
  import opened Catalog

  /**
   * Add "Dune" with two copies, borrow it four weeks before `now`, return it
   * twice, search for "dune", and try to add the same ISBN again.
   */
  method DuneSession(now: int) returns (fee: ReturnOutcome, again: ReturnOutcome, hits: seq<LibraryItem>, readd: AddOutcome)
    ensures fee == Returned(28)
    ensures again == NotBorrowed
    ensures |hits| == 1 && hits[0].title == "Dune"
    ensures readd == DuplicateISBN
  {
    var library := new Library();
    var added := AddBookIfNew(library, "Dune", "Herbert", "001", Some(2));
    var dune := library.items[0];
    assert library.items == [dune];
    dune.BorrowItem(now - 28 * DAY_MS);
    assert dune.availableCopies == 1 && dune.borrowed;
    fee := library.ReturnBookByISBN("001", now);
    FeeFourWeeksAfterBorrow(now);
    assert dune.availableCopies == 2 && !dune.borrowed;
    again := library.ReturnBookByISBN("001", now);
    assert ToLower("Dune") == "dune";
    assert ToLower("dune") == "dune";
    assert Includes("dune", "dune");
    hits := SearchBooks(library.items, "dune");
    assert hits == [dune];
    readd := AddBookIfNew(library, "Dune", "Herbert", "001", Some(1));
  }

  /**
   * A book borrowed at `now` and handed back at once: `returnBookByISBN`
   * charges 28 units, while charging from the recorded borrow date gives 0.
   */
  method ReturnRightAfterBorrow(now: int) returns (asWritten: ReturnOutcome, onRecord: ReturnOutcome)
    ensures asWritten == Returned(28)
    ensures onRecord == Returned(0)
  {
    var first := new Library();
    var a := new LibraryItem.NewBook("Dune", "Herbert", "001", 1);
    first.AddItem(a);
    a.BorrowItem(now);
    asWritten := first.ReturnBookByISBN("001", now);
    FeeFourWeeksAfterBorrow(now);

    var second := new Library();
    var b := new LibraryItem.NewBook("Dune", "Herbert", "001", 1);
    second.AddItem(b);
    b.BorrowItem(now);
    onRecord := second.ReturnBookOnRecord("001", now);
  }
}
