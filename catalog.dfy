/**
 * `Library`: the ordered list of items, its queries (`getBookByISBN`,
 * `getAllBooks`, `searchBooks`), insertion, `returnBookByISBN`, and the
 * duplicate-ISBN guard the add-book dialog applies before inserting.
 */
module Catalog {
  import opened Wrappers
  import opened Sequences
  import opened Text
  import opened Lending

  /** `item instanceof Book` */
  predicate IsBook(item: LibraryItem)
  {
    item.kind.Book?
  }

  /** `item instanceof Book && item.getISBN() === isbn` (exact, case-sensitive). */
  predicate HasISBN(isbn: string, item: LibraryItem)
  {
    item.kind.Book? && item.kind.isbn == isbn
  }

  /** The `searchBooks` test: a book whose lower-cased title or author includes the lower-cased query. */
  predicate MatchesQuery(query: string, item: LibraryItem)
  {
    item.kind.Book? &&
    (Includes(ToLower(item.title), ToLower(query)) || Includes(ToLower(item.kind.author), ToLower(query)))
  }

  /** No two books of the catalog share an ISBN. */
  predicate UniqueISBNs(items: seq<LibraryItem>)
  {
    forall i, j :: 0 <= i < j < |items| && items[i].kind.Book? && items[j].kind.Book? ==>
      items[i].kind.isbn != items[j].kind.isbn
  }

  /** `getBookByISBN` (and its twin `getItemByISBN`): the first book carrying `isbn`. */
  function GetBookByISBN(items: seq<LibraryItem>, isbn: string): (r: Option<LibraryItem>)
    ensures r.None? <==> forall i :: 0 <= i < |items| ==> !HasISBN(isbn, items[i])
    ensures r.Some? ==> r.value.kind.Book? && r.value.kind.isbn == isbn
    ensures r.Some? ==>
      exists i :: 0 <= i < |items| && items[i] == r.value &&
        forall j :: 0 <= j < i ==> !HasISBN(isbn, items[j])
  {
    Find(items, item => HasISBN(isbn, item))
  }

  /** `getAllBooks`: the books of the catalog, in insertion order. */
  function GetAllBooks(items: seq<LibraryItem>): (r: seq<LibraryItem>)
    ensures forall i :: 0 <= i < |r| ==> r[i] in items && r[i].kind.Book?
    ensures forall i :: 0 <= i < |items| && items[i].kind.Book? ==> items[i] in r
  {
    Filter(items, IsBook)
  }

  /** `searchBooks(query)`: the books matching `query`, in insertion order. */
  function SearchBooks(items: seq<LibraryItem>, query: string): (r: seq<LibraryItem>)
    ensures forall i :: 0 <= i < |r| ==> r[i] in items && MatchesQuery(query, r[i])
    ensures forall i :: 0 <= i < |items| && MatchesQuery(query, items[i]) ==> items[i] in r
  {
    Filter(items, item => MatchesQuery(query, item))
  }

  /** The books are taken out in order, each occurrence kept, nothing else kept. */
  lemma AllBooksIsOrderedSelection(items: seq<LibraryItem>, item: LibraryItem)
    ensures IsSubsequence(GetAllBooks(items), items)
    ensures multiset(GetAllBooks(items))[item] == if item.kind.Book? then multiset(items)[item] else 0
  {
    FilterIsSubsequence(items, IsBook);
    FilterMultiplicity(items, IsBook, item);
  }

  /** Searching is filtering the list of all books; so its result is a subsequence of it. */
  lemma SearchWithinAllBooks(items: seq<LibraryItem>, query: string)
    ensures SearchBooks(items, query) == Filter(GetAllBooks(items), item => MatchesQuery(query, item))
    ensures IsSubsequence(SearchBooks(items, query), GetAllBooks(items))
  {
    var m := item => MatchesQuery(query, item);
    FilterFilter(items, IsBook, m, m);
    FilterIsSubsequence(GetAllBooks(items), m);
  }

  /** The empty query matches every book. */
  lemma SearchEmptyQuery(items: seq<LibraryItem>)
    ensures SearchBooks(items, "") == GetAllBooks(items)
  {
    assert ToLower("") == "";
    forall i | 0 <= i < |items|
      ensures MatchesQuery("", items[i]) == IsBook(items[i])
    {
      EmptyIncluded(ToLower(items[i].title));
    }
    FilterCongruent(items, item => MatchesQuery("", item), IsBook);
  }

  /** Upper- and lower-case letters in the query are interchangeable. */
  lemma SearchIgnoresQueryCase(items: seq<LibraryItem>, query: string)
    ensures SearchBooks(items, query) == SearchBooks(items, ToLower(query))
  {
    ToLowerIdempotent(query);
    FilterCongruent(items, item => MatchesQuery(query, item), item => MatchesQuery(ToLower(query), item));
  }

  /** A book is found by a search exactly when the lower-cased query occurs in its lower-cased title or author. */
  lemma SearchFindsIff(items: seq<LibraryItem>, query: string, i: int)
    requires 0 <= i < |items|
    ensures items[i] in SearchBooks(items, query) <==>
      items[i].kind.Book? &&
      ((exists k :: OccursAt(ToLower(items[i].title), ToLower(query), k)) ||
       (exists k :: OccursAt(ToLower(items[i].kind.author), ToLower(query), k)))
  {
    if items[i].kind.Book? {
      IncludesIff(ToLower(items[i].title), ToLower(query));
      IncludesIff(ToLower(items[i].kind.author), ToLower(query));
    }
  }

  /** With unique ISBNs, looking up the ISBN of any book finds that very book. */
  lemma LookupFindsTheBook(items: seq<LibraryItem>, i: int)
    requires UniqueISBNs(items)
    requires 0 <= i < |items| && items[i].kind.Book?
    ensures GetBookByISBN(items, items[i].kind.isbn) == Some(items[i])
  {
  }

  /** Appending a book whose ISBN is not yet present keeps ISBNs unique. */
  lemma AppendAbsentKeepsUnique(items: seq<LibraryItem>, book: LibraryItem)
    requires UniqueISBNs(items)
    requires book.kind.Book? && GetBookByISBN(items, book.kind.isbn).None?
    ensures UniqueISBNs(items + [book])
  {
  }

  /** Appending changes neither earlier lookups nor the earlier books. */
  lemma AppendEffect(items: seq<LibraryItem>, item: LibraryItem, isbn: string)
    ensures GetBookByISBN(items + [item], isbn) ==
      if GetBookByISBN(items, isbn).Some? then GetBookByISBN(items, isbn)
      else if HasISBN(isbn, item) then Some(item) else None
    ensures GetAllBooks(items + [item]) == GetAllBooks(items) + (if item.kind.Book? then [item] else [])
  {
    FindAppend(items, item, it => HasISBN(isbn, it));
    FilterAppend(items, item, IsBook);
  }

  datatype ReturnOutcome = NotFound | NotBorrowed | Returned(fee: nat)

  datatype AddOutcome = MissingField | DuplicateISBN | Added

  /** `Library`: an ordered list of items, shared by reference with their holders. */
  class Library {
    var items: seq<LibraryItem>

    constructor ()
      ensures items == []
    {
      items := [];
    }

    /** `addItem(item)` (and its twin `addBook(book)`): append at the end. */
    method AddItem(item: LibraryItem)
      modifies this
      ensures items == old(items) + [item]
    {
      items := items + [item];
    }

    /**
     * `returnBookByISBN(isbn)` with the clock read passed in as `now`: the
     * borrow date handed to the fee computation is always `now` less 28 days.
     */
    method ReturnBookByISBN(isbn: string, now: int) returns (outcome: ReturnOutcome)
      modifies items
      ensures GetBookByISBN(items, isbn).None? ==> outcome == NotFound && unchanged(items)
      ensures GetBookByISBN(items, isbn).Some? ==>
        var book := GetBookByISBN(items, isbn).value;
        && (forall item :: item in items && item != book ==> unchanged(item))
        && (old(book.borrowed) ==>
              outcome == Returned(LateFee(now, now - 28 * DAY_MS)) && book.State() == Return(old(book.State())))
        && (!old(book.borrowed) ==> outcome == NotBorrowed && unchanged(book))
    {
      var found := GetBookByISBN(items, isbn);
      if found.None? {
        return NotFound;
      }
      var book := found.value;
      if book.borrowed {
        var fee := book.ReturnItem(now, now - 28 * DAY_MS);
        outcome := Returned(fee);
      } else {
        outcome := NotBorrowed;
      }
    }

    /** `returnBookByISBN` charging from the borrow date the book itself recorded. */
    method ReturnBookOnRecord(isbn: string, now: int) returns (outcome: ReturnOutcome)
      requires forall item :: item in items ==> Consistent(item.State())
      modifies items
      ensures GetBookByISBN(items, isbn).None? ==> outcome == NotFound && unchanged(items)
      ensures GetBookByISBN(items, isbn).Some? ==>
        var book := GetBookByISBN(items, isbn).value;
        && (forall item :: item in items && item != book ==> unchanged(item))
        && (old(book.borrowed) ==>
              old(book.borrowedDate).Some? &&
              outcome == Returned(LateFee(now, old(book.borrowedDate).value)) &&
              book.State() == Return(old(book.State())))
        && (!old(book.borrowed) ==> outcome == NotBorrowed && unchanged(book))
    {
      var found := GetBookByISBN(items, isbn);
      if found.None? {
        return NotFound;
      }
      var book := found.value;
      assert book in items;
      if book.borrowed {
        var fee := book.ReturnItem(now, book.borrowedDate.value);
        outcome := Returned(fee);
      } else {
        outcome := NotBorrowed;
      }
    }
  }

  /**
   * The add-book dialog's checks: every field present and the copy count a
   * number (`copies` is None when it did not parse), and no book with the
   * same ISBN yet; only then is a new book appended.
   */
  method AddBookIfNew(library: Library, title: string, author: string, isbn: string, copies: Option<int>)
    returns (outcome: AddOutcome)
    modifies library
    ensures outcome == MissingField <==> title == "" || author == "" || isbn == "" || copies.None?
    ensures outcome == DuplicateISBN <==>
      outcome != MissingField && GetBookByISBN(old(library.items), isbn).Some?
    ensures outcome != Added ==> library.items == old(library.items)
    ensures outcome == Added ==>
      |library.items| == |old(library.items)| + 1 &&
      library.items[..|old(library.items)|] == old(library.items) &&
      var book := library.items[|old(library.items)|];
      fresh(book) && book.title == title && book.kind == Book(author, isbn) &&
      book.State() == LendingState(copies.value, false, None)
    ensures UniqueISBNs(old(library.items)) ==> UniqueISBNs(library.items)
  {
    if title == "" || author == "" || isbn == "" || copies.None? {
      return MissingField;
    }
    if GetBookByISBN(library.items, isbn).Some? {
      return DuplicateISBN;
    }
    var book := new LibraryItem.NewBook(title, author, isbn, copies.value);
    if UniqueISBNs(library.items) {
      AppendAbsentKeepsUnique(library.items, book);
    }
    library.AddItem(book);
    outcome := Added;
  }
}
