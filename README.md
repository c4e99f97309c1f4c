# Library lending model

A Dafny model of the domain core of a small in-browser library catalog
(`script.js`): catalog entries (`LibraryItem` and its subclass `Book`) with a
guarded borrow/return state machine and a late fee, and the `Library` catalog
with its lookup, listing, search, insertion and return-by-ISBN operations,
plus the duplicate-ISBN guard the add-book dialog applies before inserting.

Modules:

- `Wrappers` — `Option`, standing for JavaScript's `undefined`/`null`.
- `Sequences` — `Find` and `Filter` (`Array.prototype.find`/`filter`) with
  their laws: first match, order-preserving subsequence, multiplicities,
  filter-of-filter, behaviour under append.
- `Text` — ASCII `toLowerCase` and `includes`, with `includes` proved equal to
  "occurs at some position".
- `Lending` — the late fee, the lending state as a value (`Borrow`, `Return`,
  runs of several actions), and the `LibraryItem` class whose `BorrowItem` and
  `ReturnItem` update `availableCopies`, `borrowed` and `borrowedDate` in place.
  `title` and the kind (`General`, or `Book(author, isbn)` for `instanceof
  Book`) never change after construction and are `const` fields.
- `Catalog` — the queries as functions over the item sequence, the `Library`
  class (its `items` hold references to the items, so a return through the
  catalog changes the very object the catalog holds), and the add-book guard.
- `Scenarios` — a session adding, borrowing, returning and searching for a
  book, and the session that shows the finding below.

Timestamps are integer milliseconds; a day is 86 400 000 ms and the due date
is the borrow date plus 14 days. The clock is a parameter (`now`).

The copy count is an unbounded `int`: the add-book dialog accepts any integer
`parseInt` produces, negative ones included. "Never negative" is proved as an
invariant that holds whenever the count starts non-negative
(`ShelfCountBounded`). Because an item has a single `borrowed` flag, a second
borrow made while the item is already borrowed is never given back: after two
borrows and two returns one copy stays off the shelf
(`SecondBorrowNeverReturned`). Uniqueness of ISBNs is enforced by the
add-book dialog, not by `addBook`.

## Model

| member | source | states |
|---|---|---|
| `Lending.LateFee` | script.js:34-46 | the fee is a non-negative multiple of 2, and it is 0 exactly when the return comes less than one full day after the due date (borrow date + 14 days) |
| `Lending.LateFeeCharacterized` | script.js:64-75 | the fee is `2 * d` exactly when the return falls in the `d`-th whole day after the due date (the `Book` override is the same rule as the base class) |
| `Lending.LateFeeMonotone` | script.js:40-42 | a later return date never gives a smaller fee |
| `Lending.FeeFourWeeksAfterBorrow` | script.js:119-122 | with a borrow date 28 days before `now`, returning at `now` costs exactly 28 |
| `Lending.BorrowThenReturn` | script.js:17-32 | a successful borrow followed by a return puts the copy back and clears the borrowed flag, keeping the recorded date |
| `Lending.ReturnIdempotent` | script.js:25-32 | returning twice is the same as returning once, and the second return costs 0 |
| `Lending.RunPreservesInvariants` | script.js:17-32 | along any sequence of borrows and returns, the shelf count stays in [0, stock − borrowed] and the borrowed flag is only set with a borrow date |
| `Lending.ShelfCountBounded` | script.js:2-7 | an item created with n ≥ 0 copies has between 0 and n copies available after any sequence of borrows and returns |
| `Lending.SecondBorrowNeverReturned` | script.js:17-32 | with n ≥ 2 copies, borrow, borrow, return, return leaves n − 1 copies on the shelf: the second loan is lost by the single borrowed flag |
| `Lending.LibraryItem.constructor` | script.js:2-7 | a new item has the given title and copies, is not borrowed and has no borrow date |
| `Lending.LibraryItem.NewBook` | script.js:50-54 | a new book carries author and ISBN as its kind, the given copies, not borrowed, no borrow date |
| `Lending.LibraryItem.BorrowItem` | script.js:17-23 | with copies available: one fewer copy, borrowed, borrow date recorded; otherwise nothing changes |
| `Lending.LibraryItem.ReturnItem` | script.js:25-32 | on a borrowed item: one more copy, not borrowed, fee computed from the dates passed in; otherwise nothing changes and the result is 0 |
| `Sequences.Find` | script.js:100 | the result is absent exactly when nothing matches, else it is the element at the first matching position |
| `Sequences.Filter` | script.js:104 | every kept element satisfies the predicate and comes from the input; every input element satisfying it is kept |
| `Sequences.FilterIsSubsequence` | script.js:104 | the filtered list is a subsequence of its input (order preserved) |
| `Text.ToLowerHasNoUpper` | script.js:110-111 | lower-casing keeps the length and leaves no upper-case ASCII letter |
| `Text.ToLowerIdempotent` | script.js:110-111 | lower-casing an already lower-cased string changes nothing |
| `Text.ToLowerCaseBlind` | script.js:110-111 | two strings that differ only in the case of ASCII letters lower-case to the same string |
| `Text.IncludesIff` | script.js:110-111 | `includes` holds exactly when the query occurs at some position of the text |
| `Catalog.GetBookByISBN` | script.js:99-101 | the result is absent exactly when no book has that ISBN, else it is a book with exactly that ISBN at the first such position |
| `Catalog.GetAllBooks` | script.js:103-105 | the result holds only books of the catalog and every book of the catalog |
| `Catalog.SearchBooks` | script.js:107-113 | the result holds only catalog books whose lower-cased title or author includes the lower-cased query, and all of them |
| `Catalog.AllBooksIsOrderedSelection` | script.js:103-105 | the books come out in insertion order, each occurrence of a book kept and no non-book kept |
| `Catalog.SearchWithinAllBooks` | script.js:107-113 | a search is a filter of the list of all books, hence an order-preserving subsequence of it |
| `Catalog.SearchEmptyQuery` | script.js:107-113 | the empty query returns all books |
| `Catalog.SearchIgnoresQueryCase` | script.js:110-111 | a query and its lower-cased form give the same result |
| `Catalog.SearchFindsIff` | script.js:107-113 | a catalog entry is in the result exactly when it is a book and the lower-cased query occurs in its lower-cased title or author |
| `Catalog.LookupFindsTheBook` | script.js:99-101 | with unique ISBNs, looking up a book's ISBN finds that book |
| `Catalog.AppendAbsentKeepsUnique` | script.js:177-182 | appending a book whose ISBN lookup finds nothing keeps ISBNs unique |
| `Catalog.AppendEffect` | script.js:83-85 | after an append, earlier lookups give the same answer, and the book list grows by the new item exactly when it is a book |
| `Catalog.Library.constructor` | script.js:79-81 | a new catalog is empty |
| `Catalog.Library.AddItem` | script.js:83-85 | the item is appended at the end and earlier items are unchanged |
| `Catalog.Library.ReturnBookByISBN` | script.js:115-135 | NotFound and nothing changed when no book has the ISBN; NotBorrowed and nothing changed when it is not borrowed; otherwise that book alone is returned and the fee is computed from a borrow date 28 days before `now` |
| `Catalog.Library.ReturnBookOnRecord` | script.js:115-135 | as `ReturnBookByISBN`, but the fee is computed from the borrow date the book recorded |
| `Catalog.AddBookIfNew` | script.js:173-184 | MissingField exactly when a field is empty or the copy count is not a number; DuplicateISBN exactly when a book with that ISBN exists; otherwise one new book with the given fields is appended; ISBN uniqueness is preserved |
| `Scenarios.DuneSession` | script.js:167-187 | adding "Dune" (2 copies), borrowing it 28 days ago and returning it costs 28; a second return reports NotBorrowed; searching "dune" finds it; adding ISBN "001" again is refused as a duplicate |
| `Scenarios.ReturnRightAfterBorrow` | script.js:119-122 | a book borrowed at `now` and returned at once is charged 28 by `returnBookByISBN` and 0 when charged from the recorded date |

## Findings

| source | as written | input that shows it | evidently intended | confidence | as-written member | corrected member |
|---|---|---|---|---|---|---|
| script.js:119-122 | the borrow date passed to the fee is always `now` less 28 days, so every return through the catalog costs 28, whatever `borrowItem` recorded | a book borrowed at `now` and returned at the same instant: charged 28 | charge from the `borrowedDate` stored on the item by `borrowItem` (0 in that case) | medium; not executed | `Catalog.Library.ReturnBookByISBN`, shown by `Scenarios.ReturnRightAfterBorrow` | `Catalog.Library.ReturnBookOnRecord`, used by `Scenarios.ReturnRightAfterBorrow` |

## Left out

- The browser shell: `updateOutput`, `showMainMenu`, the menu handlers `addBook`, `borrowBook`, `returnBook`, `listBooks`, `searchBooks` and `quit` (script.js:138-241); only the add-book checks (script.js:173-184) are modelled, as `AddBookIfNew`.
- `window.alert` messages and the `toFixed(2)` formatting in `returnBookByISBN`: the outcome is the value `NotFound`, `NotBorrowed` or `Returned(fee)`.
- Clock reads (`new Date()`): the current time is the parameter `now`.
- Calendar semantics of `Date.setDate` (daylight-saving shifts, month ends): a day is a fixed 86 400 000 ms.
- Unicode `toLowerCase`: only ASCII letters are lower-cased.
- `parseInt`/`isNaN`: the parsed copy count is an `Option<int>`, None for NaN.
- A cancelled `prompt` (a `null` title, author, ISBN or query) is not modelled; inputs are strings.
- JavaScript numbers are doubles; the model uses unbounded integers, which agree with them for every realistic timestamp and copy count.
- The getters `getTitle`, `getAuthor`, `getISBN`, `getAvailableCopies` and `getAllItems` return a field unchanged; the model reads the field.
- `getItemByISBN` (script.js:87-89) has the same body as `getBookByISBN` and `addBook` (script.js:95-97) the same as `addItem`; each pair is modelled once, by `GetBookByISBN` and `AddItem`.
- `calculateLateFees` is one rule, `LateFee`, for both `LibraryItem` and the `Book` override, whose bodies are identical.
- Catalog.Library.ReturnBookOnRecord: requires every catalog item to be consistent (borrowed only with a borrow date), which every constructor and method of `LibraryItem` maintains.
