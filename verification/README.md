# Library bookkeeping, modelled in Dafny

A model of the in-memory library catalogue of `LibrarySystem.cpp`: authors,
books, members and loans, and the `Library` aggregate that lends books to
members and takes them back. The C++ classes become immutable datatypes; each
mutating member function becomes a pure function from the old value to the new
one, and `loanBook`/`returnBook` return their success flag together with the
new library (a failed call returns the library unchanged).

Modules, one per component:

- `Strings` (`strings.dfy`): the order of `std::string` (`<`, `>`), which is
  lexicographic — Dafny's `<` on sequences means "proper prefix", so it is
  defined here as `LexLess` and proved a strict total order — and
  `std::string::find`, used by the author search.
- `Records` (`records.dfy`): `Author`, `Book`, `Member`, `Loan` and their
  validation: birth year outside [1850, 2025] becomes 1900, book year outside
  (0, 2025] becomes 2000, a negative price becomes 0, an empty member id
  becomes `"UNKNOWN"`, loan dates out of order are swapped; `markReturned` and
  `isOverdue`.
- `Catalog` (`library.dfy`): the `Library` record of three sequences and its
  operations `addBook`, `addMember`, `hasBook`, `isBookAvailable`, `loanBook`,
  `returnBook`, `findByAuthor` and the active-loan count of the summary. Each
  linear scan of the C++ code is a recursive function whose contract states
  what the scan finds in terms of the whole sequence.
- `LoanInvariant` (`invariant.dfy`): the invariant "at most one un-returned
  loan per ISBN, and every loan's start date is not after its due date", its
  preservation by every operation and by any sequence of calls from an empty
  library, and the availability/return facts that follow.
- `Demo` (`demo.dfy`): the scenario of the demonstration program as lemmas.
- `Wrappers` (`wrappers.dfy`): the `Option` type the scans return.

ISBNs and member ids are not unique: `addBook` and `addMember` never check, so
no property here assumes uniqueness.

Two behaviours of the C++ to note: an out-of-range author birth
year is replaced by 1900, not clamped to the nearest bound
(LibrarySystem.cpp:18-26), and `loanBook`/`returnBook` report only a `bool`,
not a failure reason (LibrarySystem.cpp:188-219).

## Model

| member | source | states |
|---|---|---|
| Strings.LexLess | LibrarySystem.cpp:137 | the `std::string` `<` used on dates; two strings it relates are never equal |
| Strings.LexLessEq | LibrarySystem.cpp:137-139 | the `<=` relation the loan constructor establishes; reflexive and implied by `<` |
| Strings.LexLessProperPrefix | LibrarySystem.cpp:137 | a proper prefix sorts before the string it begins |
| Strings.LexLessExtend | LibrarySystem.cpp:137 | every string sorts before itself with one character appended |
| Strings.LexLessCases | LibrarySystem.cpp:137 | if `a < b` then `a` is a proper prefix of `b` or the first differing character of `a` is smaller |
| Strings.LexLessIsLexicographic | LibrarySystem.cpp:137 | `a < b` holds exactly when `a` is a proper prefix of `b` or its first differing character is smaller, the lexicographic order of `std::string` |
| Strings.LexLessIrreflexive | LibrarySystem.cpp:137 | no date string sorts before itself |
| Strings.LexLessAsymmetric | LibrarySystem.cpp:137-139 | two dates are never each before the other, so the swap in the loan constructor leaves them in order |
| Strings.LexLessTransitive | LibrarySystem.cpp:145-147 | the date order is transitive |
| Strings.LexLessTotal | LibrarySystem.cpp:137-139 | any two different dates are ordered one way or the other (strict total order) |
| Strings.LexLessEqTotal | LibrarySystem.cpp:137-139 | for any two dates one is not after the other |
| Strings.LexLessCommonPrefix | LibrarySystem.cpp:137 | strings sharing a prefix are ordered by the first differing character |
| Strings.FindFrom | LibrarySystem.cpp:224 | `find` returns the first position at or after the start where the pattern occurs, or nothing when it occurs nowhere there |
| Strings.Contains | LibrarySystem.cpp:224 | `find(...) != npos` holds iff the pattern occurs as a contiguous substring at some position |
| Strings.ContainsEmpty | LibrarySystem.cpp:224 | the empty pattern is found in every name |
| Strings.ContainsNeedsFirstChar | LibrarySystem.cpp:224 | a pattern whose first character is absent from the text is not found |
| Records.SetBirthYear | LibrarySystem.cpp:18-26 | the stored year equals the given one iff it lies in [1850, 2025], otherwise it is 1900; the result always lies in range and the name is kept |
| Records.MakeAuthor | LibrarySystem.cpp:11-13 | a constructed author keeps the name and has a valid birth year, the given one exactly when it is in range |
| Records.MakeAuthorRoundTrip | LibrarySystem.cpp:11-26 | rebuilding a valid author from its fields gives the same author |
| Records.SetBirthYearIdempotent | LibrarySystem.cpp:18-26 | re-validating an already validated year changes nothing |
| Records.SetYear | LibrarySystem.cpp:93-96 | the stored year equals the given one iff it lies in (0, 2025], otherwise it is 2000; only the year changes |
| Records.SetPrice | LibrarySystem.cpp:88-91 | the stored price equals the given one iff it is non-negative, otherwise 0; only the price changes |
| Records.MakeBook | LibrarySystem.cpp:43-48 | a constructed book is valid, keeps title, author and ISBN, keeps year and price exactly when they are acceptable, and otherwise stores year 2000 and price 0 |
| Records.MakeBookRoundTrip | LibrarySystem.cpp:43-48 | rebuilding a valid book from its fields gives the same book |
| Records.SetYearSetPriceIdempotent | LibrarySystem.cpp:88-96 | re-validating a stored year or price changes nothing |
| Records.MakeMember | LibrarySystem.cpp:118-122 | a constructed member never has an empty id: an empty id becomes "UNKNOWN", any other is kept |
| Records.MakeMemberRoundTrip | LibrarySystem.cpp:118-122 | rebuilding a member with a non-empty id gives the same member |
| Records.MakeLoan | LibrarySystem.cpp:133-141 | a new loan is not returned, its start is not after its due date, and {start, due} is the given pair as a multiset, swapped only when due sorts before start |
| Records.MakeLoanRoundTrip | LibrarySystem.cpp:133-141 | dates already in order are never swapped |
| Records.MakeLoanSymmetric | LibrarySystem.cpp:137-140 | giving the two dates in either order builds the same loan |
| Records.MarkReturned | LibrarySystem.cpp:143 | marking sets the returned flag and changes no other field |
| Records.MarkReturnedIdempotent | LibrarySystem.cpp:143 | marking twice equals marking once |
| Records.IsOverdue | LibrarySystem.cpp:145-147 | an overdue loan is not returned and is never overdue on its own due date |
| Records.OverdueStaysOverdue | LibrarySystem.cpp:145-147 | a loan overdue today is overdue on every later day |
| Records.OverdueAfterStart | LibrarySystem.cpp:133-147 | a valid overdue loan is overdue strictly after its start date |
| Records.ReturnedNeverOverdue | LibrarySystem.cpp:143-147 | a returned loan is never overdue |
| Records.NotOverdueOnDueDate | LibrarySystem.cpp:145-147 | on the due date itself a loan is not overdue |
| Catalog.EmptyLibraryInvariant | LibrarySystem.h:104-106 | an empty library satisfies the loan invariant |
| Catalog.AnyWithKey | LibrarySystem.cpp:170-175 | the linear scan (over books by ISBN, or members by id) returns true iff some element carries the key |
| Catalog.HasBook | LibrarySystem.cpp:170-175 | `hasBook` holds iff some stored book has that ISBN |
| Catalog.HasMember | LibrarySystem.cpp:194-200 | the member check of `loanBook` holds iff some stored member has that id |
| Catalog.NoActiveLoanOf | LibrarySystem.cpp:180-185 | the loan scan passes iff every loan of that ISBN is returned |
| Catalog.IsBookAvailable | LibrarySystem.cpp:177-186 | available iff some book has the ISBN and no loan of it is un-returned; an unknown ISBN is never available |
| Catalog.AddBook | LibrarySystem.cpp:162-164 | the book is appended; members and loans are untouched |
| Catalog.AddBookHasBook | LibrarySystem.cpp:162-175 | after adding a book exactly the previously known ISBNs and the new book's ISBN are known |
| Catalog.AddMember | LibrarySystem.cpp:166-168 | the member is appended; books and loans are untouched |
| Catalog.AddMemberKnown | LibrarySystem.cpp:166-200 | after adding a member exactly the previously known ids and the new id are known |
| Catalog.LoanBook | LibrarySystem.cpp:188-208 | succeeds iff the book is available and some member has the id; on success books and members are unchanged, earlier loans are untouched and exactly one un-returned loan is appended, the one the loan constructor builds from the given ids and dates (so its dates are in order); on failure nothing changes |
| Catalog.FirstActiveMatch | LibrarySystem.cpp:211-216 | returns the least index of an un-returned loan matching both ids, or nothing iff no loan matches |
| Catalog.ReturnBook | LibrarySystem.cpp:210-219 | succeeds iff some un-returned loan matches both ids; on success only the first such loan is marked returned and nothing else changes; the number of loans never changes; on failure nothing changes |
| Catalog.FilterByAuthor | LibrarySystem.cpp:221-229 | the result holds exactly the books whose author name contains the pattern, and is no longer than the collection |
| Catalog.FindByAuthor | LibrarySystem.cpp:221-229 | the search returns exactly the matching books of the library |
| Catalog.FilterByAuthorIsSubsequence | LibrarySystem.cpp:221-229 | the search result is a subsequence of the collection (collection order is kept) |
| Catalog.FilterByAuthorAppend | LibrarySystem.cpp:223-227 | searching a concatenation is the concatenation of the searches, so each match keeps its place |
| Catalog.FilterByAuthorIdempotent | LibrarySystem.cpp:221-229 | searching a search result again returns it unchanged |
| Catalog.ActiveLoanCount | LibrarySystem.cpp:232-235 | the active count is at most the number of loans, zero iff every loan is returned, and equal to it iff none is |
| Catalog.ActiveLoanCountAppend | LibrarySystem.cpp:232-235 | the active count of a concatenation is the sum of the counts |
| Catalog.ActiveLoanCountMark | LibrarySystem.cpp:232-235 | marking an un-returned loan returned lowers the active count by one |
| LoanInvariant.AddBookPreservesInvariant | LibrarySystem.cpp:162-164 | adding a book keeps the loan invariant |
| LoanInvariant.AddMemberPreservesInvariant | LibrarySystem.cpp:166-168 | adding a member keeps the loan invariant |
| LoanInvariant.LoanBookPreservesInvariant | LibrarySystem.cpp:188-208 | lending keeps at most one un-returned loan per ISBN and keeps every loan's dates in order |
| LoanInvariant.ReturnBookPreservesInvariant | LibrarySystem.cpp:210-219 | returning keeps the loan invariant |
| LoanInvariant.ApplyPreservesInvariant | LibrarySystem.cpp:162-219 | every public operation keeps the loan invariant |
| LoanInvariant.RunPreservesInvariant | LibrarySystem.cpp:162-219 | any sequence of operations keeps the loan invariant |
| LoanInvariant.ReachableInvariant | LibrarySystem.h:102-121 | every library reachable from an empty one has at most one un-returned loan per ISBN |
| LoanInvariant.ApplyKeepsHistory | LibrarySystem.cpp:206-213 | the loan history only grows; no operation alters an earlier loan's ids or reopens a returned loan |
| LoanInvariant.LoanMakesUnavailable | LibrarySystem.cpp:177-208 | right after a successful loan the book is not available |
| LoanInvariant.NoDoubleLoan | LibrarySystem.cpp:188-192 | a second loan of a lent book fails for any member and changes nothing |
| LoanInvariant.ReturnMakesAvailable | LibrarySystem.cpp:177-219 | under the invariant, a successful return of a known book makes it available again |
| LoanInvariant.SecondReturnFails | LibrarySystem.cpp:210-219 | under the invariant, returning the same pair twice fails the second time and changes nothing |
| LoanInvariant.ReturnNeedsBorrower | LibrarySystem.cpp:212 | a book out on loan to one member cannot be returned under another member's id |
| LoanInvariant.LoanBookActiveCount | LibrarySystem.cpp:206 | a successful loan raises the active-loan count by one |
| LoanInvariant.ReturnBookActiveCount | LibrarySystem.cpp:213 | a successful return lowers the active-loan count by one |
| Demo.Stocked | main.cpp:10-25 | the demonstration library holds the three books in insertion order, members M001 and M002, and no loans |
| Demo.FirstLoanSucceeds | main.cpp:29-30 | lending ISBN-001 to M001 succeeds and records the loan with its dates unswapped |
| Demo.SecondLoanRefused | main.cpp:32-35 | lending ISBN-001 to M002 then fails without change, and ISBN-001 is not available |
| Demo.ReturnSucceeds | main.cpp:38-40 | returning ISBN-001 from M001 succeeds and ISBN-001 is available again |
| Demo.LoanReturnScenario | main.cpp:29-40 | the whole loan/refusal/return exchange yields true, false, false, true, true |
| Demo.VazovMatches | main.cpp:43 | both Ivan Vazov books match "Vazov" |
| Demo.AlekoDoesNotMatch | main.cpp:43 | the Aleko Konstantinov book does not match "Vazov" |
| Demo.SearchScenario | main.cpp:43 | searching for "Vazov" returns exactly the two Ivan Vazov books, in insertion order |

## Left out

- `Book::totalBooks` and `getTotalBooks`, and the copy/move constructors, destructor and assignment operators: C++ object-lifetime bookkeeping with no effect on library behaviour; Dafny values have no lifetime.
- All `to_string` formatting and every diagnostic written to `std::cerr`: display output only. The active-loan count inside `Library::to_string` is modelled as `ActiveLoanCount`.
- Book prices are C++ `double`s; they are modelled as real numbers, so NaN (which the C++ test `newPrice >= 0` sends to 0.0) and rounding are not modelled.
- Years are C++ `int`s; the model uses unbounded integers, which is exact because every year the code stores is either an input value or a constant in range.
- Each byte of a `std::string` is modelled by the character of the same unsigned value; no encoding is involved.
- Getters (`getName`, `getIsbn`, `getMemberId`, `isReturned`, ...) are the datatypes' fields; the default constructors are the constants `DefaultAuthor`, `DefaultBook`, `DefaultMember` and `EmptyLibrary`.
- Records.IsOverdue: its contract states only consequences of being overdue (not returned, not on the due date); the full "not returned and today after the due date" reading is its definition, and the further facts are the lemmas `ReturnedNeverOverdue`, `OverdueStaysOverdue`, `OverdueAfterStart` and `NotOverdueOnDueDate`.
- main.cpp as code: console output and the copy-scope test; its scenario appears only as the `Demo` lemmas.
