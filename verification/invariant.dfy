/** Properties of the library's transitions: the invariant "at most one loan
    per ISBN is out" (with every loan's dates in order) holds of the empty
    library and is kept by every transition, hence by every sequence of
    calls; and the availability, return and active-count facts that follow. */
module LoanInvariant {

  import opened Strings
  import opened Records
  import opened Catalog

  /** `Library::addBook` keeps the invariant. */
  lemma AddBookPreservesInvariant(lib: Library, b: Book)
    requires Invariant(lib)
    ensures Invariant(AddBook(lib, b))
  {
  }

  /** `Library::addMember` keeps the invariant. */
  lemma AddMemberPreservesInvariant(lib: Library, m: Member)
    requires Invariant(lib)
    ensures Invariant(AddMember(lib, m))
  {
  }

  /** `Library::loanBook` keeps the invariant: it appends a loan only when
      no loan of that ISBN is out. */
  lemma LoanBookPreservesInvariant(lib: Library, isbn: string, memberId: string, start: string, due: string)
    requires Invariant(lib)
    ensures Invariant(LoanBook(lib, isbn, memberId, start, due).1)
  {
  }

  /** `Library::returnBook` keeps the invariant: it only sets one flag. */
  lemma ReturnBookPreservesInvariant(lib: Library, isbn: string, memberId: string)
    requires Invariant(lib)
    ensures Invariant(ReturnBook(lib, isbn, memberId).1)
  {
  }

  /** A call on the library's public surface. */
  datatype Call =
    | AddBookCall(book: Book)
    | AddMemberCall(member: Member)
    | LoanBookCall(isbn: string, memberId: string, start: string, due: string)
    | ReturnBookCall(isbn: string, memberId: string)

  /** The library after one call; the success flag is dropped. */
  function Apply(lib: Library, c: Call): Library
  {
    match c
    case AddBookCall(b) => AddBook(lib, b)
    case AddMemberCall(m) => AddMember(lib, m)
    case LoanBookCall(isbn, id, start, due) => LoanBook(lib, isbn, id, start, due).1
    case ReturnBookCall(isbn, id) => ReturnBook(lib, isbn, id).1
  }

  /** The library after a sequence of calls, first call first. */
  function Run(lib: Library, calls: seq<Call>): Library
    decreases |calls|
  {
    if |calls| == 0 then lib else Run(Apply(lib, calls[0]), calls[1..])
  }

  lemma ApplyPreservesInvariant(lib: Library, c: Call)
    requires Invariant(lib)
    ensures Invariant(Apply(lib, c))
  {
    match c
    case AddBookCall(b) => AddBookPreservesInvariant(lib, b);
    case AddMemberCall(m) => AddMemberPreservesInvariant(lib, m);
    case LoanBookCall(isbn, id, start, due) => LoanBookPreservesInvariant(lib, isbn, id, start, due);
    case ReturnBookCall(isbn, id) => ReturnBookPreservesInvariant(lib, isbn, id);
  }

  /** Every library reachable from an empty one keeps the invariant. */
  lemma {:induction false} RunPreservesInvariant(lib: Library, calls: seq<Call>)
    requires Invariant(lib)
    ensures Invariant(Run(lib, calls))
    decreases |calls|
  {
    if |calls| > 0 {
      ApplyPreservesInvariant(lib, calls[0]);
      RunPreservesInvariant(Apply(lib, calls[0]), calls[1..]);
    }
  }

  lemma ReachableInvariant(calls: seq<Call>)
    ensures Invariant(Run(EmptyLibrary, calls))
  {
    EmptyLibraryInvariant();
    RunPreservesInvariant(EmptyLibrary, calls);
  }

  /** The loan history never shrinks and never loses an entry's identity:
      every call keeps the old loans' ISBNs and member ids in place. */
  lemma ApplyKeepsHistory(lib: Library, c: Call)
    ensures |Apply(lib, c).loans| >= |lib.loans|
    ensures forall i :: 0 <= i < |lib.loans| ==>
      Apply(lib, c).loans[i].isbn == lib.loans[i].isbn &&
      Apply(lib, c).loans[i].memberId == lib.loans[i].memberId &&
      (lib.loans[i].returned ==> Apply(lib, c).loans[i] == lib.loans[i])
  {
  }

  /** After a successful loan the book is no longer available. */
  lemma LoanMakesUnavailable(lib: Library, isbn: string, memberId: string, start: string, due: string)
    requires LoanBook(lib, isbn, memberId, start, due).0
    ensures !IsBookAvailable(LoanBook(lib, isbn, memberId, start, due).1, isbn)
  {
  }

  /** A book on loan cannot be lent again, to anyone. */
  lemma NoDoubleLoan(lib: Library, isbn: string, m1: string, s1: string, d1: string,
                     m2: string, s2: string, d2: string)
    requires LoanBook(lib, isbn, m1, s1, d1).0
    ensures LoanBook(LoanBook(lib, isbn, m1, s1, d1).1, isbn, m2, s2, d2)
      == (false, LoanBook(lib, isbn, m1, s1, d1).1)
  {
  }

  /** Under the invariant, a successful return of a known book makes it
      available again, since the loan it closed was the only one out. */
  lemma ReturnMakesAvailable(lib: Library, isbn: string, memberId: string)
    requires Invariant(lib) && HasBook(lib, isbn)
    requires ReturnBook(lib, isbn, memberId).0
    ensures IsBookAvailable(ReturnBook(lib, isbn, memberId).1, isbn)
  {
  }

  /** Under the invariant, returning the same book for the same member a
      second time fails and changes nothing. */
  lemma SecondReturnFails(lib: Library, isbn: string, memberId: string)
    requires Invariant(lib)
    requires ReturnBook(lib, isbn, memberId).0
    ensures ReturnBook(ReturnBook(lib, isbn, memberId).1, isbn, memberId)
      == (false, ReturnBook(lib, isbn, memberId).1)
  {
  }

  /** A loan held by one member cannot be returned under another id. */
  lemma ReturnNeedsBorrower(lib: Library, isbn: string, memberId: string)
    requires forall l :: l in lib.loans && l.isbn == isbn && !l.returned ==> l.memberId != memberId
    ensures ReturnBook(lib, isbn, memberId) == (false, lib)
  {
  }

  /** A successful loan adds one to the active-loan count. */
  lemma LoanBookActiveCount(lib: Library, isbn: string, memberId: string, start: string, due: string)
    requires LoanBook(lib, isbn, memberId, start, due).0
    ensures ActiveLoanCount(LoanBook(lib, isbn, memberId, start, due).1.loans) == ActiveLoanCount(lib.loans) + 1
  {
    var after := LoanBook(lib, isbn, memberId, start, due).1;
    assert after.loans == lib.loans + [after.loans[|lib.loans|]];
    ActiveLoanCountAppend(lib.loans, [after.loans[|lib.loans|]]);
  }

  /** A successful return takes one from the active-loan count. */
  lemma ReturnBookActiveCount(lib: Library, isbn: string, memberId: string)
    requires ReturnBook(lib, isbn, memberId).0
    ensures ActiveLoanCount(ReturnBook(lib, isbn, memberId).1.loans) == ActiveLoanCount(lib.loans) - 1
  {
    var after := ReturnBook(lib, isbn, memberId).1;
    var i :| 0 <= i < |lib.loans| && ActiveMatch(lib.loans[i], isbn, memberId) &&
             after.loans == lib.loans[i := MarkReturned(lib.loans[i])];
    ActiveLoanCountMark(lib.loans, i);
  }

}
