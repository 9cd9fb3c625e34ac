/** The library aggregate: three ordered collections (books, members and the
    loan history) and the transitions that add to them, lend a book and take
    it back. Every transition is a pure function from the old library to a
    success flag and the new library; a failed transition returns the library
    it was given.

    ISBNs and member ids are not required to be unique: the C++ code never
    checks, so every property below holds with duplicates present. */
module Catalog {

  import opened Wrappers
  import opened Strings
  import opened Records

  datatype Library = Library(books: seq<Book>, members: seq<Member>, loans: seq<Loan>)

  /** A default-constructed library holds nothing. */
  const EmptyLibrary := Library([], [], [])

  // ------------------------------------------------------------ invariant

  /** At most one loan per ISBN is still out. */
  predicate AtMostOneActive(loans: seq<Loan>)
  {
    forall i, j :: 0 <= i < j < |loans| && loans[i].isbn == loans[j].isbn ==>
      loans[i].returned || loans[j].returned
  }

  /** Every loan in the history was built by the loan constructor, so its
      dates are in order. */
  predicate LoansValid(loans: seq<Loan>)
  {
    forall i :: 0 <= i < |loans| ==> ValidLoan(loans[i])
  }

  /** The invariant every reachable library keeps. */
  predicate Invariant(lib: Library)
  {
    LoansValid(lib.loans) && AtMostOneActive(lib.loans)
  }

  lemma EmptyLibraryInvariant()
    ensures Invariant(EmptyLibrary)
  {
  }

  // -------------------------------------------------------------- lookups

  /** The linear scans of `Library::hasBook` (by ISBN) and of the member
      loop in `Library::loanBook` (by member id): some element's `key` is
      `k`. */
  function AnyWithKey<T>(s: seq<T>, key: T -> string, k: string): (r: bool)
    ensures r <==> exists i :: 0 <= i < |s| && key(s[i]) == k
  {
    if |s| == 0 then false
    else if key(s[0]) == k then true
    else
      var r := AnyWithKey(s[1..], key, k);
      assert forall i :: 0 < i < |s| ==> s[i] == s[1..][i - 1];
      r
  }

  /** The loan scan of `Library::isBookAvailable`: no loan of `isbn` is
      still out. */
  function NoActiveLoanOf(loans: seq<Loan>, isbn: string): (r: bool)
    ensures r <==> forall i :: 0 <= i < |loans| && loans[i].isbn == isbn ==> loans[i].returned
  {
    if |loans| == 0 then true
    else if loans[0].isbn == isbn && !loans[0].returned then false
    else
      var r := NoActiveLoanOf(loans[1..], isbn);
      assert forall i :: 0 < i < |loans| ==> loans[i] == loans[1..][i - 1];
      r
  }

  /** `Library::hasBook`: some stored book has `isbn`. */
  function HasBook(lib: Library, isbn: string): (r: bool)
    ensures r <==> exists b :: b in lib.books && b.isbn == isbn
  {
    var r := AnyWithKey(lib.books, (b: Book) => b.isbn, isbn);
    assert r ==> exists i :: 0 <= i < |lib.books| && lib.books[i].isbn == isbn;
    r
  }

  /** The member check of `Library::loanBook`: some member has `memberId`. */
  function HasMember(lib: Library, memberId: string): (r: bool)
    ensures r <==> exists m :: m in lib.members && m.memberId == memberId
  {
    var r := AnyWithKey(lib.members, (m: Member) => m.memberId, memberId);
    assert r ==> exists i :: 0 <= i < |lib.members| && lib.members[i].memberId == memberId;
    r
  }

  /** `Library::isBookAvailable`: the book is known and no loan of it is
      out. An unknown ISBN is never available. */
  function IsBookAvailable(lib: Library, isbn: string): (r: bool)
    ensures r <==> (exists b :: b in lib.books && b.isbn == isbn) &&
                   (forall l :: l in lib.loans && l.isbn == isbn ==> l.returned)
  {
    var known := HasBook(lib, isbn);
    var free := NoActiveLoanOf(lib.loans, isbn);
    assert free <==> forall l :: l in lib.loans && l.isbn == isbn ==> l.returned;
    known && free
  }

  // ---------------------------------------------------------- transitions

  /** `Library::addBook`: appends a copy, without any uniqueness check. */
  function AddBook(lib: Library, b: Book): (r: Library)
    ensures r.books == lib.books + [b]
    ensures r.members == lib.members && r.loans == lib.loans
  {
    lib.(books := lib.books + [b])
  }

  /** `Library::addMember`: appends a copy, without any uniqueness check. */
  function AddMember(lib: Library, m: Member): (r: Library)
    ensures r.members == lib.members + [m]
    ensures r.books == lib.books && r.loans == lib.loans
  {
    lib.(members := lib.members + [m])
  }

  /** After `addBook(b)` exactly the ISBNs known before and `b`'s are known. */
  lemma AddBookHasBook(lib: Library, b: Book, isbn: string)
    ensures HasBook(AddBook(lib, b), isbn) <==> HasBook(lib, isbn) || isbn == b.isbn
  {
  }

  /** After `addMember(m)` exactly the ids known before and `m`'s are known. */
  lemma AddMemberKnown(lib: Library, m: Member, memberId: string)
    ensures HasMember(AddMember(lib, m), memberId) <==> HasMember(lib, memberId) || memberId == m.memberId
  {
    assert forall x :: x in AddMember(lib, m).members <==> x in lib.members || x == m;
  }

  /** `Library::loanBook`: succeeds exactly when the book is available and
      the member is known; it then appends one new, un-returned loan and
      leaves everything else alone. A failure changes nothing. */
  function LoanBook(lib: Library, isbn: string, memberId: string, start: string, due: string): (r: (bool, Library))
    ensures r.0 <==> IsBookAvailable(lib, isbn) &&
                     exists m :: m in lib.members && m.memberId == memberId
    ensures !r.0 ==> r.1 == lib
    ensures r.0 ==> r.1.books == lib.books && r.1.members == lib.members
    ensures r.0 ==> |r.1.loans| == |lib.loans| + 1 && r.1.loans[..|lib.loans|] == lib.loans
    ensures r.0 ==> var l := r.1.loans[|lib.loans|];
                    l.isbn == isbn && l.memberId == memberId && !l.returned &&
                    multiset{l.startDate, l.dueDate} == multiset{start, due}
    ensures r.0 ==> r.1.loans[|lib.loans|] == MakeLoan(isbn, memberId, start, due)
    ensures r.0 ==> ValidLoan(r.1.loans[|lib.loans|])
  {
    if !IsBookAvailable(lib, isbn) then (false, lib)
    else if !HasMember(lib, memberId) then (false, lib)
    else
      var loans := lib.loans + [MakeLoan(isbn, memberId, start, due)];
      assert loans[..|lib.loans|] == lib.loans;
      (true, lib.(loans := loans))
  }

  /** A loan that is still out and matches both ids. */
  predicate ActiveMatch(l: Loan, isbn: string, memberId: string)
  {
    l.isbn == isbn && l.memberId == memberId && !l.returned
  }

  /** The scan of `Library::returnBook`: the index of the first loan that
      is still out and matches both ids, if there is one. */
  function FirstActiveMatch(loans: seq<Loan>, isbn: string, memberId: string): (r: Option<nat>)
    ensures r.Some? ==> r.value < |loans| && ActiveMatch(loans[r.value], isbn, memberId)
    ensures r.Some? ==> forall j :: 0 <= j < r.value ==> !ActiveMatch(loans[j], isbn, memberId)
    ensures r.None? <==> forall j :: 0 <= j < |loans| ==> !ActiveMatch(loans[j], isbn, memberId)
  {
    if |loans| == 0 then None
    else if ActiveMatch(loans[0], isbn, memberId) then Some(0)
    else
      var rest := FirstActiveMatch(loans[1..], isbn, memberId);
      assert forall i :: 0 < i < |loans| ==> loans[i] == loans[1..][i - 1];
      match rest
      case None => None
      case Some(k) => Some(k + 1)
  }

  /** `Library::returnBook`: succeeds exactly when some loan that is still
      out matches both ids; it then marks the first such loan returned and
      changes nothing else. A failure changes nothing. */
  function ReturnBook(lib: Library, isbn: string, memberId: string): (r: (bool, Library))
    ensures r.0 <==> exists l :: l in lib.loans && ActiveMatch(l, isbn, memberId)
    ensures !r.0 ==> r.1 == lib
    ensures r.1.books == lib.books && r.1.members == lib.members
    ensures |r.1.loans| == |lib.loans|
    ensures r.0 ==> exists i :: 0 <= i < |lib.loans| &&
                      ActiveMatch(lib.loans[i], isbn, memberId) &&
                      (forall j :: 0 <= j < i ==> !ActiveMatch(lib.loans[j], isbn, memberId)) &&
                      r.1.loans == lib.loans[i := MarkReturned(lib.loans[i])]
  {
    match FirstActiveMatch(lib.loans, isbn, memberId)
    case None => (false, lib)
    case Some(i) => (true, lib.(loans := lib.loans[i := MarkReturned(lib.loans[i])]))
  }

  // --------------------------------------------------------------- search

  /** The test of `Library::findByAuthor`: the author's name contains `s`. */
  predicate ByAuthor(b: Book, s: string)
  {
    Contains(b.author.name, s)
  }

  /** `Library::findByAuthor` on a sequence of books: the books whose
      author's name contains `s`, in collection order. */
  function FilterByAuthor(books: seq<Book>, s: string): (r: seq<Book>)
    ensures |r| <= |books|
    ensures forall b :: b in r <==> b in books && ByAuthor(b, s)
  {
    if |books| == 0 then []
    else
      var rest := FilterByAuthor(books[1..], s);
      assert forall b :: b in books <==> b == books[0] || b in books[1..];
      if ByAuthor(books[0], s) then [books[0]] + rest else rest
  }

  /** `Library::findByAuthor`: the library itself is not changed (it is a
      value), and the result holds exactly the matching books. */
  function FindByAuthor(lib: Library, s: string): (r: seq<Book>)
    ensures |r| <= |lib.books|
    ensures forall b :: b in r <==> b in lib.books && ByAuthor(b, s)
  {
    FilterByAuthor(lib.books, s)
  }

  /** `a` can be obtained from `b` by deleting elements. */
  predicate IsSubsequence<T(==)>(a: seq<T>, b: seq<T>)
    decreases |b|
  {
    if |a| == 0 then true
    else if |b| == 0 then false
    else if a[0] == b[0] then IsSubsequence(a[1..], b[1..])
    else IsSubsequence(a, b[1..])
  }

  /** The search keeps the collection order: its result is a subsequence
      of the books. */
  lemma {:induction false} FilterByAuthorIsSubsequence(books: seq<Book>, s: string)
    ensures IsSubsequence(FilterByAuthor(books, s), books)
  {
    if |books| > 0 {
      FilterByAuthorIsSubsequence(books[1..], s);
      var rest := FilterByAuthor(books[1..], s);
      if ByAuthor(books[0], s) {
        assert ([books[0]] + rest)[1..] == rest;
      } else {
        SubsequenceOfTail(rest, books);
      }
    }
  }

  /** A subsequence of the tail of `b` is a subsequence of `b`. */
  lemma SubsequenceOfTail<T>(a: seq<T>, b: seq<T>)
    requires |b| > 0 && IsSubsequence(a, b[1..])
    ensures IsSubsequence(a, b)
    decreases |b|, 0
  {
    if |a| > 0 && a[0] == b[0] {
      SubsequenceDropHead(a, b[1..]);
    }
  }

  /** Dropping the head of a subsequence keeps it a subsequence. */
  lemma SubsequenceDropHead<T>(a: seq<T>, c: seq<T>)
    requires |a| > 0 && IsSubsequence(a, c)
    ensures IsSubsequence(a[1..], c)
    decreases |c|, 1
  {
    if a[0] != c[0] {
      SubsequenceDropHead(a, c[1..]);
    }
    SubsequenceOfTail(a[1..], c);
  }

  /** Searching a concatenation searches each part in turn, so every
      matching book keeps its place relative to the others. */
  lemma {:induction false} FilterByAuthorAppend(a: seq<Book>, b: seq<Book>, s: string)
    ensures FilterByAuthor(a + b, s) == FilterByAuthor(a, s) + FilterByAuthor(b, s)
  {
    if |a| == 0 {
      assert a + b == b;
    } else {
      assert (a + b)[1..] == a[1..] + b;
      FilterByAuthorAppend(a[1..], b, s);
    }
  }

  /** Searching the result of a search again changes nothing. */
  lemma {:induction false} FilterByAuthorIdempotent(books: seq<Book>, s: string)
    ensures FilterByAuthor(FilterByAuthor(books, s), s) == FilterByAuthor(books, s)
  {
    if |books| > 0 {
      FilterByAuthorIdempotent(books[1..], s);
      var rest := FilterByAuthor(books[1..], s);
      if ByAuthor(books[0], s) {
        assert ([books[0]] + rest)[1..] == rest;
      }
    }
  }

  // -------------------------------------------------------------- summary

  /** The active-loan count of `Library::to_string`: the loans still out. */
  function ActiveLoanCount(loans: seq<Loan>): (r: nat)
    ensures r <= |loans|
    ensures r == 0 <==> forall i :: 0 <= i < |loans| ==> loans[i].returned
    ensures r == |loans| <==> forall i :: 0 <= i < |loans| ==> !loans[i].returned
  {
    if |loans| == 0 then 0
    else
      var rest := ActiveLoanCount(loans[1..]);
      assert forall i :: 0 < i < |loans| ==> loans[i] == loans[1..][i - 1];
      (if loans[0].returned then 0 else 1) + rest
  }

  lemma {:induction false} ActiveLoanCountAppend(a: seq<Loan>, b: seq<Loan>)
    ensures ActiveLoanCount(a + b) == ActiveLoanCount(a) + ActiveLoanCount(b)
  {
    if |a| == 0 {
      assert a + b == b;
    } else {
      assert (a + b)[1..] == a[1..] + b;
      ActiveLoanCountAppend(a[1..], b);
    }
  }

  /** Marking a loan that is out as returned lowers the count by one. */
  lemma {:induction false} ActiveLoanCountMark(loans: seq<Loan>, i: nat)
    requires i < |loans| && !loans[i].returned
    ensures ActiveLoanCount(loans[i := MarkReturned(loans[i])]) == ActiveLoanCount(loans) - 1
  {
    var after := loans[i := MarkReturned(loans[i])];
    if i == 0 {
      assert after[1..] == loans[1..];
    } else {
      assert after[1..] == loans[1..][i - 1 := MarkReturned(loans[i])];
      ActiveLoanCountMark(loans[1..], i - 1);
    }
  }

}
