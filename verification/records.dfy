/** The leaf records of the library: authors, books, members and loans,
    with the validation each one applies when it is built. Invalid input is
    never rejected: years and prices are clamped to a default and loan dates
    are put in order. The C++ warnings printed on the way are not modelled. */
module Records {

  import opened Strings

  // ---------------------------------------------------------------- Author

  datatype Author = Author(name: string, birthYear: int)

  const MinBirthYear := 1850
  const MaxBirthYear := 2025
  const DefaultBirthYear := 1900

  /** `Author()`: the author used when none is given. */
  const DefaultAuthor := Author("Unknown", DefaultBirthYear)

  predicate ValidAuthor(a: Author)
  {
    MinBirthYear <= a.birthYear <= MaxBirthYear
  }

  /** `Author::setBirthYear`: an accepted year is stored as given, any other
      year is replaced by 1900; only the birth year changes. */
  function SetBirthYear(a: Author, year: int): (r: Author)
    ensures ValidAuthor(r)
    ensures r.name == a.name
    ensures r.birthYear == year <==> MinBirthYear <= year <= MaxBirthYear
    ensures r.birthYear != year ==> r.birthYear == DefaultBirthYear
  {
    if MinBirthYear <= year <= MaxBirthYear then a.(birthYear := year)
    else a.(birthYear := DefaultBirthYear)
  }

  /** `Author(name, birthYear)`: keeps the name and validates the year. */
  function MakeAuthor(name: string, birthYear: int): (r: Author)
    ensures ValidAuthor(r)
    ensures r.name == name
    ensures r.birthYear == birthYear <==> MinBirthYear <= birthYear <= MaxBirthYear
    ensures r.birthYear != birthYear ==> r.birthYear == DefaultBirthYear
  {
    SetBirthYear(Author(name, DefaultBirthYear), birthYear)
  }

  /** Rebuilding a valid author from its fields gives it back. */
  lemma MakeAuthorRoundTrip(a: Author)
    requires ValidAuthor(a)
    ensures MakeAuthor(a.name, a.birthYear) == a
  {
  }

  /** Validation is a projection: re-validating the stored year changes nothing. */
  lemma SetBirthYearIdempotent(a: Author, year: int)
    ensures var r := SetBirthYear(a, year); SetBirthYear(r, r.birthYear) == r
  {
  }

  // ------------------------------------------------------------------ Book

  /** A book owns a copy of its author. The price is a C++ `double`; it is
      modelled as a real number. */
  datatype Book = Book(title: string, author: Author, year: int, price: real, isbn: string)

  const MaxBookYear := 2025
  const DefaultBookYear := 2000

  /** `Book()`: the book used when none is given. */
  const DefaultBook := Book("Untitled", DefaultAuthor, DefaultBookYear, 0.0, "000-000")

  predicate ValidBook(b: Book)
  {
    ValidAuthor(b.author) && 0 < b.year <= MaxBookYear && b.price >= 0.0
  }

  /** `Book::setYear`: a year in (0, 2025] is stored as given, any other
      year is replaced by 2000; only the year changes. */
  function SetYear(b: Book, year: int): (r: Book)
    ensures 0 < r.year <= MaxBookYear
    ensures r == b.(year := r.year)
    ensures r.year == year <==> 0 < year <= MaxBookYear
    ensures r.year != year ==> r.year == DefaultBookYear
  {
    if 0 < year <= MaxBookYear then b.(year := year)
    else b.(year := DefaultBookYear)
  }

  /** `Book::setPrice`: a non-negative price is stored as given, a negative
      one becomes 0; only the price changes. */
  function SetPrice(b: Book, price: real): (r: Book)
    ensures r.price >= 0.0
    ensures r == b.(price := r.price)
    ensures r.price == price <==> price >= 0.0
    ensures r.price != price ==> r.price == 0.0
  {
    if price >= 0.0 then b.(price := price)
    else b.(price := 0.0)
  }

  /** `Book(title, author, year, price, isbn)`: stores title, author and
      ISBN as given and validates year and price. */
  function MakeBook(title: string, author: Author, year: int, price: real, isbn: string): (r: Book)
    requires ValidAuthor(author)
    ensures ValidBook(r)
    ensures r.title == title && r.author == author && r.isbn == isbn
    ensures r.year == year <==> 0 < year <= MaxBookYear
    ensures r.year != year ==> r.year == DefaultBookYear
    ensures r.price == price <==> price >= 0.0
    ensures r.price != price ==> r.price == 0.0
  {
    SetPrice(SetYear(Book(title, author, DefaultBookYear, 0.0, isbn), year), price)
  }

  /** Rebuilding a valid book from its fields gives it back. */
  lemma MakeBookRoundTrip(b: Book)
    requires ValidBook(b)
    ensures MakeBook(b.title, b.author, b.year, b.price, b.isbn) == b
  {
  }

  /** Re-validating the stored year or price changes nothing. */
  lemma SetYearSetPriceIdempotent(b: Book, year: int, price: real)
    ensures var r := SetYear(b, year); SetYear(r, r.year) == r
    ensures var r := SetPrice(b, price); SetPrice(r, r.price) == r
  {
  }

  // ---------------------------------------------------------------- Member

  datatype Member = Member(name: string, memberId: string, yearJoined: int)

  const UnknownMemberId := "UNKNOWN"

  /** `Member()`: the guest member. */
  const DefaultMember := Member("Guest", "G000", 2024)

  predicate ValidMember(m: Member)
  {
    |m.memberId| > 0
  }

  /** `Member(name, memberId, yearJoined)`: an empty id becomes "UNKNOWN",
      any other id is kept; name and year are stored unchecked. */
  function MakeMember(name: string, memberId: string, yearJoined: int): (r: Member)
    ensures ValidMember(r)
    ensures r.name == name && r.yearJoined == yearJoined
    ensures memberId != [] ==> r.memberId == memberId
    ensures memberId == [] ==> r.memberId == UnknownMemberId
  {
    Member(name, if memberId != [] then memberId else UnknownMemberId, yearJoined)
  }

  /** Rebuilding a valid member from its fields gives it back. */
  lemma MakeMemberRoundTrip(m: Member)
    requires ValidMember(m)
    ensures MakeMember(m.name, m.memberId, m.yearJoined) == m
  {
  }

  // ------------------------------------------------------------------ Loan

  /** A loan refers to a book by ISBN and to a member by id; it owns neither. */
  datatype Loan = Loan(isbn: string, memberId: string, startDate: string, dueDate: string, returned: bool)

  /** The start date is not after the due date. */
  predicate ValidLoan(l: Loan)
  {
    LexLessEq(l.startDate, l.dueDate)
  }

  /** `Loan(isbn, memberId, startDate, dueDate)`: a new, un-returned loan;
      when the due date sorts before the start date the two are swapped. */
  function MakeLoan(isbn: string, memberId: string, startDate: string, dueDate: string): (r: Loan)
    ensures ValidLoan(r)
    ensures !r.returned
    ensures r.isbn == isbn && r.memberId == memberId
    ensures multiset{r.startDate, r.dueDate} == multiset{startDate, dueDate}
    ensures r.startDate == startDate <==> !LexLess(dueDate, startDate) || startDate == dueDate
  {
    if LexLess(dueDate, startDate) then
      LexLessAsymmetric(startDate, dueDate);
      Loan(isbn, memberId, dueDate, startDate, false)
    else
      Loan(isbn, memberId, startDate, dueDate, false)
  }

  /** Rebuilding a valid loan that is still out from its fields gives it
      back: the swap never fires on dates already in order. */
  lemma MakeLoanRoundTrip(l: Loan)
    requires ValidLoan(l) && !l.returned
    ensures MakeLoan(l.isbn, l.memberId, l.startDate, l.dueDate) == l
  {
  }

  /** Giving the dates in either order builds the same loan. */
  lemma {:induction false} MakeLoanSymmetric(isbn: string, memberId: string, d1: string, d2: string)
    ensures MakeLoan(isbn, memberId, d1, d2) == MakeLoan(isbn, memberId, d2, d1)
  {
    if d1 != d2 {
      LexLessTotal(d1, d2);
      LexLessAsymmetric(d1, d2);
    }
  }

  /** `Loan::markReturned`: sets the flag and nothing else. */
  function MarkReturned(l: Loan): (r: Loan)
    ensures r.returned
    ensures r.(returned := l.returned) == l
  {
    l.(returned := true)
  }

  /** Marking a loan returned twice is the same as marking it once. */
  lemma MarkReturnedIdempotent(l: Loan)
    ensures MarkReturned(MarkReturned(l)) == MarkReturned(l)
  {
  }

  /** `Loan::isOverdue(today)`: the loan is still out and `today` sorts
      after the due date. */
  function IsOverdue(l: Loan, today: string): (r: bool)
    ensures r ==> !l.returned
    ensures r ==> today != l.dueDate
  {
    LexLessIrreflexive(today);
    !l.returned && LexLess(l.dueDate, today)
  }

  /** Once overdue, a loan that stays out is overdue on every later day. */
  lemma OverdueStaysOverdue(l: Loan, today: string, later: string)
    requires IsOverdue(l, today) && LexLess(today, later)
    ensures IsOverdue(l, later)
  {
    LexLessTransitive(l.dueDate, today, later);
  }

  /** An overdue valid loan is overdue strictly after its start date. */
  lemma OverdueAfterStart(l: Loan, today: string)
    requires ValidLoan(l) && IsOverdue(l, today)
    ensures LexLess(l.startDate, today)
  {
    if l.startDate != l.dueDate {
      LexLessTotal(l.startDate, l.dueDate);
      LexLessTransitive(l.startDate, l.dueDate, today);
    }
  }

  /** A returned loan is never overdue. */
  lemma ReturnedNeverOverdue(l: Loan, today: string)
    ensures !IsOverdue(MarkReturned(l), today)
  {
  }

  /** On the due date itself a loan is not yet overdue. */
  lemma NotOverdueOnDueDate(l: Loan)
    ensures !IsOverdue(l, l.dueDate)
  {
  }

}
