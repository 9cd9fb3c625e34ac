/** The scenario of the demonstration program: three books by two authors,
    two members, one loan, a refused second loan, a return and an author
    search, stated as facts about the model. */
module Demo {

  import opened Strings
  import opened Records
  import opened Catalog

  const IvanVazov := MakeAuthor("Ivan Vazov", 1850)
  const Aleko := MakeAuthor("Aleko Konstantinov", 1863)

  const PodIgoto := MakeBook("Pod igoto", IvanVazov, 1894, 25.50, "ISBN-001")
  const NemaZemya := MakeBook("Nema zemya", IvanVazov, 1900, 18.90, "ISBN-002")
  const BaiGanyo := MakeBook("Bai Ganyo", Aleko, 1895, 15.00, "ISBN-003")

  /** The library once the three books and two members have been added. */
  function Stocked(): (r: Library)
    ensures r.books == [PodIgoto, NemaZemya, BaiGanyo]
    ensures r.members == [Member("Petar Petrov", "M001", 2023), Member("Maria Ivanova", "M002", 2024)]
    ensures r.loans == []
  {
    var lib := AddBook(AddBook(AddBook(EmptyLibrary, PodIgoto), NemaZemya), BaiGanyo);
    AddMember(AddMember(lib, MakeMember("Petar Petrov", "M001", 2023)),
              MakeMember("Maria Ivanova", "M002", 2024))
  }

  /** The loan the demonstration opens, before and after its return. */
  const FirstLoan := Loan("ISBN-001", "M001", "2025-11-03", "2025-11-17", false)
  const OnLoan := Stocked().(loans := [FirstLoan])
  const Returned := Stocked().(loans := [MarkReturned(FirstLoan)])

  /** Lending ISBN-001 to M001 succeeds and records the loan as given. */
  lemma FirstLoanSucceeds()
    ensures LoanBook(Stocked(), "ISBN-001", "M001", "2025-11-03", "2025-11-17") == (true, OnLoan)
  {
    var lib := Stocked();
    assert lib.books[0].isbn == "ISBN-001";
    assert lib.members[0].memberId == "M001";
    assert ValidLoan(FirstLoan) by {
      assert "2025-11-03"[..8] == "2025-11-17"[..8];
      LexLessCommonPrefix("2025-11-03", "2025-11-17", 8);
      LexLessAsymmetric("2025-11-03", "2025-11-17");
    }
    MakeLoanRoundTrip(FirstLoan);
  }

  /** Lending the same book to M002 is refused and changes nothing. */
  lemma SecondLoanRefused()
    ensures !IsBookAvailable(OnLoan, "ISBN-001")
    ensures LoanBook(OnLoan, "ISBN-001", "M002", "2025-11-04", "2025-11-18") == (false, OnLoan)
  {
  }

  /** Returning the book from M001 succeeds, after which it is available. */
  lemma ReturnSucceeds()
    ensures ReturnBook(OnLoan, "ISBN-001", "M001") == (true, Returned)
    ensures IsBookAvailable(Returned, "ISBN-001")
  {
    assert OnLoan.loans[0] in OnLoan.loans;
    assert OnLoan.loans[0 := MarkReturned(FirstLoan)] == Returned.loans;
    assert Returned.books[0].isbn == "ISBN-001";
  }

  /** The whole exchange: lend ISBN-001 to M001 (succeeds), lend it to M002
      (refused), check availability (false), return it from M001
      (succeeds), check again (true). */
  lemma LoanReturnScenario()
    ensures var lib0 := Stocked();
            var (ok1, lib1) := LoanBook(lib0, "ISBN-001", "M001", "2025-11-03", "2025-11-17");
            var (ok2, lib2) := LoanBook(lib1, "ISBN-001", "M002", "2025-11-04", "2025-11-18");
            var (ok3, lib3) := ReturnBook(lib2, "ISBN-001", "M001");
            ok1 && !ok2 && !IsBookAvailable(lib2, "ISBN-001") &&
            ok3 && IsBookAvailable(lib3, "ISBN-001")
  {
    FirstLoanSucceeds();
    SecondLoanRefused();
    ReturnSucceeds();
  }

  /** The two Ivan Vazov books match "Vazov". */
  lemma VazovMatches()
    ensures ByAuthor(PodIgoto, "Vazov") && ByAuthor(NemaZemya, "Vazov")
  {
    assert IvanVazov.name == "Ivan Vazov";
    assert OccursAt("Ivan Vazov", "Vazov", 5);
  }

  /** The Aleko Konstantinov book does not match "Vazov". */
  lemma AlekoDoesNotMatch()
    ensures !ByAuthor(BaiGanyo, "Vazov")
  {
    var name := "Aleko Konstantinov";
    assert Aleko.name == name;
    assert forall k :: 0 <= k < |name| ==> name[k] != 'V';
    ContainsNeedsFirstChar(name, "Vazov");
  }

  /** Searching for "Vazov" finds exactly the two Ivan Vazov books, in the
      order they were added. */
  lemma SearchScenario()
    ensures FindByAuthor(Stocked(), "Vazov") == [PodIgoto, NemaZemya]
  {
    VazovMatches();
    AlekoDoesNotMatch();
    var books := [PodIgoto, NemaZemya, BaiGanyo];
    assert books[1..] == [NemaZemya, BaiGanyo];
    assert [NemaZemya, BaiGanyo][1..] == [BaiGanyo];
    assert FilterByAuthor([BaiGanyo], "Vazov") == [];
    assert FilterByAuthor([NemaZemya, BaiGanyo], "Vazov") == [NemaZemya];
  }

}
