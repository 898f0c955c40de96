/** Issuing and returning books: two objects change together, the book's copy count and the
    member's borrowed list. Also the read-only loan reports and the availability check. */
module Circulation {
  import opened Wrappers
  import opened Seqs
  import opened Books
  import opened Members
  import opened Catalogue

  /** Why an issue or a return was refused. */
  datatype LoanError = NotFound | Unavailable | AlreadyHeld | NotHeld | MemberNotFound

  datatype Outcome = Done | Refused(reason: LoanError)

  /** The effect of issuing isbn to member, between the state before and after: the checks
      in their order (book missing, no copy on the shelf, already held), then on success one
      copy fewer and the ISBN appended to the member's list, and nothing else changed. */
  twostate predicate IssueEffect(lib: Library, isbn: string, member: Member, r: Outcome)
    reads lib, lib.books.Values, lib.members.Values, member
    requires old(lib.Valid())
  {
    && lib.books == old(lib.books) && lib.members == old(lib.members)
    && (isbn !in lib.books ==> r == Refused(NotFound))
    && (isbn in lib.books ==>
          r == (if old(lib.books[isbn].copies) <= 0 then Refused(Unavailable)
                else if isbn in old(member.borrowed) then Refused(AlreadyHeld)
                else Done))
    && lib.Copies() == (if r == Done then old(lib.Copies())[isbn := old(lib.books[isbn].copies) - 1] else old(lib.Copies()))
    && member.borrowed == (if r == Done then old(member.borrowed) + [isbn] else old(member.borrowed))
    && lib.Loans() == (if lib.Registered(member) then old(lib.Loans())[member.memberId := member.borrowed] else old(lib.Loans()))
  }

  /** The effect of returning isbn from member: refused if the book is missing or the member
      does not hold it; on success one copy more and the ISBN's first occurrence removed. */
  twostate predicate ReturnEffect(lib: Library, isbn: string, member: Member, r: Outcome)
    reads lib, lib.books.Values, lib.members.Values, member
    requires old(lib.Valid())
  {
    && lib.books == old(lib.books) && lib.members == old(lib.members)
    && (isbn !in lib.books ==> r == Refused(NotFound))
    && (isbn in lib.books ==> r == (if isbn !in old(member.borrowed) then Refused(NotHeld) else Done))
    && lib.Copies() == (if r == Done then old(lib.Copies())[isbn := old(lib.books[isbn].copies) + 1] else old(lib.Copies()))
    && member.borrowed == (if r == Done then RemoveFirst(old(member.borrowed), isbn) else old(member.borrowed))
    && lib.Loans() == (if lib.Registered(member) then old(lib.Loans())[member.memberId := member.borrowed] else old(lib.Loans()))
  }

  /** Copies on the shelf plus loans to registered members, for every catalogued ISBN, is the
      same before and after. */
  twostate predicate StockConserved(lib: Library)
    reads lib, lib.books.Values, lib.members.Values
  {
    lib.memberOrder == old(lib.memberOrder)
    && Conserved(lib.memberOrder, old(lib.Copies()), old(lib.Loans()), lib.Copies(), lib.Loans())
  }

  /** The successful branch of an issue: one copy of book leaves the shelf for member's list. */
  method Lend(lib: Library, book: Book, member: Member)
    requires lib.Valid() && book.isbn in lib.books && lib.books[book.isbn] == book
    requires book.isbn !in member.borrowed
    modifies book, member
    ensures book.copies == old(book.copies) - 1 && member.borrowed == old(member.borrowed) + [book.isbn]
    ensures lib.Copies() == old(lib.Copies())[book.isbn := book.copies]
    ensures lib.Loans() == if lib.Registered(member) then old(lib.Loans())[member.memberId := member.borrowed] else old(lib.Loans())
    ensures old(member.Valid()) ==> member.Valid()
    ensures lib.Registered(member) ==> StockConserved(lib)
  {
    ghost var copies0, loans0, held0 := lib.Copies(), lib.Loans(), member.borrowed;
    book.copies := book.copies - 1;
    var _ := member.BorrowBook(book.isbn);
    lib.CopiesAfterChange(copies0, book);
    lib.LoansAfterChange(loans0, member);
    if lib.Registered(member) {
      assert loans0[member.memberId] == held0;
      AppendCount(held0, book.isbn);
      MoveCopies(lib.memberOrder, loans0, copies0, member.memberId, member.borrowed, book.isbn, 1);
      assert copies0[book.isbn] - 1 == book.copies;
      assert Conserved(lib.memberOrder, copies0, loans0, lib.Copies(), lib.Loans());
    }
  }

  /** The successful branch of a return: one copy of book goes back from member's list to the
      shelf. */
  method Receive(lib: Library, book: Book, member: Member)
    requires lib.Valid() && book.isbn in lib.books && lib.books[book.isbn] == book
    requires book.isbn in member.borrowed
    modifies book, member
    ensures book.copies == old(book.copies) + 1 && member.borrowed == RemoveFirst(old(member.borrowed), book.isbn)
    ensures lib.Copies() == old(lib.Copies())[book.isbn := book.copies]
    ensures lib.Loans() == if lib.Registered(member) then old(lib.Loans())[member.memberId := member.borrowed] else old(lib.Loans())
    ensures old(member.Valid()) ==> member.Valid() && book.isbn !in member.borrowed
    ensures lib.Registered(member) ==> StockConserved(lib)
  {
    ghost var copies0, loans0, held0 := lib.Copies(), lib.Loans(), member.borrowed;
    book.copies := book.copies + 1;
    var _ := member.ReturnBook(book.isbn);
    lib.CopiesAfterChange(copies0, book);
    lib.LoansAfterChange(loans0, member);
    if lib.Registered(member) {
      assert loans0[member.memberId] == held0;
      RemoveFirstCount(held0, book.isbn);
      MoveCopies(lib.memberOrder, loans0, copies0, member.memberId, member.borrowed, book.isbn, -1);
      assert copies0[book.isbn] + 1 == book.copies;
      assert Conserved(lib.memberOrder, copies0, loans0, lib.Copies(), lib.Loans());
    }
  }

  method IssueBook(lib: Library, isbn: string, member: Member) returns (r: Outcome)
    requires lib.Valid()
    modifies member, lib.books.Values
    ensures IssueEffect(lib, isbn, member, r)
    ensures isbn in lib.books ==> lib.books[isbn].copies == old(lib.books[isbn].copies) - (if r == Done then 1 else 0)
    ensures old(member.Valid()) ==> member.Valid()
    ensures lib.Registered(member) ==> StockConserved(lib)
  {
    var found := lib.GetBook(isbn);
    if found.None? {
      return Refused(NotFound);
    }
    var book := found.value;
    if book.copies <= 0 {
      return Refused(Unavailable);
    }
    if member.HasBook(isbn) {
      return Refused(AlreadyHeld);
    }
    Lend(lib, book, member);
    r := Done;
  }

  method ReturnBook(lib: Library, isbn: string, member: Member) returns (r: Outcome)
    requires lib.Valid()
    modifies member, lib.books.Values
    ensures ReturnEffect(lib, isbn, member, r)
    ensures isbn in lib.books ==> lib.books[isbn].copies == old(lib.books[isbn].copies) + (if r == Done then 1 else 0)
    ensures old(member.Valid()) ==> member.Valid() && (r == Done ==> isbn !in member.borrowed)
    ensures lib.Registered(member) ==> StockConserved(lib)
  {
    var found := lib.GetBook(isbn);
    if found.None? {
      return Refused(NotFound);
    }
    var book := found.value;
    if !member.HasBook(isbn) {
      return Refused(NotHeld);
    }
    Receive(lib, book, member);
    r := Done;
  }

  /** A successful issue followed by a return of the same book by the same member puts the
      shelf and the member's list back as they were. */
  method IssueThenReturn(lib: Library, isbn: string, member: Member) returns (issued: Outcome, returned: Outcome)
    requires lib.Valid()
    modifies member, lib.books.Values
    ensures issued == Done ==>
      && returned == Done && isbn in lib.books
      && lib.books[isbn].copies == old(lib.books[isbn].copies)
      && member.borrowed == old(member.borrowed)
  {
    ghost var held0 := member.borrowed;
    issued := IssueBook(lib, isbn, member);
    returned := ReturnBook(lib, isbn, member);
    if issued == Done {
      AppendThenRemove(held0, isbn);
    }
  }

  /** Issuing by member ID: an unknown ID is refused and nothing changes; otherwise the effect
      is that of issuing to the stored member, stock is conserved, and the library's count of
      borrowed books goes up by one exactly when the issue succeeds. */
  method IssueBookById(lib: Library, isbn: string, memberId: string) returns (r: Outcome)
    requires lib.Valid()
    modifies lib.books.Values, lib.members.Values
    ensures memberId !in lib.members ==>
      r == Refused(MemberNotFound) && lib.Copies() == old(lib.Copies()) && lib.Loans() == old(lib.Loans())
    ensures memberId in lib.members ==> IssueEffect(lib, isbn, lib.members[memberId], r)
    ensures lib.Valid() && StockConserved(lib)
    ensures lib.GetLibraryStats().booksBorrowed == old(lib.GetLibraryStats().booksBorrowed) + (if r == Done then 1 else 0)
  {
    ghost var loans0 := lib.Loans();
    var found := lib.GetMember(memberId);
    if found.None? {
      return Refused(MemberNotFound);
    }
    var member := found.value;
    r := IssueBook(lib, isbn, member);
    UpdateOne(lib.memberOrder, loans0, memberId, member.borrowed, isbn);
  }

  /** Returning by member ID: the same shape, the count of borrowed books going down by one
      exactly when the return succeeds. */
  method ReturnBookById(lib: Library, isbn: string, memberId: string) returns (r: Outcome)
    requires lib.Valid()
    modifies lib.books.Values, lib.members.Values
    ensures memberId !in lib.members ==>
      r == Refused(MemberNotFound) && lib.Copies() == old(lib.Copies()) && lib.Loans() == old(lib.Loans())
    ensures memberId in lib.members ==> ReturnEffect(lib, isbn, lib.members[memberId], r)
    ensures lib.Valid() && StockConserved(lib)
    ensures lib.GetLibraryStats().booksBorrowed == old(lib.GetLibraryStats().booksBorrowed) - (if r == Done then 1 else 0)
  {
    ghost var loans0 := lib.Loans();
    var found := lib.GetMember(memberId);
    if found.None? {
      return Refused(MemberNotFound);
    }
    var member := found.value;
    r := ReturnBook(lib, isbn, member);
    UpdateOne(lib.memberOrder, loans0, memberId, member.borrowed, isbn);
  }

  /** One borrowed book as the member's report lists it. */
  datatype BorrowedDetail = BorrowedDetail(isbn: string, title: string, author: string)

  /** The details of the ISBNs in isbns that the catalogue still has, in the order of isbns;
      ISBNs no longer catalogued are skipped. */
  function Details(isbns: seq<string>, books: map<string, Book>): (r: seq<BorrowedDetail>)
    ensures |r| <= |isbns|
    ensures forall d :: d in r ==>
      && d.isbn in isbns && d.isbn in books
      && d.title == books[d.isbn].title && d.author == books[d.isbn].author
    ensures forall i :: i in isbns && i in books ==> BorrowedDetail(i, books[i].title, books[i].author) in r
  {
    if isbns == [] then []
    else
      var init, i := isbns[..|isbns| - 1], isbns[|isbns| - 1];
      assert isbns == init + [i];
      Details(init, books) + (if i in books then [BorrowedDetail(i, books[i].title, books[i].author)] else [])
  }

  /** The details of the books a member holds, or MemberNotFound for an unknown ID. */
  method GetMemberBorrowedBooks(lib: Library, memberId: string) returns (r: Result<seq<BorrowedDetail>, LoanError>)
    requires lib.Valid()
    ensures memberId !in lib.members ==> r == Failure(MemberNotFound)
    ensures memberId in lib.members ==> r == Success(Details(lib.members[memberId].borrowed, lib.books))
  {
    var found := lib.GetMember(memberId);
    if found.None? {
      return Failure(MemberNotFound);
    }
    var member := found.value;
    var details: seq<BorrowedDetail> := [];
    var k := 0;
    while k < |member.borrowed|
      invariant 0 <= k <= |member.borrowed|
      invariant details == Details(member.borrowed[..k], lib.books)
    {
      var isbn := member.borrowed[k];
      assert member.borrowed[..k + 1][..k] == member.borrowed[..k];
      var book := lib.GetBook(isbn);
      if book.Some? {
        details := details + [BorrowedDetail(isbn, book.value.title, book.value.author)];
      }
      k := k + 1;
    }
    assert member.borrowed[..k] == member.borrowed;
    return Success(details);
  }

  /** One outstanding loan: who holds which book. */
  datatype LoanRecord = LoanRecord(memberId: string, memberName: string, isbn: string, title: string, author: string)

  /** The catalogued books among isbns, in the order of isbns, each labelled with member m. */
  function Records(m: Member, isbns: seq<string>, books: map<string, Book>): (r: seq<LoanRecord>)
  {
    if isbns == [] then []
    else
      var init, i := isbns[..|isbns| - 1], isbns[|isbns| - 1];
      Records(m, init, books) + (if i in books then [LoanRecord(m.memberId, m.name, i, books[i].title, books[i].author)] else [])
  }

  /** A record made for m names m and a catalogued book of isbns, with that book's details. */
  lemma {:induction false} RecordsSound(m: Member, isbns: seq<string>, books: map<string, Book>, rec: LoanRecord)
    requires rec in Records(m, isbns, books)
    ensures rec.memberId == m.memberId && rec.memberName == m.name && rec.isbn in isbns
    ensures rec.isbn in books && rec.title == books[rec.isbn].title && rec.author == books[rec.isbn].author
  {
    var init, i := isbns[..|isbns| - 1], isbns[|isbns| - 1];
    assert isbns == init + [i];
    if rec !in Records(m, init, books) {
      assert rec == LoanRecord(m.memberId, m.name, i, books[i].title, books[i].author);
    } else {
      RecordsSound(m, init, books, rec);
    }
  }

  /** Every catalogued book of isbns has its record. */
  lemma {:induction false} RecordsComplete(m: Member, isbns: seq<string>, books: map<string, Book>, isbn: string)
    requires isbn in isbns && isbn in books
    ensures LoanRecord(m.memberId, m.name, isbn, books[isbn].title, books[isbn].author) in Records(m, isbns, books)
  {
    var init, i := isbns[..|isbns| - 1], isbns[|isbns| - 1];
    assert isbns == init + [i];
    if isbn != i {
      RecordsComplete(m, init, books, isbn);
    }
  }

  /** The records for a prefix of isbns grow by the next ISBN's record, if it is catalogued. */
  lemma RecordsStep(m: Member, isbns: seq<string>, k: int, books: map<string, Book>)
    requires 0 <= k < |isbns|
    ensures Records(m, isbns[..k + 1], books) == Records(m, isbns[..k], books)
      + (if isbns[k] in books then [LoanRecord(m.memberId, m.name, isbns[k], books[isbns[k]].title, books[isbns[k]].author)] else [])
  {
    assert isbns[..k + 1][..k] == isbns[..k];
  }

  /** Every catalogued book held by a member of ms, member by member and in each member's own
      order. */
  function Outstanding(ms: seq<Member>, books: map<string, Book>): seq<LoanRecord>
    reads ms
  {
    if ms == [] then []
    else
      var init, m := ms[..|ms| - 1], ms[|ms| - 1];
      Outstanding(init, books) + Records(m, m.borrowed, books)
  }

  /** Every record of the report names a member of ms and a catalogued book that member holds,
      with that book's details. */
  lemma {:induction false} OutstandingSound(ms: seq<Member>, books: map<string, Book>, rec: LoanRecord)
    requires rec in Outstanding(ms, books)
    ensures rec.isbn in books && rec.title == books[rec.isbn].title && rec.author == books[rec.isbn].author
    ensures exists j :: 0 <= j < |ms| && ms[j].memberId == rec.memberId && ms[j].name == rec.memberName && rec.isbn in ms[j].borrowed
  {
    var init, m := ms[..|ms| - 1], ms[|ms| - 1];
    if rec in Records(m, m.borrowed, books) {
      RecordsSound(m, m.borrowed, books, rec);
      assert ms[|ms| - 1] == m;
    } else {
      OutstandingSound(init, books, rec);
      var j :| 0 <= j < |init| && init[j].memberId == rec.memberId && init[j].name == rec.memberName && rec.isbn in init[j].borrowed;
      assert ms[j] == init[j];
    }
  }

  /** Every catalogued book held by a member of ms has its record in the report. */
  lemma {:induction false} OutstandingComplete(ms: seq<Member>, books: map<string, Book>, j: int, isbn: string)
    requires 0 <= j < |ms| && isbn in ms[j].borrowed && isbn in books
    ensures LoanRecord(ms[j].memberId, ms[j].name, isbn, books[isbn].title, books[isbn].author) in Outstanding(ms, books)
  {
    var init, m := ms[..|ms| - 1], ms[|ms| - 1];
    if j < |init| {
      assert ms[j] == init[j];
      OutstandingComplete(init, books, j, isbn);
    } else {
      RecordsComplete(m, m.borrowed, books, isbn);
    }
  }

  /** The report for a prefix of the members grows by the next member's records. */
  lemma OutstandingStep(ms: seq<Member>, j: int, books: map<string, Book>)
    requires 0 <= j < |ms|
    ensures Outstanding(ms[..j + 1], books) == Outstanding(ms[..j], books) + Records(ms[j], ms[j].borrowed, books)
  {
    assert ms[..j + 1][..j] == ms[..j];
  }

  /** The two loops of the loan report, over the listed members and the catalogue's map: for
      each member in turn, each held ISBN that the catalogue still has. */
  method CollectLoans(ms: seq<Member>, books: map<string, Book>) returns (r: seq<LoanRecord>)
    ensures r == Outstanding(ms, books)
  {
    r := [];
    var j := 0;
    while j < |ms|
      invariant 0 <= j <= |ms|
      invariant r == Outstanding(ms[..j], books)
    {
      var m := ms[j];
      var held := m.borrowed;
      ghost var base := r;
      var k := 0;
      while k < |held|
        invariant 0 <= k <= |held|
        invariant r == base + Records(m, held[..k], books)
      {
        var isbn := held[k];
        RecordsStep(m, held, k, books);
        if isbn in books {
          var book := books[isbn];
          var rec := LoanRecord(m.memberId, m.name, isbn, book.title, book.author);
          assert r + [rec] == base + (Records(m, held[..k], books) + [rec]);
          r := r + [rec];
        }
        k := k + 1;
      }
      assert held[..k] == held;
      OutstandingStep(ms, j, books);
      j := j + 1;
    }
    assert ms[..j] == ms;
  }

  /** Every outstanding loan, members in registration order (the source's "overdue" list: it
      keeps no dates, so every loan is listed). */
  method GetOverdueBooks(lib: Library) returns (r: seq<LoanRecord>)
    requires lib.Valid()
    ensures r == Outstanding(lib.ListMembers(), lib.books)
  {
    r := CollectLoans(lib.ListMembers(), lib.books);
  }

  /** What the availability check answers: whether the book exists, whether a copy is on the
      shelf, and how many copies there are (0 for a missing book). */
  datatype Availability = Availability(listed: bool, available: bool, copies: int)

  function CheckBookAvailability(lib: Library, isbn: string): (r: Availability)
    reads lib, lib.books.Values
    requires lib.Valid()
    ensures r.listed <==> isbn in lib.books
    ensures isbn !in lib.books ==> r == Availability(false, false, 0)
    ensures isbn in lib.books ==> r.copies == lib.books[isbn].copies && (r.available <==> r.copies > 0)
  {
    match lib.GetBook(isbn)
    case None => Availability(false, false, 0)
    case Some(book) => Availability(true, book.copies > 0, book.copies)
  }

  /** A book is reported available exactly when it is among the library's available books. */
  lemma AvailableMeansListed(lib: Library, isbn: string)
    requires lib.Valid()
    ensures CheckBookAvailability(lib, isbn).available <==> isbn in lib.books && lib.books[isbn] in lib.AvailableBooks()
  {
  }
}
