/** The catalogue: books keyed by ISBN and members keyed by member ID, each store keeping
    the insertion order of a Python dict. */
module Catalogue {
  import opened Wrappers
  import opened Seqs
  import opened Books
  import opened Members

  /** Loans of isbn recorded for the members of `order`, each borrowed list counted with repetition. */
  function OnLoan(order: seq<string>, loans: map<string, seq<string>>, isbn: string): nat
    requires forall k :: k in order ==> k in loans
  {
    if order == [] then 0 else multiset(loans[order[0]])[isbn] + OnLoan(order[1..], loans, isbn)
  }

  /** The number of members of `order` whose list holds isbn. */
  function Holders(order: seq<string>, loans: map<string, seq<string>>, isbn: string): nat
    requires forall k :: k in order ==> k in loans
  {
    if order == [] then 0 else (if isbn in loans[order[0]] then 1 else 0) + Holders(order[1..], loans, isbn)
  }

  /** The total length of the borrowed lists of the members of `order`. */
  function BorrowedTotal(order: seq<string>, loans: map<string, seq<string>>): nat
    requires forall k :: k in order ==> k in loans
  {
    if order == [] then 0 else |loans[order[0]]| + BorrowedTotal(order[1..], loans)
  }

  /** When every borrowed list is duplicate-free, the loans of an ISBN are the number of
      members holding it. */
  lemma {:induction false} OnLoanIsHolders(order: seq<string>, loans: map<string, seq<string>>, isbn: string)
    requires forall k :: k in order ==> k in loans
    requires forall k :: k in loans ==> NoDup(loans[k])
    ensures OnLoan(order, loans, isbn) == Holders(order, loans, isbn)
  {
    if order != [] {
      NoDupOccurrence(loans[order[0]], isbn);
      OnLoanIsHolders(order[1..], loans, isbn);
    }
  }

  /** Changing the list of a member outside `order` changes no count over `order`. */
  lemma {:induction false} UpdateElsewhere(order: seq<string>, loans: map<string, seq<string>>, id: string, l: seq<string>, isbn: string)
    requires forall k :: k in order ==> k in loans
    requires id !in order
    ensures OnLoan(order, loans[id := l], isbn) == OnLoan(order, loans, isbn)
    ensures BorrowedTotal(order, loans[id := l]) == BorrowedTotal(order, loans)
  {
    if order != [] {
      UpdateElsewhere(order[1..], loans, id, l, isbn);
    }
  }

  /** Replacing the list of one member of `order` changes each count by the difference
      between the new list and the old one. */
  lemma {:induction false} UpdateOne(order: seq<string>, loans: map<string, seq<string>>, id: string, l: seq<string>, isbn: string)
    requires forall k :: k in order ==> k in loans
    requires NoDup(order) && id in order
    ensures OnLoan(order, loans[id := l], isbn) == OnLoan(order, loans, isbn) - multiset(loans[id])[isbn] + multiset(l)[isbn]
    ensures BorrowedTotal(order, loans[id := l]) == BorrowedTotal(order, loans) - |loans[id]| + |l|
  {
    var rest := order[1..];
    assert NoDup(rest) by {
      forall i, j | 0 <= i < j < |rest| ensures rest[i] != rest[j] {
        assert rest[i] == order[i + 1] && rest[j] == order[j + 1];
      }
    }
    if order[0] == id {
      assert id !in rest by {
        forall i | 0 <= i < |rest| ensures rest[i] != id {
          assert rest[i] == order[i + 1];
        }
      }
      UpdateElsewhere(rest, loans, id, l, isbn);
    } else {
      assert id in rest by {
        assert order == [order[0]] + rest;
      }
      UpdateOne(rest, loans, id, l, isbn);
    }
  }

  /** Between two snapshots of the copy counts and the loans, the copies of each ISBN on the
      shelf plus its loans to the members of order stay the same: the quantity issuing and
      returning conserve. */
  ghost predicate Conserved(order: seq<string>, copies0: map<string, int>, loans0: map<string, seq<string>>,
                            copies1: map<string, int>, loans1: map<string, seq<string>>)
  {
    && (forall k :: k in order ==> k in loans0 && k in loans1)
    && copies1.Keys == copies0.Keys
    && forall i :: i in copies0 ==> copies1[i] + OnLoan(order, loans1, i) == copies0[i] + OnLoan(order, loans0, i)
  }

  /** Moving delta copies of isbn from the shelf into member id's list, or back when delta is
      negative, conserves shelf plus loans. */
  lemma {:induction false} MoveCopies(order: seq<string>, loans: map<string, seq<string>>, copies: map<string, int>,
                                      id: string, l: seq<string>, isbn: string, delta: int)
    requires forall k :: k in order ==> k in loans
    requires NoDup(order) && id in order && isbn in copies
    requires forall i :: multiset(l)[i] == multiset(loans[id])[i] + (if i == isbn then delta else 0)
    ensures Conserved(order, copies, loans, copies[isbn := copies[isbn] - delta], loans[id := l])
  {
    forall i | i in copies
      ensures copies[isbn := copies[isbn] - delta][i] + OnLoan(order, loans[id := l], i) == copies[i] + OnLoan(order, loans, i)
    {
      UpdateOne(order, loans, id, l, i);
    }
  }

  datatype LibraryStats = LibraryStats(totalBooks: nat, availableBooks: nat, totalMembers: nat, booksBorrowed: nat)

  class Library {
    /** The ISBNs in insertion order, and the book stored under each. */
    var bookOrder: seq<string>
    var books: map<string, Book>
    /** The member IDs in insertion order, and the member stored under each. */
    var memberOrder: seq<string>
    var members: map<string, Member>

    /** Each key order lists its store's keys once, and every entry sits under its own key. */
    ghost predicate Valid()
      reads this
    {
      && OrderedKeys(bookOrder, books.Keys)
      && OrderedKeys(memberOrder, members.Keys)
      && (forall k :: k in books ==> books[k].isbn == k)
      && (forall k :: k in members ==> members[k].memberId == k)
    }

    constructor ()
      ensures Valid()
      ensures bookOrder == [] && books == map[] && memberOrder == [] && members == map[]
    {
      bookOrder, books := [], map[];
      memberOrder, members := [], map[];
    }

    /** Stores book under its ISBN, replacing any book stored there before; a replaced key
        keeps its place in the order, a new key goes last. Always succeeds. */
    method AddBook(book: Book) returns (ok: bool)
      requires Valid()
      modifies this
      ensures Valid() && ok
      ensures books == old(books)[book.isbn := book]
      ensures bookOrder == if book.isbn in old(books) then old(bookOrder) else old(bookOrder) + [book.isbn]
      ensures memberOrder == old(memberOrder) && members == old(members)
    {
      if book.isbn !in books {
        bookOrder := bookOrder + [book.isbn];
      }
      books := books[book.isbn := book];
      ok := true;
    }

    /** Deletes the book stored under isbn; reports whether there was one. */
    method RemoveBook(isbn: string) returns (ok: bool)
      requires Valid()
      modifies this
      ensures Valid()
      ensures ok <==> isbn in old(books)
      ensures books == old(books) - {isbn}
      ensures bookOrder == RemoveFirst(old(bookOrder), isbn)
      ensures memberOrder == old(memberOrder) && members == old(members)
    {
      if isbn in books {
        RemoveFirstNoDup(bookOrder, isbn);
        var order := RemoveFirst(bookOrder, isbn);
        var store := books - {isbn};
        assert OrderedKeys(order, store.Keys);
        books, bookOrder := store, order;
        ok := true;
      } else {
        ok := false;
      }
    }

    /** The book stored under isbn, if any; its ISBN is the key looked up. */
    function GetBook(isbn: string): (r: Option<Book>)
      reads this
      requires Valid()
      ensures r.Some? <==> isbn in books
      ensures r.Some? ==> r.value == books[isbn] && r.value.isbn == isbn
    {
      if isbn in books then Some(books[isbn]) else None
    }

    /** Stores member under its ID, replacing any member stored there before. Always succeeds. */
    method AddMember(member: Member) returns (ok: bool)
      requires Valid()
      modifies this
      ensures Valid() && ok
      ensures members == old(members)[member.memberId := member]
      ensures memberOrder == if member.memberId in old(members) then old(memberOrder) else old(memberOrder) + [member.memberId]
      ensures bookOrder == old(bookOrder) && books == old(books)
    {
      if member.memberId !in members {
        memberOrder := memberOrder + [member.memberId];
      }
      members := members[member.memberId := member];
      ok := true;
    }

    /** Deletes the member stored under memberId; reports whether there was one. */
    method RemoveMember(memberId: string) returns (ok: bool)
      requires Valid()
      modifies this
      ensures Valid()
      ensures ok <==> memberId in old(members)
      ensures members == old(members) - {memberId}
      ensures memberOrder == RemoveFirst(old(memberOrder), memberId)
      ensures bookOrder == old(bookOrder) && books == old(books)
    {
      if memberId in members {
        RemoveFirstNoDup(memberOrder, memberId);
        var order := RemoveFirst(memberOrder, memberId);
        var store := members - {memberId};
        assert OrderedKeys(order, store.Keys);
        members, memberOrder := store, order;
        ok := true;
      } else {
        ok := false;
      }
    }

    /** The member stored under memberId, if any; its ID is the key looked up. */
    function GetMember(memberId: string): (r: Option<Member>)
      reads this
      requires Valid()
      ensures r.Some? <==> memberId in members
      ensures r.Some? ==> r.value == members[memberId] && r.value.memberId == memberId
    {
      if memberId in members then Some(members[memberId]) else None
    }

    /** Every stored book exactly once, in insertion order of the ISBNs. */
    function ListBooks(): (r: seq<Book>)
      reads this
      requires Valid()
      ensures |r| == |books| == |bookOrder|
      ensures forall i :: 0 <= i < |bookOrder| ==> r[i] == books[bookOrder[i]]
      ensures forall b :: b in r ==> b in books.Values
      ensures forall k :: k in books ==> books[k] in r
      ensures NoDup(r)
    {
      OrderedKeysCard(bookOrder, books.Keys);
      var r := ValuesInOrder(bookOrder, books);
      assert forall k :: k in books ==> exists i :: 0 <= i < |bookOrder| && bookOrder[i] == k;
      assert NoDup(r) by {
        forall i, j | 0 <= i < j < |r| ensures r[i] != r[j] {
          assert r[i].isbn == bookOrder[i] && r[j].isbn == bookOrder[j];
        }
      }
      r
    }

    /** Every stored member exactly once, in insertion order of the IDs. */
    function ListMembers(): (r: seq<Member>)
      reads this
      requires Valid()
      ensures |r| == |members| == |memberOrder|
      ensures forall i :: 0 <= i < |memberOrder| ==> r[i] == members[memberOrder[i]]
      ensures forall m :: m in r ==> m in members.Values
      ensures forall k :: k in members ==> members[k] in r
      ensures NoDup(r)
    {
      OrderedKeysCard(memberOrder, members.Keys);
      var r := ValuesInOrder(memberOrder, members);
      assert forall k :: k in members ==> exists i :: 0 <= i < |memberOrder| && memberOrder[i] == k;
      assert NoDup(r) by {
        forall i, j | 0 <= i < j < |r| ensures r[i] != r[j] {
          assert r[i].memberId == memberOrder[i] && r[j].memberId == memberOrder[j];
        }
      }
      r
    }

    /** The stored books with at least one copy on the shelf, in insertion order. */
    function AvailableBooks(): (r: seq<Book>)
      reads this, books.Values
      requires Valid()
      ensures forall b :: b in r ==> b in books.Values && b.copies > 0
      ensures forall k :: k in books && books[k].copies > 0 ==> books[k] in r
      ensures NoDup(r) && |r| <= |books|
    {
      InStockOf(ListBooks())
    }

    /** Every member's borrowed list, by member ID. */
    function Loans(): (l: map<string, seq<string>>)
      reads this, members.Values
      ensures l.Keys == members.Keys
      ensures forall k :: k in members ==> l[k] == members[k].borrowed
    {
      map k | k in members :: members[k].borrowed
    }

    /** Every book's number of copies on the shelf, by ISBN. */
    ghost function Copies(): (c: map<string, int>)
      reads this, books.Values
    {
      map k | k in books :: books[k].copies
    }

    /** member is the one stored under its own ID. */
    predicate Registered(member: Member)
      reads this
    {
      member.memberId in members && members[member.memberId] == member
    }

    /** Once only book has changed its count, the copies map differs from before in book's entry
        alone. */
    lemma CopiesAfterChange(before: map<string, int>, book: Book)
      requires Valid() && book.isbn in books && books[book.isbn] == book
      requires before.Keys == books.Keys
      requires forall k :: k in books && books[k] != book ==> books[k].copies == before[k]
      ensures Copies() == before[book.isbn := book.copies]
    {
    }

    /** Once only member's list has changed, the loans map differs from before at most in the
        entry under member's ID, and only if member is the one stored there. */
    lemma LoansAfterChange(before: map<string, seq<string>>, member: Member)
      requires Valid() && before.Keys == members.Keys
      requires forall k :: k in members && members[k] != member ==> members[k].borrowed == before[k]
      ensures Loans() == if Registered(member) then before[member.memberId := member.borrowed] else before
    {
    }

    /** Book, availability and member counts, and the total length of the borrowed lists. */
    function GetLibraryStats(): (s: LibraryStats)
      reads this, books.Values, members.Values
      requires Valid()
      ensures s.totalBooks == |books| && s.totalMembers == |members|
      ensures s.availableBooks <= s.totalBooks
      ensures s.availableBooks == |set b | b in ListBooks() && b.copies > 0|
      ensures s.booksBorrowed == BorrowedTotal(memberOrder, Loans())
    {
      InStockCount(ListBooks());
      LibraryStats(|books|, |AvailableBooks()|, |members|, BorrowedTotal(memberOrder, Loans()))
    }
  }
}
