/** A library member and the ordered list of ISBNs the member has borrowed. */
module Members {
  import opened Seqs

  class Member {
    const memberId: string
    const name: string
    var borrowed: seq<string>

    /** The list never holds an ISBN twice; every operation below keeps it so. */
    ghost predicate Valid()
      reads this
    {
      NoDup(borrowed)
    }

    /** A new member has borrowed nothing. */
    constructor (memberId: string, name: string)
      ensures this.memberId == memberId && this.name == name
      ensures borrowed == [] && Valid()
    {
      this.memberId := memberId;
      this.name := name;
      this.borrowed := [];
    }

    /** Appends isbn unless it is already on the list; reports whether it did. */
    method BorrowBook(isbn: string) returns (ok: bool)
      modifies this
      ensures ok <==> isbn !in old(borrowed)
      ensures borrowed == if ok then old(borrowed) + [isbn] else old(borrowed)
      ensures old(Valid()) ==> Valid()
    {
      if isbn !in borrowed {
        borrowed := borrowed + [isbn];
        ok := true;
      } else {
        ok := false;
      }
    }

    /** Removes isbn from the list if it is there (its first occurrence, as `list.remove` does);
        reports whether it was there. */
    method ReturnBook(isbn: string) returns (ok: bool)
      modifies this
      ensures ok <==> isbn in old(borrowed)
      ensures borrowed == RemoveFirst(old(borrowed), isbn)
      ensures old(Valid()) ==> Valid() && isbn !in borrowed
    {
      if isbn in borrowed {
        borrowed := RemoveFirst(borrowed, isbn);
        ok := true;
      } else {
        ok := false;
      }
      if old(Valid()) {
        RemoveFirstNoDup(old(borrowed), isbn);
      }
    }

    /** Whether the member holds isbn: at least one loan of it is on the list. The getter
        promises no more than its body; the count form below is what CountIsDistinct and the
        stock-conservation lemmas reason with. */
    predicate HasBook(isbn: string)
      reads this
      ensures HasBook(isbn) <==> multiset(borrowed)[isbn] > 0
    {
      isbn in borrowed
    }

    /** The number of loans on the list, counted with repetition. As for HasBook, the ensures
        is the body in multiset form; CountIsDistinct is the property that says what it counts. */
    function BorrowedCount(): (n: nat)
      reads this
      ensures n == |multiset(borrowed)|
    {
      |borrowed|
    }

    /** On a valid member the loan count is the number of distinct ISBNs held. */
    lemma CountIsDistinct()
      requires Valid()
      ensures BorrowedCount() == |set x | x in borrowed|
    {
      NoDupCard(borrowed);
    }

    /** A snapshot of the member: the borrowed list is copied, and its length reported with it. */
    function GetInfo(): (r: MemberInfo)
      reads this
      ensures r.memberId == memberId && r.name == name && r.borrowedBooks == borrowed
      ensures r.booksCount == |r.borrowedBooks|
    {
      MemberInfo(memberId, name, borrowed, |borrowed|)
    }
  }

  datatype MemberInfo = MemberInfo(memberId: string, name: string, borrowedBooks: seq<string>, booksCount: nat)
}
