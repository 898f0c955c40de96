/** A book of the catalogue, and the criteria by which lists of books are filtered. */
module Books {
  import opened Text
  import opened Seqs

  /** A catalogue entry. The ISBN, title and author are fixed once the book is created;
      the number of copies on the shelf is changed in place by issuing and returning. */
  class Book {
    const isbn: string
    const title: string
    const author: string
    var copies: int

    constructor (isbn: string, title: string, author: string, copies: int)
      ensures this.isbn == isbn && this.title == title && this.author == author
      ensures this.copies == copies
    {
      this.isbn := isbn;
      this.title := title;
      this.author := author;
      this.copies := copies;
    }

    /** A book can be lent while at least one copy is on the shelf. */
    predicate IsAvailable()
      reads this
    {
      copies > 0
    }

    /** A snapshot of the book's fields; reading it changes nothing. */
    function GetInfo(): (r: BookInfo)
      reads this
      ensures r.isbn == isbn && r.title == title && r.author == author && r.copies == copies
      ensures r.available <==> copies > 0
    {
      BookInfo(isbn, title, author, copies, IsAvailable())
    }
  }

  datatype BookInfo = BookInfo(isbn: string, title: string, author: string, copies: int, available: bool)

  /** One filter of the search code on the fixed fields of a book: a case-insensitive
      substring of the title or the author, or an exact ISBN. */
  datatype Criterion = TitleHas(query: string) | AuthorHas(query: string) | IsbnIs(key: string)

  predicate Meets(b: Book, c: Criterion)
  {
    match c
    case TitleHas(q) => MatchesFolded(b.title, q)
    case AuthorHas(q) => MatchesFolded(b.author, q)
    case IsbnIs(key) => b.isbn == key
  }

  predicate MeetsAll(b: Book, cs: seq<Criterion>)
  {
    forall i :: 0 <= i < |cs| ==> Meets(b, cs[i])
  }

  /** The books of bs that meet every criterion of cs, in the order of bs:
      a Python list comprehension `[b for b in bs if ...]`. */
  function Select(bs: seq<Book>, cs: seq<Criterion>): (r: seq<Book>)
    ensures |r| <= |bs|
    ensures forall b :: b in r ==> b in bs && MeetsAll(b, cs)
    ensures forall b :: b in bs && MeetsAll(b, cs) ==> b in r
  {
    if bs == [] then []
    else
      var last := bs[|bs| - 1];
      assert bs == bs[..|bs| - 1] + [last];
      Select(bs[..|bs| - 1], cs) + (if MeetsAll(last, cs) then [last] else [])
  }

  /** Meeting a one-element list of criteria is meeting that criterion. */
  lemma MeetsOne(b: Book, c: Criterion)
    ensures MeetsAll(b, [c]) <==> Meets(b, c)
  {
    assert [c][0] == c;
  }

  /** Meeting a concatenation of criteria is meeting both parts. */
  lemma MeetsAllConcat(b: Book, cs: seq<Criterion>, ds: seq<Criterion>)
    ensures MeetsAll(b, cs + ds) <==> MeetsAll(b, cs) && MeetsAll(b, ds)
  {
    assert forall i :: 0 <= i < |cs| ==> (cs + ds)[i] == cs[i];
    assert forall i :: 0 <= i < |ds| ==> (cs + ds)[|cs| + i] == ds[i];
  }

  /** Filtering a list with one more element at the end. */
  lemma SelectSnoc(bs: seq<Book>, b: Book, cs: seq<Criterion>)
    ensures Select(bs + [b], cs) == Select(bs, cs) + (if MeetsAll(b, cs) then [b] else [])
  {
    assert (bs + [b])[..|bs|] == bs;
  }

  /** One more round of the loop behind a filter. */
  lemma SelectStep(bs: seq<Book>, i: int, cs: seq<Criterion>)
    requires 0 <= i < |bs|
    ensures Select(bs[..i + 1], cs) == Select(bs[..i], cs) + (if MeetsAll(bs[i], cs) then [bs[i]] else [])
  {
    assert bs[..i + 1][..i] == bs[..i];
  }

  /** Filtering twice in a row is filtering once by both sets of criteria: the chained
      comprehensions of the advanced search are one conjunctive filter. */
  lemma {:induction false} SelectSelect(bs: seq<Book>, cs: seq<Criterion>, ds: seq<Criterion>)
    ensures Select(Select(bs, cs), ds) == Select(bs, cs + ds)
  {
    if bs != [] {
      var init, last := bs[..|bs| - 1], bs[|bs| - 1];
      assert bs == init + [last];
      var r := Select(init, cs);
      SelectSnoc(init, last, cs);
      SelectSnoc(init, last, cs + ds);
      MeetsAllConcat(last, cs, ds);
      if MeetsAll(last, cs) {
        calc {
          Select(Select(bs, cs), ds);
          Select(r + [last], ds);
          { SelectSnoc(r, last, ds); }
          Select(r, ds) + (if MeetsAll(last, ds) then [last] else []);
          { SelectSelect(init, cs, ds); }
          Select(bs, cs + ds);
        }
      } else {
        calc {
          Select(Select(bs, cs), ds);
          { assert Select(bs, cs) == r + [] == r; }
          Select(r, ds);
          { SelectSelect(init, cs, ds); }
          Select(bs, cs + ds);
        }
      }
    }
  }

  /** Filtering by no criterion keeps the whole list. */
  lemma {:induction false} SelectNothing(bs: seq<Book>)
    ensures Select(bs, []) == bs
  {
    if bs != [] {
      SelectNothing(bs[..|bs| - 1]);
      assert bs == bs[..|bs| - 1] + [bs[|bs| - 1]];
    }
  }

  /** A filter every book of the list meets keeps the whole list. */
  lemma {:induction false} SelectKeepsAll(bs: seq<Book>, cs: seq<Criterion>)
    requires forall b :: b in bs ==> MeetsAll(b, cs)
    ensures Select(bs, cs) == bs
  {
    if bs != [] {
      var init, last := bs[..|bs| - 1], bs[|bs| - 1];
      assert bs == init + [last];
      SelectKeepsAll(init, cs);
    }
  }

  /** Filtering a list without duplicates gives a list without duplicates. */
  lemma {:induction false} SelectNoDup(bs: seq<Book>, cs: seq<Criterion>)
    requires NoDup(bs)
    ensures NoDup(Select(bs, cs))
  {
    if bs != [] {
      var init, last := bs[..|bs| - 1], bs[|bs| - 1];
      assert bs == init + [last];
      SelectNoDup(init, cs);
      assert last !in init;
      SelectSnoc(init, last, cs);
    }
  }

  /** The books of bs with a copy on the shelf, in the order of bs:
      `[b for b in bs if b.copies > 0]`. */
  function InStockOf(bs: seq<Book>): (r: seq<Book>)
    reads bs
    ensures |r| <= |bs|
    ensures forall b :: b in r ==> b in bs && b.copies > 0
    ensures forall b :: b in bs && b.copies > 0 ==> b in r
    ensures NoDup(bs) ==> NoDup(r)
  {
    if bs == [] then []
    else
      var last := bs[|bs| - 1];
      assert bs == bs[..|bs| - 1] + [last];
      InStockOf(bs[..|bs| - 1]) + (if last.copies > 0 then [last] else [])
  }

  /** Listing the books in stock from a list without duplicates gives one entry per such book. */
  lemma InStockCount(bs: seq<Book>)
    requires NoDup(bs)
    ensures |InStockOf(bs)| == |set b | b in bs && b.copies > 0|
  {
    var r := InStockOf(bs);
    NoDupCard(r);
    assert (set b | b in r) == (set b | b in bs && b.copies > 0);
  }
}
