/** Searching the catalogue: by a case-insensitive substring of the title or the author, by
    exact ISBN, the combined search and its in-stock variant, the conjunctive advanced search,
    suggestions and result counts. Every search walks the books in the catalogue's insertion
    order. */
module Search {
  import opened Wrappers
  import opened Seqs
  import opened Text
  import opened Books
  import opened Catalogue

  /** The loop shared by the title and author searches: the books of bs that meet c, in the
      order of bs. */
  method Keep(bs: seq<Book>, c: Criterion) returns (r: seq<Book>)
    ensures r == Select(bs, [c])
  {
    r := [];
    var i := 0;
    while i < |bs|
      invariant 0 <= i <= |bs|
      invariant r == Select(bs[..i], [c])
    {
      var book := bs[i];
      SelectStep(bs, i, [c]);
      MeetsOne(book, c);
      if Meets(book, c) {
        r := r + [book];
      }
      i := i + 1;
    }
    assert bs[..i] == bs;
  }

  /** A book passes the filter by one criterion exactly when it is listed and meets it. */
  lemma KeepMeaning(bs: seq<Book>, c: Criterion)
    ensures forall b :: b in Select(bs, [c]) <==> b in bs && Meets(b, c)
  {
    forall b | b in bs ensures MeetsAll(b, [c]) <==> Meets(b, c) {
      MeetsOne(b, c);
    }
  }

  /** The catalogued books whose title contains title, ignoring case, in insertion order;
      nothing for an empty query. */
  method SearchByTitle(lib: Library, title: string) returns (r: seq<Book>)
    requires lib.Valid()
    ensures r == if title == "" then [] else Select(lib.ListBooks(), [TitleHas(title)])
    ensures forall b :: b in r ==> b in lib.books.Values && title != "" && MatchesFolded(b.title, title)
    ensures forall k :: k in lib.books && title != "" && MatchesFolded(lib.books[k].title, title) ==> lib.books[k] in r
  {
    if title == "" {
      return [];
    }
    var all := lib.ListBooks();
    r := Keep(all, TitleHas(title));
    KeepMeaning(all, TitleHas(title));
  }

  /** The catalogued books whose author contains author, ignoring case, in insertion order;
      nothing for an empty query. */
  method SearchByAuthor(lib: Library, author: string) returns (r: seq<Book>)
    requires lib.Valid()
    ensures r == if author == "" then [] else Select(lib.ListBooks(), [AuthorHas(author)])
    ensures forall b :: b in r ==> b in lib.books.Values && author != "" && MatchesFolded(b.author, author)
    ensures forall k :: k in lib.books && author != "" && MatchesFolded(lib.books[k].author, author) ==> lib.books[k] in r
  {
    if author == "" {
      return [];
    }
    var all := lib.ListBooks();
    r := Keep(all, AuthorHas(author));
    KeepMeaning(all, AuthorHas(author));
  }

  /** The book stored under exactly this ISBN, if any. */
  function SearchByIsbn(lib: Library, isbn: string): (r: Option<Book>)
    reads lib
    requires lib.Valid()
    ensures r.Some? <==> isbn in lib.books
    ensures r.Some? ==> r.value == lib.books[isbn] && r.value.isbn == isbn
  {
    lib.GetBook(isbn)
  }

  /** Whether the search type t takes in the search named kind; "all" takes in every kind. */
  predicate Includes(t: string, kind: string)
  {
    t == "all" || t == kind
  }

  /** Book b answers query q under search type t: a non-empty query that the title or the
      author contains, ignoring case, or that is the ISBN, as far as t takes those in. */
  predicate Wanted(b: Book, q: string, t: string)
  {
    && q != ""
    && (|| (Includes(t, "title") && MatchesFolded(b.title, q))
        || (Includes(t, "author") && MatchesFolded(b.author, q))
        || (Includes(t, "isbn") && b.isbn == q))
  }

  /** The combined search over the listing all, where hit is the book stored under the query
      as an ISBN: the title matches, then the author matches not already present, then hit if
      not already present. An empty query, or a search type other than "all", "title",
      "author" and "isbn", finds nothing. */
  function Combined(all: seq<Book>, hit: Option<Book>, q: string, t: string): seq<Book>
    reads all
  {
    if q == "" then []
    else
      var byTitle := if Includes(t, "title") then Select(all, [TitleHas(q)]) else [];
      var withAuthor := if Includes(t, "author") then AppendNew(byTitle, Select(all, [AuthorHas(q)])) else byTitle;
      if Includes(t, "isbn") && hit.Some? then AppendNew(withAuthor, [hit.value]) else withAuthor
  }

  /** Over a listing without duplicates in which hit is the one book whose ISBN is the query,
      the combined search lists each book that answers the query exactly once, and nothing
      else. */
  lemma CombinedMeaning(all: seq<Book>, hit: Option<Book>, q: string, t: string)
    requires NoDup(all)
    requires hit.Some? ==> hit.value in all
    requires forall b :: b in all ==> (b.isbn == q <==> hit == Some(b))
    ensures NoDup(Combined(all, hit, q, t))
    ensures forall b :: b in Combined(all, hit, q, t) <==> b in all && Wanted(b, q, t)
  {
    if q != "" {
      KeepMeaning(all, TitleHas(q));
      KeepMeaning(all, AuthorHas(q));
      SelectNoDup(all, [TitleHas(q)]);
      var byTitle := if Includes(t, "title") then Select(all, [TitleHas(q)]) else [];
      var withAuthor := if Includes(t, "author") then AppendNew(byTitle, Select(all, [AuthorHas(q)])) else byTitle;
      AppendNewNoDup(byTitle, Select(all, [AuthorHas(q)]));
      AppendNewNoDup(withAuthor, if hit.Some? then [hit.value] else []);
    }
  }

  /** The combined search of the catalogue lists each catalogued book that answers the query
      exactly once, and nothing else. */
  lemma ResultsMeaning(lib: Library, q: string, t: string)
    requires lib.Valid()
    ensures NoDup(Combined(lib.ListBooks(), lib.GetBook(q), q, t))
    ensures forall b :: b in Combined(lib.ListBooks(), lib.GetBook(q), q, t) ==> b in lib.books.Values && Wanted(b, q, t)
    ensures forall k :: k in lib.books && Wanted(lib.books[k], q, t) ==> lib.books[k] in Combined(lib.ListBooks(), lib.GetBook(q), q, t)
  {
    var all := lib.ListBooks();
    CombinedMeaning(all, lib.GetBook(q), q, t);
  }

  /** In the combined search the title matches come first, in listing order. */
  lemma TitlesFirst(all: seq<Book>, hit: Option<Book>, q: string, t: string)
    requires q != "" && Includes(t, "title")
    ensures Select(all, [TitleHas(q)]) <= Combined(all, hit, q, t)
  {
  }

  /** The de-duplicating loop of the combined search: appends the elements of s not present. */
  method AppendMissing(r0: seq<Book>, s: seq<Book>) returns (r: seq<Book>)
    ensures r == AppendNew(r0, s)
  {
    r := r0;
    var i := 0;
    while i < |s|
      invariant 0 <= i <= |s|
      invariant r == AppendNew(r0, s[..i])
    {
      AppendNewStep(r0, s, i);
      if s[i] !in r {
        r := r + [s[i]];
      }
      i := i + 1;
    }
    assert s[..i] == s;
  }

  /** The combined search, built as the source builds it: the title results, then the author
      results skipping books already present, then the ISBN hit if not already present. */
  method SearchBooks(lib: Library, query: string, searchType: string) returns (r: seq<Book>)
    requires lib.Valid()
    ensures r == Combined(lib.ListBooks(), lib.GetBook(query), query, searchType)
  {
    if query == "" {
      return [];
    }
    ghost var all := lib.ListBooks();
    r := [];
    if Includes(searchType, "title") {
      var byTitle := SearchByTitle(lib, query);
      r := r + byTitle;
    }
    ghost var withTitle := r;
    assert withTitle == if Includes(searchType, "title") then Select(all, [TitleHas(query)]) else [];
    if Includes(searchType, "author") {
      var byAuthor := SearchByAuthor(lib, query);
      r := AppendMissing(r, byAuthor);
    }
    ghost var withAuthor := r;
    assert withAuthor == if Includes(searchType, "author") then AppendNew(withTitle, Select(all, [AuthorHas(query)])) else withTitle;
    if Includes(searchType, "isbn") {
      var hit := SearchByIsbn(lib, query);
      if hit.Some? {
        AppendNewOne(r, hit.value);
        if hit.value !in r {
          r := r + [hit.value];
        }
      }
    }
    assert r == if Includes(searchType, "isbn") && lib.GetBook(query).Some? then AppendNew(withAuthor, [lib.GetBook(query).value]) else withAuthor;
  }

  /** The combined search restricted to books with a copy on the shelf, order kept. */
  method SearchAvailableBooks(lib: Library, query: string, searchType: string) returns (r: seq<Book>)
    requires lib.Valid()
    ensures r == InStockOf(Combined(lib.ListBooks(), lib.GetBook(query), query, searchType))
    ensures NoDup(r)
    ensures forall b :: b in r ==> b in lib.books.Values && Wanted(b, query, searchType) && b.copies > 0
    ensures forall k :: k in lib.books && Wanted(lib.books[k], query, searchType) && lib.books[k].copies > 0 ==> lib.books[k] in r
  {
    var all := SearchBooks(lib, query, searchType);
    ResultsMeaning(lib, query, searchType);
    r := InStockOf(all);
  }

  /** The text filters the advanced search applies, in its order; an empty string is a filter
      not given. */
  function Filters(title: string, author: string, isbn: string): seq<Criterion>
  {
    (if title != "" then [TitleHas(title)] else [])
    + (if author != "" then [AuthorHas(author)] else [])
    + (if isbn != "" then [IsbnIs(isbn)] else [])
  }

  /** An empty title or author filter would keep every book, so skipping it, as the advanced
      search does, changes nothing; an empty ISBN filter would keep only books whose ISBN is
      empty, which is why skipping it matters. */
  lemma EmptyTextFilterKeepsAll(bs: seq<Book>)
    ensures Select(bs, [TitleHas("")]) == bs
    ensures Select(bs, [AuthorHas("")]) == bs
  {
    forall b | b in bs
      ensures MeetsAll(b, [TitleHas("")]) && MeetsAll(b, [AuthorHas("")])
    {
      EmptyQueryMatches(b.title);
      EmptyQueryMatches(b.author);
      MeetsOne(b, TitleHas(""));
      MeetsOne(b, AuthorHas(""));
    }
    SelectKeepsAll(bs, [TitleHas("")]);
    SelectKeepsAll(bs, [AuthorHas("")]);
  }

  /** Book b passes every filter given to the advanced search. */
  predicate PassesAll(b: Book, title: string, author: string, isbn: string, availableOnly: bool)
    reads b
  {
    && (title != "" ==> MatchesFolded(b.title, title))
    && (author != "" ==> MatchesFolded(b.author, author))
    && (isbn != "" ==> b.isbn == isbn)
    && (availableOnly ==> b.copies > 0)
  }

  /** The comprehensions of the advanced search applied to the listing bs: each given filter
      narrows the list in turn, order kept. */
  function Narrow(bs: seq<Book>, title: string, author: string, isbn: string, availableOnly: bool): (r: seq<Book>)
    reads set b | b in bs
    ensures title == "" && author == "" && isbn == "" && !availableOnly ==> r == bs
  {
    var r1 := if title != "" then Select(bs, [TitleHas(title)]) else bs;
    var r2 := if author != "" then Select(r1, [AuthorHas(author)]) else r1;
    var r3 := if isbn != "" then Select(r2, [IsbnIs(isbn)]) else r2;
    if availableOnly then InStockOf(r3) else r3
  }

  /** The advanced search: the catalogue in insertion order, narrowed by each given filter in
      turn; with no filter it is the whole catalogue. */
  function AdvancedSearch(lib: Library, title: string, author: string, isbn: string, availableOnly: bool): (r: seq<Book>)
    reads lib, lib.books.Values
    requires lib.Valid()
    ensures title == "" && author == "" && isbn == "" && !availableOnly ==> r == lib.ListBooks()
  {
    Narrow(lib.ListBooks(), title, author, isbn, availableOnly)
  }

  /** Narrowing by one text filter at a time is filtering by all of them at once. */
  lemma NarrowIsConjunction(bs: seq<Book>, title: string, author: string, isbn: string, availableOnly: bool)
    ensures Narrow(bs, title, author, isbn, availableOnly) ==
      var r := Select(bs, Filters(title, author, isbn)); if availableOnly then InStockOf(r) else r
  {
    var c1 := if title != "" then [TitleHas(title)] else [];
    var c2 := if author != "" then [AuthorHas(author)] else [];
    var c3 := if isbn != "" then [IsbnIs(isbn)] else [];
    SelectNothing(bs);
    assert (if title != "" then Select(bs, [TitleHas(title)]) else bs) == Select(bs, c1);
    SelectSelect(bs, c1, c2);
    assert c1 + [] == c1;
    SelectSelect(bs, c1 + c2, c3);
    assert (c1 + c2) + [] == c1 + c2;
  }

  /** Meeting the advanced search's text filters is passing each given one. */
  lemma FiltersMeaning(b: Book, title: string, author: string, isbn: string)
    ensures MeetsAll(b, Filters(title, author, isbn)) <==> PassesAll(b, title, author, isbn, false)
  {
    var c1 := if title != "" then [TitleHas(title)] else [];
    var c2 := if author != "" then [AuthorHas(author)] else [];
    var c3 := if isbn != "" then [IsbnIs(isbn)] else [];
    MeetsAllConcat(b, c1 + c2, c3);
    MeetsAllConcat(b, c1, c2);
    if title != "" { MeetsOne(b, TitleHas(title)); }
    if author != "" { MeetsOne(b, AuthorHas(author)); }
    if isbn != "" { MeetsOne(b, IsbnIs(isbn)); }
  }

  /** The advanced search lists, in insertion order, exactly the catalogued books that pass
      every given filter, each once. */
  lemma AdvancedSearchMeaning(lib: Library, title: string, author: string, isbn: string, availableOnly: bool)
    requires lib.Valid()
    ensures NoDup(AdvancedSearch(lib, title, author, isbn, availableOnly))
    ensures forall b :: b in AdvancedSearch(lib, title, author, isbn, availableOnly) ==>
      b in lib.books.Values && PassesAll(b, title, author, isbn, availableOnly)
    ensures forall k :: k in lib.books && PassesAll(lib.books[k], title, author, isbn, availableOnly) ==>
      lib.books[k] in AdvancedSearch(lib, title, author, isbn, availableOnly)
  {
    var all, cs := lib.ListBooks(), Filters(title, author, isbn);
    NarrowIsConjunction(all, title, author, isbn, availableOnly);
    SelectNoDup(all, cs);
    forall b | b in all ensures MeetsAll(b, cs) <==> PassesAll(b, title, author, isbn, false) {
      FiltersMeaning(b, title, author, isbn);
    }
  }

  /** The distinct titles among bs that contain q, ignoring case. */
  function TitlesMatching(bs: seq<Book>, q: string): set<string>
  {
    if bs == [] then {}
    else
      var last := bs[|bs| - 1];
      TitlesMatching(bs[..|bs| - 1], q) + (if MatchesFolded(last.title, q) then {last.title} else {})
  }

  /** TitlesMatching holds exactly the titles of listed books that contain the query. */
  lemma {:induction false} TitlesFromBooks(bs: seq<Book>, q: string)
    ensures forall t :: t in TitlesMatching(bs, q) ==> MatchesFolded(t, q) && exists b :: b in bs && b.title == t
    ensures forall b :: b in bs && MatchesFolded(b.title, q) ==> b.title in TitlesMatching(bs, q)
  {
    if bs != [] {
      var init := bs[..|bs| - 1];
      TitlesFromBooks(init, q);
      assert bs == init + [bs[|bs| - 1]];
    }
  }

  /** One more round of the scan for matching titles. */
  lemma TitlesStep(bs: seq<Book>, i: nat, q: string)
    requires i < |bs|
    ensures TitlesMatching(bs[..i + 1], q) ==
      TitlesMatching(bs[..i], q) + (if MatchesFolded(bs[i].title, q) then {bs[i].title} else {})
  {
    assert bs[..i + 1][..i] == bs[..i];
  }

  /** Scanning a prefix finds no title the whole scan would not. */
  lemma {:induction false} TitlesPrefix(bs: seq<Book>, i: nat, q: string)
    requires i <= |bs|
    ensures TitlesMatching(bs[..i], q) <= TitlesMatching(bs, q)
  {
    if i < |bs| {
      var init := bs[..|bs| - 1];
      assert bs[..i] == init[..i];
      TitlesPrefix(init, i, q);
    } else {
      assert bs[..i] == bs;
    }
  }

  /** The distinct authors among bs that contain q, ignoring case. */
  function AuthorsMatching(bs: seq<Book>, q: string): set<string>
  {
    if bs == [] then {}
    else
      var last := bs[|bs| - 1];
      AuthorsMatching(bs[..|bs| - 1], q) + (if MatchesFolded(last.author, q) then {last.author} else {})
  }

  /** AuthorsMatching holds exactly the authors of listed books that contain the query. */
  lemma {:induction false} AuthorsFromBooks(bs: seq<Book>, q: string)
    ensures forall a :: a in AuthorsMatching(bs, q) ==> MatchesFolded(a, q) && exists b :: b in bs && b.author == a
    ensures forall b :: b in bs && MatchesFolded(b.author, q) ==> b.author in AuthorsMatching(bs, q)
  {
    if bs != [] {
      var init := bs[..|bs| - 1];
      AuthorsFromBooks(init, q);
      assert bs == init + [bs[|bs| - 1]];
    }
  }

  /** One more round of the scan for matching authors. */
  lemma AuthorsStep(bs: seq<Book>, i: nat, q: string)
    requires i < |bs|
    ensures AuthorsMatching(bs[..i + 1], q) ==
      AuthorsMatching(bs[..i], q) + (if MatchesFolded(bs[i].author, q) then {bs[i].author} else {})
  {
    assert bs[..i + 1][..i] == bs[..i];
  }

  /** Scanning a prefix finds no author the whole scan would not. */
  lemma {:induction false} AuthorsPrefix(bs: seq<Book>, i: nat, q: string)
    requires i <= |bs|
    ensures AuthorsMatching(bs[..i], q) <= AuthorsMatching(bs, q)
  {
    if i < |bs| {
      var init := bs[..|bs| - 1];
      assert bs[..i] == init[..i];
      AuthorsPrefix(init, i, q);
    } else {
      assert bs[..i] == bs;
    }
  }

  /** A subset has no more elements than its superset. */
  lemma {:induction false} SubsetCard(a: set<string>, b: set<string>)
    requires a <= b
    ensures |a| <= |b|
  {
    if a != {} {
      var x :| x in a;
      SubsetCard(a - {x}, b - {x});
    }
  }

  /** The first n elements of s in some order: Python's `list(s)[:n]` for n >= 0. */
  method Pick(s: set<string>, n: nat) returns (r: set<string>)
    ensures r <= s && |r| == Min(n, |s|)
  {
    r := {};
    var rest := s;
    while |r| < n && rest != {}
      invariant r <= s && rest <= s && r !! rest && r + rest == s
      invariant |r| <= n && |r| + |rest| == |s|
      decreases |rest|
    {
      var x :| x in rest;
      r, rest := r + {x}, rest - {x};
    }
  }

  /** Title and author suggestions for a partial query: none below two characters; otherwise
      at most maxSuggestions of each, drawn from the matching titles and authors. The scan
      stops early only once both kinds have enough, so each list is as long as it can be. */
  method GetSearchSuggestions(lib: Library, partialQuery: string, maxSuggestions: nat) returns (titles: set<string>, authors: set<string>)
    requires lib.Valid()
    ensures |partialQuery| < 2 ==> titles == {} && authors == {}
    ensures |partialQuery| >= 2 ==>
      && titles <= TitlesMatching(lib.ListBooks(), partialQuery)
      && |titles| == Min(maxSuggestions, |TitlesMatching(lib.ListBooks(), partialQuery)|)
      && authors <= AuthorsMatching(lib.ListBooks(), partialQuery)
      && |authors| == Min(maxSuggestions, |AuthorsMatching(lib.ListBooks(), partialQuery)|)
  {
    if |partialQuery| < 2 {
      return {}, {};
    }
    var all := lib.ListBooks();
    var foundTitles, foundAuthors := ScanSuggestions(all, partialQuery, maxSuggestions);
    SubsetCard(foundTitles, TitlesMatching(all, partialQuery));
    SubsetCard(foundAuthors, AuthorsMatching(all, partialQuery));
    titles := Pick(foundTitles, maxSuggestions);
    authors := Pick(foundAuthors, maxSuggestions);
  }

  /** The scan behind the suggestions over the listing all: it collects the matching titles
      and authors and stops early once both sets have n elements. */
  method ScanSuggestions(all: seq<Book>, q: string, n: nat) returns (foundTitles: set<string>, foundAuthors: set<string>)
    ensures foundTitles <= TitlesMatching(all, q) && foundAuthors <= AuthorsMatching(all, q)
    ensures || (foundTitles == TitlesMatching(all, q) && foundAuthors == AuthorsMatching(all, q))
            || (|foundTitles| >= n && |foundAuthors| >= n)
  {
    foundTitles, foundAuthors := {}, {};
    var i := 0;
    while i < |all|
      invariant 0 <= i <= |all|
      invariant foundTitles == TitlesMatching(all[..i], q) && foundAuthors == AuthorsMatching(all[..i], q)
    {
      var book := all[i];
      TitlesStep(all, i, q);
      AuthorsStep(all, i, q);
      if MatchesFolded(book.title, q) {
        foundTitles := foundTitles + {book.title};
      }
      if MatchesFolded(book.author, q) {
        foundAuthors := foundAuthors + {book.author};
      }
      i := i + 1;
      if |foundTitles| >= n && |foundAuthors| >= n {
        break;
      }
    }
    TitlesPrefix(all, i, q);
    AuthorsPrefix(all, i, q);
    if i == |all| {
      assert all[..i] == all;
    }
  }

  datatype SearchStats = SearchStats(totalMatches: nat, availableMatches: nat, unavailableMatches: int, query: string)

  /** Counts for a query under the search type "all": how many books match, how many of them
      have a copy on the shelf, and how many do not. */
  method SearchStatistics(lib: Library, query: string) returns (s: SearchStats)
    requires lib.Valid()
    ensures s.totalMatches == |Combined(lib.ListBooks(), lib.GetBook(query), query, "all")|
    ensures s.availableMatches == |InStockOf(Combined(lib.ListBooks(), lib.GetBook(query), query, "all"))|
    ensures 0 <= s.unavailableMatches == s.totalMatches - s.availableMatches
    ensures s.query == query
  {
    var all := SearchBooks(lib, query, "all");
    var available := SearchAvailableBooks(lib, query, "all");
    s := SearchStats(|all|, |available|, |all| - |available|, query);
  }
}
