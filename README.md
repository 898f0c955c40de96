# Library catalogue and session manager, modelled in Dafny

This project models the core of a small library-management system. It covers:

- **Books and members.** Books have a number of copies on the shelf. Members keep an ordered list of borrowed ISBNs.
- **The catalogue.** Books are keyed by ISBN and members by member ID. Each store keeps the insertion order that Python dicts have.
- **Circulation.** Issuing and returning books, the loan reports and the availability check.
- **Search.** Title, author and ISBN search, the combined search and its in-stock form, the advanced search, suggestions and search statistics.
- **Login and sessions.** Accounts with hashed passwords and roles, and session tokens that expire.

Where the source mutates objects, the model does too:

- `Member`, `Library` and `AuthSystem` are classes whose methods change their fields in place. `Book` is a class too, because its `copies` field is changed in place, but by the circulation code (`Circulation.Lend` and `Circulation.Receive`) rather than by a method of its own.
- A Python dict that is iterated becomes a `map` together with a `seq` of its keys in insertion order. These are the book store, the member store and the session table. Overwriting a key keeps its slot, `del` removes it, and a new key goes last.
- The user table `AuthSystem.users` is a plain `map`, because nothing iterates over it.
- Loops in the source (`for book in ...: append`) are `while` loops with invariants. Each is proved equal to a specification function. Meaning lemmas about that function state what the source promises.

Modules, one per source file plus shared helpers:

- `Wrappers`: `Option`, `Result` and `Min`.
- `Seqs`: Python list and dict facts.
- `Text`: ASCII lowercasing and substring tests.
- `Books` (book.py).
- `Members` (member.py).
- `Catalogue` (library.py).
- `Circulation` (issue_return.py).
- `Search` (search.py).
- `Auth` (auth_system.py).

Python's `lower()` is modelled on ASCII letters only. The clock is an integer `now` in seconds, passed in by the caller. A session lasts `60 * sessionTimeout` seconds. The password hash is a function given to the constructor. The session token is a parameter.

Some specification functions stand for source code without a row of their own. Their meaning is stated by the lemmas named beside them:

- `Books.Book.IsAvailable` is `is_available` (book.py:51-58). See `Books.Book.GetInfo` and `Circulation.CheckBookAvailability`.
- `Text.Contains` is Python's `in` on strings (search.py:25). See `Text.ContainsAt`.
- `Search.Combined` is the result of `search_books` (search.py:78-98). See `Search.CombinedMeaning`, `Search.ResultsMeaning` and `Search.TitlesFirst`.
- `Circulation.Records` and `Circulation.Outstanding` are the loan report of `get_overdue_books` (issue_return.py:140-151). See `Circulation.RecordsSound`, `Circulation.RecordsComplete`, `Circulation.OutstandingSound` and `Circulation.OutstandingComplete`.
- `Auth.ActiveOf` is the list built by `get_active_sessions` (auth_system.py:256-267). See `Auth.ActiveMeaning` and `Auth.ActiveOrExpired`.
- `Auth.DefaultUsers` is `_setup_default_users` (auth_system.py:32-46). `Auth.DefaultPasswords` is the fallback table of the module-level `authenticate` (auth_system.py:283-286). See `Auth.DefaultAccountsAgree` and `Auth.SimpleAuthenticate`.

Conservation of stock is stated per ISBN. Over the registered members, copies on the shelf plus that ISBN's occurrences in the borrowed lists stay the same. When every list is duplicate-free, the occurrence count equals the number of holders (`Catalogue.OnLoanIsHolders`).

## Model

| member | source | states |
|---|---|---|
| Seqs.RemoveFirst | member.py:72-75 | `list.remove` on a present element shortens the list by one. On an absent element RemoveFirst is the identity, where Python would raise ValueError; `return_book` never reaches `remove` then, because of its guard at member.py:72 |
| Seqs.RemoveFirstMultiset | member.py:72-73 | removing the first occurrence takes away exactly one copy of the element and nothing else |
| Seqs.RemoveFirstNoDup | member.py:72-73 | on a duplicate-free list, removal keeps the list duplicate-free and drops exactly that element |
| Seqs.AppendThenRemove | member.py:57-75 | borrowing an ISBN not held and then returning it gives back the original list |
| Seqs.NoDupCard | member.py:89-96 | a duplicate-free list is as long as its set of elements |
| Seqs.OrderedKeysCard | library.py:137-139 | a dict's key order has one entry per key |
| Seqs.ValuesInOrder | library.py:110 | `list(d.values())` lists the value of each key in key order, one per key |
| Seqs.AppendNew | search.py:86-96 | appending the new elements of s keeps r as a prefix; the result holds exactly the elements of r and s |
| Seqs.AppendNewNoDup | search.py:88-91 | appending only absent elements keeps a duplicate-free list duplicate-free |
| Seqs.NoDupOccurrence | member.py:57-58 | in a duplicate-free list an element occurs once if present, otherwise not at all |
| Text.Lower | search.py:21 | lowercasing keeps the length, maps each character through ASCII lowercasing and leaves no capital letter |
| Text.LowerIdempotent | search.py:21-25 | lowercasing twice is lowercasing once |
| Text.ContainsAt | search.py:25 | the substring test agrees with "occurs at some position" in both directions |
| Text.EmptyQueryMatches | search.py:132-134 | the empty string is contained in every text |
| Books.SelectKeepsAll | search.py:127-145 | a filter that every listed book meets keeps the whole list |
| Text.QueryCaseIrrelevant | search.py:21-25 | matching is the same whether or not the query is lowercased first |
| Books.Book.constructor | book.py:18-31 | the constructor stores isbn, title, author and copies unchanged |
| Books.Book.IsAvailable | book.py:51-58 | holds exactly when copies > 0 |
| Books.Book.GetInfo | book.py:51-73 | the snapshot reports the current fields, and `available` holds exactly when copies > 0 |
| Books.Select | search.py:129-145 | an order-preserving filter: it keeps exactly the books that meet every criterion |
| Books.MeetsAllConcat | search.py:129-145 | meeting a concatenation of criteria is meeting both parts |
| Books.SelectSelect | search.py:129-145 | filtering twice in a row is filtering once by both lists of criteria |
| Books.SelectNothing | search.py:127 | filtering by no criterion keeps the whole list |
| Books.SelectNoDup | search.py:129-145 | filtering a duplicate-free list gives a duplicate-free list |
| Books.InStockOf | library.py:128 | the in-stock filter keeps exactly the books with copies > 0, never grows the list, and keeps it duplicate-free |
| Books.InStockCount | library.py:128 | on a duplicate-free list, the in-stock filter has one entry per book with a copy on the shelf |
| Members.Member.constructor | member.py:17-27 | a new member holds no book |
| Members.Member.BorrowBook | member.py:47-60 | it succeeds exactly when the ISBN is absent, appending it at the end; otherwise the list is unchanged; the list stays duplicate-free |
| Members.Member.ReturnBook | member.py:62-75 | it succeeds exactly when the ISBN is present, removing its first occurrence; otherwise the list is unchanged; afterwards a valid member no longer holds it |
| Members.Member.HasBook | member.py:77-87 | holds exactly when the ISBN occurs in the list |
| Members.Member.BorrowedCount | member.py:89-96 | the number of entries in the list |
| Members.Member.CountIsDistinct | member.py:89-96 | for a valid member, the count is the number of distinct ISBNs held |
| Members.Member.GetInfo | member.py:98-110 | the snapshot copies the ID, the name and the list, and reports the list's length |
| Catalogue.OnLoanIsHolders | issue_return.py:33-34 | with duplicate-free lists, the loans of an ISBN are the number of members holding it |
| Catalogue.UpdateElsewhere | library.py:140 | changing the list of a member that is not listed changes no count |
| Catalogue.UpdateOne | library.py:140 | replacing one member's list changes each loan count, and the total borrowed, by the difference between the lists |
| Catalogue.MoveCopies | issue_return.py:33-34 | moving copies of an ISBN from the shelf into one member's list, or back, keeps shelf plus loans the same for every ISBN |
| Catalogue.Library.constructor | library.py:16-21 | a new catalogue holds no book and no member |
| Catalogue.Library.AddBook | library.py:23-34 | always succeeds; the book is stored under its ISBN, replacing any earlier one in its slot; the other keys are unchanged |
| Catalogue.Library.RemoveBook | library.py:36-49 | succeeds exactly when the ISBN was stored; that key is gone and every other entry keeps its value and its order |
| Catalogue.Library.GetBook | library.py:51-61 | the stored book, or None exactly when the ISBN is absent |
| Catalogue.Library.AddMember | library.py:63-74 | as AddBook, on the member store keyed by member ID |
| Catalogue.Library.RemoveMember | library.py:76-89 | as RemoveBook, on the member store |
| Catalogue.Library.GetMember | library.py:91-101 | the stored member, or None exactly when the ID is absent |
| Catalogue.Library.ListBooks | library.py:103-110 | every stored book exactly once, in ISBN insertion order |
| Catalogue.Library.ListMembers | library.py:112-119 | every stored member exactly once, in ID insertion order |
| Catalogue.Library.AvailableBooks | library.py:121-128 | exactly the stored books with copies > 0, each once |
| Catalogue.Library.Loans | library.py:140 | each registered member's borrowed list, by member ID |
| Catalogue.Library.CopiesAfterChange | issue_return.py:33 | when only one book's count changed, the copy map changed only at that ISBN |
| Catalogue.Library.LoansAfterChange | issue_return.py:34 | when only one member's list changed, the loan map changed only at that member's ID, and only if the member is registered |
| Catalogue.Library.GetLibraryStats | library.py:130-147 | it reports the number of books and members; available books are at most the total and are the books with a copy on the shelf; borrowed books are the sum of the list lengths |
| Circulation.Lend | issue_return.py:33-34 | one copy fewer on the shelf and the ISBN appended; just one book's count and one member's list change; stock is conserved for a registered member |
| Circulation.Receive | issue_return.py:60-61 | one copy more and the first occurrence removed; stock is conserved for a registered member |
| Circulation.IssueBook | issue_return.py:7-36 | refuses with NotFound, then Unavailable (copies <= 0), then AlreadyHeld, changing nothing; otherwise copies go down by one and the ISBN is appended; nothing else changes |
| Circulation.ReturnBook | issue_return.py:38-63 | refuses with NotFound, then NotHeld, changing nothing; otherwise copies go up by one and the ISBN is removed |
| Circulation.IssueThenReturn | issue_return.py:7-63 | after a successful issue, a return of the same book by the same member also succeeds; the book's count and the member's list are then as before |
| Circulation.IssueBookById | issue_return.py:65-82 | an unknown ID is refused with MemberNotFound and nothing changes; otherwise it has the effect of IssueBook; stock is conserved and the borrowed total goes up by one exactly on success |
| Circulation.ReturnBookById | issue_return.py:84-101 | as above for ReturnBook; the borrowed total goes down by one exactly on success |
| Circulation.Details | issue_return.py:114-126 | a member's report lists details only of held books still in the catalogue, and lists every one of them |
| Circulation.GetMemberBorrowedBooks | issue_return.py:103-128 | an unknown ID is MemberNotFound; otherwise the result is the details of the held ISBNs, in list order |
| Circulation.RecordsSound | issue_return.py:139-151 | a loan record names its member and a held book in the catalogue, with that book's title and author |
| Circulation.RecordsComplete | issue_return.py:139-151 | every held book in the catalogue gets its record |
| Circulation.OutstandingSound | issue_return.py:130-153 | every record in the loan report belongs to a listed member who holds that catalogued book |
| Circulation.OutstandingComplete | issue_return.py:130-153 | every catalogued book held by a listed member is in the report |
| Circulation.CollectLoans | issue_return.py:139-151 | the nested loop yields the report, member by member and in each member's list order |
| Circulation.GetOverdueBooks | issue_return.py:130-153 | the report over the members in registration order |
| Circulation.CheckBookAvailability | issue_return.py:155-172 | (false, false, 0) for a missing ISBN; otherwise (true, copies > 0, copies) |
| Circulation.AvailableMeansListed | issue_return.py:155-172 | a book is reported available exactly when it is among the library's available books |
| Search.Keep | search.py:24-28 | the loop of the title and author searches is the order-preserving filter by one criterion |
| Search.KeepMeaning | search.py:24-28 | a book passes a one-criterion filter exactly when it is listed and meets the criterion |
| Search.SearchByTitle | search.py:7-28 | an empty query finds nothing; otherwise the result is, in insertion order, exactly the books whose lowercased title contains the lowercased query |
| Search.SearchByAuthor | search.py:30-51 | the same over the author |
| Search.SearchByIsbn | search.py:53-64 | the book stored under exactly that ISBN, or None |
| Search.CombinedMeaning | search.py:78-98 | the combined search is duplicate-free and lists exactly the books that answer the query under the search type |
| Search.ResultsMeaning | search.py:78-98 | over the catalogue: duplicate-free, every result a catalogued book that answers the query, and every such book found |
| Search.TitlesFirst | search.py:83-84 | title matches come first in the combined result |
| Search.AppendMissing | search.py:88-91 | the de-duplicating loop appends the not-yet-present author matches in order |
| Search.SearchBooks | search.py:66-98 | equals the combined search: title matches, then new author matches, then the ISBN hit if new; empty query or unknown type gives [] |
| Search.SearchAvailableBooks | search.py:100-113 | the combined search filtered to copies > 0, order kept; exactly the matching books in stock, each once |
| Search.Narrow | search.py:129-149 | chained filters; with no filter given, the whole list |
| Search.AdvancedSearch | search.py:115-149 | with no filter it returns all books in insertion order |
| Search.NarrowIsConjunction | search.py:129-145 | the chained comprehensions are one filter by all given text criteria, then the in-stock filter |
| Search.FiltersMeaning | search.py:129-145 | meeting the collected criteria is passing every given text filter |
| Search.EmptyTextFilterKeepsAll | search.py:131-139 | an empty title or author filter would keep every book, so skipping it, as the advanced search does, changes nothing |
| Search.AdvancedSearchMeaning | search.py:115-149 | duplicate-free, and exactly the catalogued books that pass every given filter |
| Search.TitlesFromBooks | search.py:172-174 | title suggestions are exactly the titles of listed books that contain the query |
| Search.AuthorsFromBooks | search.py:176-178 | the same for authors |
| Search.TitlesPrefix | search.py:171-181 | stopping the scan early finds a subset of the titles |
| Search.AuthorsPrefix | search.py:171-181 | the same for authors |
| Search.SubsetCard | search.py:184-185 | a subset has no more elements than the set containing it |
| Search.Pick | search.py:184-185 | taking the first n of a set gives a subset of size min(n, size) |
| Search.ScanSuggestions | search.py:169-181 | the scan collects matching titles and authors; if it stops early, both collections already have n elements |
| Search.GetSearchSuggestions | search.py:151-186 | no suggestions below two characters; otherwise each list is drawn from the matches and has min(max, number of matches) entries |
| Search.SearchStatistics | search.py:188-206 | total and available counts for the "all" search; unavailable is their difference and is never negative |
| Auth.ExpiredTokens | auth_system.py:238-242 | exactly the tokens whose session has expired, each once, in dict order |
| Auth.ActiveMeaning | auth_system.py:256-267 | the active list holds exactly the unexpired sessions |
| Auth.ActiveOrExpired | auth_system.py:238-267 | every session is either active or expired: the two counts add up to the number of sessions |
| Auth.Without | auth_system.py:244-245 | leaving out the deleted tokens keeps exactly the others, in order |
| Auth.WithoutStep | auth_system.py:244-245 | deleting one more key from a dict's order is leaving out one more token |
| Auth.SimpleAuthenticate | auth_system.py:270-291 | a non-empty table is checked by plain lookup; otherwise only librarian/admin123 and member/member123 pass |
| Auth.DefaultAccountsAgree | auth_system.py:32-46 | with an injective hash, a fresh manager accepts exactly the logins the module-level function accepts without a table |
| Auth.AuthSystem.constructor | auth_system.py:20-46 | starts with the two default accounts and no session |
| Auth.AuthSystem.AddUser | auth_system.py:60-83 | refuses an existing username and changes nothing; otherwise stores hash(password), the role and no last login |
| Auth.AuthSystem.Authenticate | auth_system.py:85-110 | UserNotFound or InvalidPassword with nothing changed; on success it reports username, role and info, and records only the login time |
| Auth.AuthSystem.CreateSession | auth_system.py:112-133 | stores the token with expiry now + timeout and returns it; other sessions are untouched; the username is not checked |
| Auth.AuthSystem.ValidateSession | auth_system.py:135-155 | valid exactly when the token is present and now <= expiry (still valid at expiry), returning the username; an expired token is deleted |
| Auth.AuthSystem.Delete | auth_system.py:152 | `del` on a present token removes it from the map and from the key order |
| Auth.AuthSystem.Logout | auth_system.py:157-170 | true exactly when the token was present; only that token is removed |
| Auth.AuthSystem.ChangePassword | auth_system.py:172-191 | a failed check changes nothing; on success the new password is accepted and, if its hash differs, the old one is refused |
| Auth.AuthSystem.GetUserRole | auth_system.py:193-205 | the stored role, or None exactly for an unknown user |
| Auth.AuthSystem.IsLibrarian | auth_system.py:207-217 | holds exactly for a known user whose role is "librarian" |
| Auth.AuthSystem.IsMember | auth_system.py:219-229 | holds exactly for a known user whose role is "member" |
| Auth.AuthSystem.CleanupExpiredSessions | auth_system.py:231-247 | removes exactly the expired sessions and returns their number; the rest keep their values and order, and are all unexpired |
| Auth.DeleteTokens | auth_system.py:244-245 | the deletion loop finds each token present and removes exactly those tokens |
| Auth.AuthSystem.GetActiveSessions | auth_system.py:249-267 | the unexpired sessions in dict order; nothing changes |

## Left out

- The tkinter user interface and the unittest runner are not part of this model.
- Messages are not modelled. For example, `__str__`/`__repr__` texts and the f-string wording of results are replaced by the outcome enums `LoanError`, `Outcome` and `AuthError`.
- Result dictionaries become datatypes. These are `BookInfo`, `MemberInfo`, `LibraryStats`, `BorrowedDetail`, `LoanRecord`, `Availability`, `SearchStats`, `UserView` and `Session`.
- The `user_info` and `created_at` payloads are opaque data. `info` is a string map, with `None` taken as the empty map.
- SHA-256 is not modelled: the hash is an arbitrary function `string -> string` fixed when the manager is created. Properties that need it to be injective say so.
- `uuid.uuid4()` is not modelled: the token is a parameter of `CreateSession`. A token already in use is overwritten in place, as the dict assignment does.
- `datetime.now()` is not modelled: times are integer seconds passed in as `now`, and `timedelta(minutes=t)` becomes `60 * t`.
- `str.lower()` is ASCII-only. Unicode case folding is not modelled.
- Search.GetSearchSuggestions: the order of `list(set)` is unspecified. The suggestions are modelled as sets of the right size drawn from the matches (Search.Pick). `max_suggestions` is a natural number; Python's slicing with a negative bound is not modelled.
- Search.AdvancedSearch: an absent filter (`None`) and the empty string behave alike in the source and are both modelled as "".
- Auth.SimpleAuthenticate: an absent `user_db` and an empty one behave alike in the source; both are the empty map.
- Circulation.IssueBook, Circulation.ReturnBook: stock conservation is stated only for a member registered in the catalogue. The source lets an unregistered member borrow, and then the copies leave the shelf without appearing in any registered list.
- Circulation.IssueThenReturn: the round trip is stated for the book's own count and the member's list. The other books' counts are unchanged by each step separately, by the copy-map clauses of IssueBook and ReturnBook.
- Circulation.CollectLoans and the specification function `Circulation.Details` index the catalogue's map directly, where the source calls `get_book`. The two agree (`Catalogue.Library.GetBook`). `Circulation.GetMemberBorrowedBooks` calls `GetBook` as the source does.
- Catalogue.Library.AvailableBooks: its own contract gives membership in both directions, no duplicates, and only the bound `|r| <= |books|` on its size. The exact count, one entry per book with a copy on the shelf, is `Books.InStockCount`, which `Catalogue.Library.GetLibraryStats` uses. The order is that of `InStockOf` over `ListBooks`, which is an order-preserving filter by definition.
- Default arguments become required parameters; a caller relying on the default passes it explicitly. These are `search_type="all"` (search.py:66, 100), `max_suggestions=5` (search.py:151), `available_only=False` (search.py:115) and `session_timeout=30` (auth_system.py:20).
