/** The lending rules of backend/controller/memberController.js: the read-only handlers
    (available books, search, the caller's borrowed and returned books), the edits borrow,
    reserve and return make to a book and to the caller's user document, and the invariants those
    edits keep. The handlers that apply the edits to the stores are Library.Library's methods. */
module Lending {
  import opened Schema
  import opened Query

  // ---------------------------------------------------------------- read-only handlers

  /** getAvailableBooks: `Book.find({ availability: "available" })`. */
  function AvailableBooks(books: map<BookId, Book>): (r: map<BookId, Book>)
    ensures forall k :: k in r <==> k in books && books[k].availability == Available
    ensures forall k :: k in r ==> r[k] == books[k]
  {
    Find(books, BookFilter(Some("available"), None))
  }

  /** The filter searchBooks builds: always restricted to available books, and to a title or
      author match only when the query is non-empty. */
  function SearchFilter(query: string): BookFilter {
    BookFilter(Some("available"), if query == "" then None else Some(query))
  }

  /** searchBooks: only available books; with an empty query all of them, otherwise exactly
      those whose title or author contains the query case-insensitively. */
  function SearchBooks(books: map<BookId, Book>, query: string): (r: map<BookId, Book>)
    ensures forall k :: k in r ==> k in books && r[k] == books[k]
    ensures forall k :: k in r ==> books[k].availability == Available
    ensures query == "" ==> r == AvailableBooks(books)
    ensures query != "" ==> forall k :: k in books ==>
      (k in r <==> books[k].availability == Available && TitleOrAuthorMatches(books[k], query))
  {
    Find(books, SearchFilter(query))
  }

  /** The caller holds the book, whether borrowed or reserved. */
  predicate HeldBy(b: Book, u: UserId) {
    b.borrowedBy == Some(u)
  }

  /** getBorrowedBooks: `Book.find({ borrowedBy: userId })`, so reserved books are included. */
  function BorrowedBooks(books: map<BookId, Book>, caller: UserId): (r: map<BookId, Book>)
    ensures forall k :: k in r <==> k in books && books[k].borrowedBy == Some(caller)
    ensures forall k :: k in r ==> r[k] == books[k]
  {
    map k | k in books && HeldBy(books[k], caller) :: books[k]
  }

  /** The ids of a list of summaries, in order. */
  function IdsOf(r: seq<BookSummary>): seq<BookId> {
    seq(|r|, i requires 0 <= i < |r| => r[i].id)
  }

  /** `populate("returnedBooks", "title author")` on a list of book references: each resolvable
      reference becomes its book's summary, in list order and with repetitions; a dangling
      reference (to a deleted book) is dropped. */
  function Populate(ids: seq<BookId>, books: map<BookId, Book>): (r: seq<BookSummary>)
    ensures |r| <= |ids|
    ensures (forall i :: 0 <= i < |ids| ==> ids[i] in books) ==>
      |r| == |ids| && forall i :: 0 <= i < |ids| ==> r[i] == SummaryOf(books, ids[i])
    ensures forall s :: s in r ==> s.id in ids && s.id in books && s == SummaryOf(books, s.id)
    ensures forall id :: id in ids && id in books ==> SummaryOf(books, id) in r
  {
    if ids == [] then []
    else
      var rest := Populate(ids[1..], books);
      if ids[0] in books then [SummaryOf(books, ids[0])] + rest else rest
  }

  /** The ids of a list with one more summary in front. */
  lemma IdsOfCons(s: BookSummary, rest: seq<BookSummary>)
    ensures IdsOf([s] + rest) == [s.id] + IdsOf(rest)
  {
  }

  /** An existing book occurs in the populated list as often as the list names it, and a deleted
      one not at all. */
  lemma {:induction false} PopulateCount(ids: seq<BookId>, books: map<BookId, Book>, id: BookId)
    ensures multiset(IdsOf(Populate(ids, books)))[id] == if id in books then multiset(ids)[id] else 0
  {
    if ids != [] {
      PopulateCount(ids[1..], books, id);
      assert ids == [ids[0]] + ids[1..];
      if ids[0] in books {
        IdsOfCons(SummaryOf(books, ids[0]), Populate(ids[1..], books));
      }
    }
  }

  /** PopulateCount for every book at once. */
  lemma PopulateCounts(ids: seq<BookId>, books: map<BookId, Book>)
    ensures forall id :: multiset(IdsOf(Populate(ids, books)))[id] == if id in books then multiset(ids)[id] else 0
  {
    forall id ensures multiset(IdsOf(Populate(ids, books)))[id] == if id in books then multiset(ids)[id] else 0 {
      PopulateCount(ids, books, id);
    }
  }

  /** Populating a list is populating its parts: dangling references drop out where they stand
      and every other reference keeps its place. */
  lemma {:induction false} PopulateAppend(a: seq<BookId>, b: seq<BookId>, books: map<BookId, Book>)
    ensures Populate(a + b, books) == Populate(a, books) + Populate(b, books)
  {
    if a == [] {
      assert a + b == b;
    } else {
      assert (a + b)[0] == a[0];
      assert (a + b)[1..] == a[1..] + b;
      PopulateAppend(a[1..], b, books);
    }
  }

  /** getReturnedBooks: NotFound for an unknown caller, otherwise the caller's returned-books
      history, populated: only history books, each with its title and author, every existing book
      as often as the history names it, and in history order when nothing dangles. */
  function ReturnedBooks(users: map<UserId, User>, books: map<BookId, Book>, caller: UserId)
    : (r: Result<seq<BookSummary>>)
    ensures r.Err? <==> caller !in users
    ensures r.Err? ==> r.error == NotFound
    ensures r.Ok? ==> |r.value| <= |users[caller].returnedBooks|
    ensures r.Ok? ==> forall s :: s in r.value ==>
      s.id in users[caller].returnedBooks && s.id in books && s == SummaryOf(books, s.id)
    ensures r.Ok? ==> forall id :: (multiset(IdsOf(r.value))[id] ==
      if id in books then multiset(users[caller].returnedBooks)[id] else 0)
    ensures r.Ok? ==> var h := users[caller].returnedBooks;
      (forall i :: 0 <= i < |h| ==> h[i] in books) ==>
        |r.value| == |h| && forall i :: 0 <= i < |h| ==> r.value[i] == SummaryOf(books, h[i])
  {
    if caller !in users then Err(NotFound)
    else
      PopulateCounts(users[caller].returnedBooks, books);
      Ok(Populate(users[caller].returnedBooks, books))
  }

  // ---------------------------------------------------------------- the edits

  /** The fields the lending handlers never touch: title, author, ISBN, cover, return date and
      reservations. */
  predicate SameEntry(a: Book, b: Book) {
    a.title == b.title && a.author == b.author && a.isbn == b.isbn && a.coverImage == b.coverImage
    && a.returnDate == b.returnDate && a.reservedBy == b.reservedBy
  }

  /** What borrowBook writes to the book: it is on loan to the caller since `now`, and has a
      holder as a borrowed book must. */
  function Lent(b: Book, caller: UserId, now: Timestamp): (r: Book)
    ensures OnLoanTo(r, caller) && HolderConsistent(r) && r.borrowedDate == Some(now)
    ensures SameEntry(r, b)
  {
    b.(availability := Borrowed, borrowedBy := Some(caller), borrowedDate := Some(now))
  }

  /** What reserveBook writes to the book: the caller holds it without a loan; no date is set and
      `reservedBy` is left alone. */
  function Held(b: Book, caller: UserId): (r: Book)
    ensures HeldBy(r, caller) && HolderConsistent(r) && r.availability == Reserved
    ensures forall u :: !OnLoanTo(r, u)
    ensures SameEntry(r, b) && r.borrowedDate == b.borrowedDate
  {
    b.(availability := Reserved, borrowedBy := Some(caller))
  }

  /** What returnBook writes to the book: nobody holds it and it is available again, but
      `borrowedDate` is not cleared. */
  function Released(b: Book): (r: Book)
    ensures HolderConsistent(r) && r.availability == Available
    ensures forall u :: !HeldBy(r, u)
    ensures SameEntry(r, b) && r.borrowedDate == b.borrowedDate
  {
    b.(borrowedBy := None, availability := Available)
  }

  /** A borrow of an available book adds it to the caller's held books and to nobody else's. */
  lemma HeldListsAfterBorrow(books: map<BookId, Book>, id: BookId, caller: UserId, now: Timestamp,
                             u: UserId)
    requires HoldersConsistent(books) && id in books && books[id].availability == Available
    ensures BorrowedBooks(books[id := Lent(books[id], caller, now)], u).Keys
      == BorrowedBooks(books, u).Keys + (if u == caller then {id} else {})
  {
  }

  /** Likewise a reservation of an available book. */
  lemma HeldListsAfterReserve(books: map<BookId, Book>, id: BookId, caller: UserId, u: UserId)
    requires HoldersConsistent(books) && id in books && books[id].availability == Available
    ensures BorrowedBooks(books[id := Held(books[id], caller)], u).Keys
      == BorrowedBooks(books, u).Keys + (if u == caller then {id} else {})
  {
  }

  /** A return takes the book off every user's held books. */
  lemma HeldListsAfterReturn(books: map<BookId, Book>, id: BookId, u: UserId)
    requires id in books
    ensures BorrowedBooks(books[id := Released(books[id])], u).Keys == BorrowedBooks(books, u).Keys - {id}
  {
  }

  /** `User.findByIdAndUpdate(caller, { $inc: { borrowedBooksCount: 1, totalBorrowed: 1 } })`;
      an unknown id updates nothing. */
  function Charged(users: map<UserId, User>, caller: UserId): (r: map<UserId, User>)
    ensures r.Keys == users.Keys
    ensures forall u :: u in users && u != caller ==> r[u] == users[u]
    ensures caller in users ==> (r[caller].borrowedBooksCount == users[caller].borrowedBooksCount + 1
      && r[caller].totalBorrowed == users[caller].totalBorrowed + 1
      && r[caller] == users[caller].(borrowedBooksCount := r[caller].borrowedBooksCount,
                                     totalBorrowed := r[caller].totalBorrowed))
  {
    if caller in users then
      var u := users[caller];
      users[caller := u.(borrowedBooksCount := u.borrowedBooksCount + 1, totalBorrowed := u.totalBorrowed + 1)]
    else users
  }

  /** Charging a borrow leaves every history as it was and lowers no lifetime count. */
  lemma ChargedOnlyRaises(users: map<UserId, User>, caller: UserId)
    ensures forall u :: u in users ==> (u in Charged(users, caller)
      && Charged(users, caller)[u].returnedBooks == users[u].returnedBooks
      && Charged(users, caller)[u].totalBorrowed >= users[u].totalBorrowed)
  {
  }

  /** Crediting a return lengthens every history at its end at most and leaves every lifetime
      count as it was. */
  lemma CreditedOnlyGrows(users: map<UserId, User>, caller: UserId, id: BookId)
    ensures forall u :: u in users ==> (u in Credited(users, caller, id)
      && users[u].returnedBooks <= Credited(users, caller, id)[u].returnedBooks
      && Credited(users, caller, id)[u].totalBorrowed == users[u].totalBorrowed)
  {
  }

  /** `User.findByIdAndUpdate(caller, { $push: { returnedBooks: id }, $inc: { borrowedBooksCount: -1 } })`;
      an unknown id updates nothing. */
  function Credited(users: map<UserId, User>, caller: UserId, id: BookId): (r: map<UserId, User>)
    ensures r.Keys == users.Keys
    ensures forall u :: u in users && u != caller ==> r[u] == users[u]
    ensures caller in users ==> (r[caller].returnedBooks == users[caller].returnedBooks + [id]
      && r[caller].borrowedBooksCount == users[caller].borrowedBooksCount - 1
      && r[caller] == users[caller].(returnedBooks := r[caller].returnedBooks,
                                     borrowedBooksCount := r[caller].borrowedBooksCount))
  {
    if caller in users then
      var u := users[caller];
      users[caller := u.(returnedBooks := u.returnedBooks + [id], borrowedBooksCount := u.borrowedBooksCount - 1)]
    else users
  }

  /** After a return is credited, the caller's returned-books list is the old one with the
      returned book (if it still exists) at its end; nobody else's list changes. */
  lemma ReturnedBooksAfterCredit(users: map<UserId, User>, books: map<BookId, Book>, caller: UserId,
                                 id: BookId, u: UserId)
    requires u in users
    ensures ReturnedBooks(Credited(users, caller, id), books, u).Ok?
    ensures ReturnedBooks(Credited(users, caller, id), books, u).value
      == ReturnedBooks(users, books, u).value
         + (if u == caller && id in books then [SummaryOf(books, id)] else [])
  {
    var h := users[u].returnedBooks;
    if u == caller {
      assert Credited(users, caller, id)[u].returnedBooks == h + [id];
      PopulateAppend(h, [id], books);
      assert Populate([id], books) == if id in books then [SummaryOf(books, id)] else [];
    } else {
      assert Credited(users, caller, id)[u] == users[u];
    }
  }

  /** Borrowing an available book and returning it restores the book except for the kept
      `borrowedDate`, and leaves the borrower's outstanding count as it was, the lifetime count
      up by one and the book appended to the history. */
  lemma BorrowThenReturn(b: Book, users: map<UserId, User>, caller: UserId, id: BookId, now: Timestamp)
    requires HolderConsistent(b) && b.availability == Available
    ensures Released(Lent(b, caller, now)) == b.(borrowedDate := Some(now))
    ensures caller in users ==>
      var u, u' := users[caller], Credited(Charged(users, caller), caller, id)[caller];
      && u'.borrowedBooksCount == u.borrowedBooksCount
      && u'.totalBorrowed == u.totalBorrowed + 1
      && u'.returnedBooks == u.returnedBooks + [id]
      && u' == u.(totalBorrowed := u.totalBorrowed + 1, returnedBooks := u.returnedBooks + [id])
    ensures forall v :: v in users && v != caller ==> Credited(Charged(users, caller), caller, id)[v] == users[v]
  {
  }

  // ---------------------------------------------------------------- the invariants

  /** Every book has a holder exactly when it is not available. */
  ghost predicate HoldersConsistent(books: map<BookId, Book>) {
    forall k :: k in books ==> HolderConsistent(books[k])
  }

  /** A book `u` has borrowed and not yet returned. */
  predicate OnLoanTo(b: Book, u: UserId) {
    b.borrowedBy == Some(u) && b.availability == Borrowed
  }

  /** The books currently on loan to `u`. */
  ghost function OnLoan(books: map<BookId, Book>, u: UserId): set<BookId> {
    set k | k in books && OnLoanTo(books[k], u)
  }

  /** What the counters of one user keep under borrow, reserve and return: every successful
      borrow raised both counters by one and every successful return lowered the outstanding
      count and lengthened the history by one, so outstanding + returned == lifetime total; and
      the outstanding count never exceeds the books actually on loan. (It can fall below it, and
      below zero: returning a reserved book lowers the count without a matching borrow.) */
  ghost predicate CountersAgree(books: map<BookId, Book>, users: map<UserId, User>) {
    forall u :: u in users ==> UserAgrees(books, u, users[u])
  }

  /** The counters of user `u` agree with the catalog. */
  ghost predicate UserAgrees(books: map<BookId, Book>, u: UserId, user: User) {
    && user.borrowedBooksCount + |user.returnedBooks| == user.totalBorrowed
    && user.borrowedBooksCount <= |OnLoan(books, u)|
  }

  /** The lending invariant over the two stores. */
  ghost predicate Consistent(books: map<BookId, Book>, users: map<UserId, User>) {
    HoldersConsistent(books) && CountersAgree(books, users)
  }

  /** A new user's counters agree with any catalog. */
  lemma NewUserAgrees(books: map<BookId, Book>, users: map<UserId, User>, id: UserId,
                      name: string, email: string, password: string, role: Role)
    requires CountersAgree(books, users)
    ensures CountersAgree(books, users[id := NewUser(name, email, password, role)])
  {
  }

  /** Replacing one book changes each user's loans by at most that book. */
  lemma OnLoanAfterWrite(books: map<BookId, Book>, id: BookId, nb: Book, u: UserId)
    requires id in books
    ensures OnLoan(books[id := nb], u)
      == (OnLoan(books, u) - {id}) + (if OnLoanTo(nb, u) then {id} else {})
  {
  }

  /** A write that neither starts nor ends a loan leaves every user's loans as they were. */
  lemma {:induction false} LoansUnchanged(books: map<BookId, Book>, id: BookId, nb: Book)
    requires id in books ==> forall u :: OnLoanTo(books[id], u) <==> OnLoanTo(nb, u)
    requires id !in books ==> forall u :: !OnLoanTo(nb, u)
    ensures forall u :: OnLoan(books[id := nb], u) == OnLoan(books, u)
  {
    forall u ensures OnLoan(books[id := nb], u) == OnLoan(books, u) {
      if id in books {
        OnLoanAfterWrite(books, id, nb, u);
        if OnLoanTo(nb, u) {
          assert id in OnLoan(books, u);
        } else {
          assert id !in OnLoan(books, u);
        }
      } else {
        assert OnLoan(books[id := nb], u) == OnLoan(books, u) + (if OnLoanTo(nb, u) then {id} else {});
      }
    }
  }

  /** One user's counters after a borrow: the borrower gains a loan and both counts, everybody
      else is untouched. */
  lemma BorrowKeepsUserAgrees(books: map<BookId, Book>, users: map<UserId, User>,
                              id: BookId, caller: UserId, now: Timestamp, u: UserId)
    requires CountersAgree(books, users) && u in users
    requires id in books && books[id].availability == Available
    ensures UserAgrees(books[id := Lent(books[id], caller, now)], u, Charged(users, caller)[u])
  {
    var books' := books[id := Lent(books[id], caller, now)];
    assert UserAgrees(books, u, users[u]);
    OnLoanAfterWrite(books, id, Lent(books[id], caller, now), u);
    assert id !in OnLoan(books, u);
    if u == caller {
      assert OnLoan(books', u) == OnLoan(books, u) + {id};
    } else {
      assert OnLoan(books', u) == OnLoan(books, u);
    }
  }

  /** Borrowing an available book keeps the lending invariant. */
  lemma {:induction false} BorrowKeepsConsistent(books: map<BookId, Book>, users: map<UserId, User>,
                                                 id: BookId, caller: UserId, now: Timestamp)
    requires Consistent(books, users)
    requires id in books && books[id].availability == Available
    ensures Consistent(books[id := Lent(books[id], caller, now)], Charged(users, caller))
  {
    var books', users' := books[id := Lent(books[id], caller, now)], Charged(users, caller);
    assert HoldersConsistent(books') by {
      forall k | k in books' ensures HolderConsistent(books'[k]) {
        if k != id { assert books'[k] == books[k]; }
      }
    }
    forall u | u in users' ensures UserAgrees(books', u, users'[u]) {
      BorrowKeepsUserAgrees(books, users, id, caller, now, u);
    }
  }

  /** Reserving an available book keeps the lending invariant. */
  lemma {:induction false} ReserveKeepsConsistent(books: map<BookId, Book>, users: map<UserId, User>,
                                                  id: BookId, caller: UserId)
    requires Consistent(books, users)
    requires id in books && books[id].availability == Available
    ensures Consistent(books[id := Held(books[id], caller)], users)
  {
    LoansUnchanged(books, id, Held(books[id], caller));
  }

  /** One user's counters after a return: the caller loses the loan if the book was borrowed
      (not if it was reserved), gains the history entry and loses one outstanding count; everybody
      else is untouched. */
  lemma ReturnKeepsUserAgrees(books: map<BookId, Book>, users: map<UserId, User>,
                              id: BookId, caller: UserId, u: UserId)
    requires CountersAgree(books, users) && u in users
    requires id in books && books[id].borrowedBy == Some(caller)
    ensures UserAgrees(books[id := Released(books[id])], u, Credited(users, caller, id)[u])
  {
    var books' := books[id := Released(books[id])];
    assert UserAgrees(books, u, users[u]);
    OnLoanAfterWrite(books, id, Released(books[id]), u);
    if u == caller && books[id].availability == Borrowed {
      assert id in OnLoan(books, u);
      assert |OnLoan(books', u)| == |OnLoan(books, u)| - 1;
    } else {
      assert OnLoan(books', u) == OnLoan(books, u);
    }
  }

  /** Returning a book the caller holds, borrowed or reserved, keeps the lending invariant. */
  lemma {:induction false} ReturnKeepsConsistent(books: map<BookId, Book>, users: map<UserId, User>,
                                                 id: BookId, caller: UserId)
    requires Consistent(books, users)
    requires id in books && books[id].borrowedBy == Some(caller)
    ensures Consistent(books[id := Released(books[id])], Credited(users, caller, id))
  {
    var books', users' := books[id := Released(books[id])], Credited(users, caller, id);
    assert HoldersConsistent(books') by {
      forall k | k in books' ensures HolderConsistent(books'[k]) {
        if k != id { assert books'[k] == books[k]; }
      }
    }
    forall u | u in users' ensures UserAgrees(books', u, users'[u]) {
      ReturnKeepsUserAgrees(books, users, id, caller, u);
    }
  }

  /** Adding a new available book keeps the lending invariant. */
  lemma {:induction false} InsertAvailableKeepsConsistent(books: map<BookId, Book>, users: map<UserId, User>,
                                                          id: BookId, nb: Book)
    requires Consistent(books, users)
    requires id !in books && nb.availability == Available && nb.borrowedBy == None
    ensures Consistent(books[id := nb], users)
  {
    LoansUnchanged(books, id, nb);
  }
}
