/** The admin side of backend/controller/adminController.js that does not write the stores: how a
    new book's cover and an update are formed, the filtered listing, the members listing with
    each member's current book, and the dashboard counts. The writes themselves (addBook,
    updateBook, deleteBook) are Library.Library's methods. */
module Catalog {
  import opened Schema
  import opened Query
  import Lending

  // ---------------------------------------------------------------- covers and updates

  /** The cover a request carries: no file, or a file whose upload produced a URL or, when the
      upload failed, null. */
  datatype Upload = NoFile | Uploaded(url: Option<string>)

  /** addBook's `coverImage`: "" without a file, the upload's result with one. */
  function NewCover(upload: Upload): (r: Option<string>)
    ensures upload.NoFile? ==> r == Some("")
    ensures upload.Uploaded? ==> r == upload.url
  {
    match upload
    case NoFile => Some("")
    case Uploaded(url) => url
  }

  /** The fields of an update body the schema knows; each is absent (`None`) or the value the
      body carries. Nullable fields carry an `Option` of their own, so that an explicit null
      clears them. `genre`, which the admin form sends, is not in the schema and is dropped. */
  datatype BookPatch = BookPatch(
    title: Option<string>,
    author: Option<string>,
    isbn: Option<string>,
    coverImage: Option<Option<string>>,
    availability: Option<Availability>,
    borrowedBy: Option<Option<UserId>>,
    borrowedDate: Option<Option<Timestamp>>,
    returnDate: Option<Option<Timestamp>>,
    reservedBy: Option<seq<UserId>>)

  /** The update that carries no field at all. */
  const EmptyPatch := BookPatch(None, None, None, None, None, None, None, None, None)

  /** A supplied field wins over the stored one. */
  function Override<T>(supplied: Option<T>, stored: T): (r: T)
    ensures supplied.None? ==> r == stored
    ensures supplied.Some? ==> r == supplied.value
  {
    if supplied.Some? then supplied.value else stored
  }

  /** The document `findByIdAndUpdate(id, updateData, { new: true })` returns: every field the
      body supplies overwritten by it, `coverImage` taken from the upload whenever a file came
      with the request (whatever the body said), every other field as it was. */
  function Patched(b: Book, patch: BookPatch, upload: Upload): (r: Book)
    ensures r.title == (if patch.title.Some? then patch.title.value else b.title)
    ensures r.author == (if patch.author.Some? then patch.author.value else b.author)
    ensures r.isbn == (if patch.isbn.Some? then patch.isbn.value else b.isbn)
    ensures r.availability == (if patch.availability.Some? then patch.availability.value else b.availability)
    ensures upload.Uploaded? ==> r.coverImage == upload.url
    ensures upload.NoFile? ==> r.coverImage == (if patch.coverImage.Some? then patch.coverImage.value else b.coverImage)
    ensures r.borrowedBy == (if patch.borrowedBy.Some? then patch.borrowedBy.value else b.borrowedBy)
    ensures r.borrowedDate == (if patch.borrowedDate.Some? then patch.borrowedDate.value else b.borrowedDate)
    ensures r.returnDate == (if patch.returnDate.Some? then patch.returnDate.value else b.returnDate)
    ensures r.reservedBy == (if patch.reservedBy.Some? then patch.reservedBy.value else b.reservedBy)
  {
    var cover := if upload.Uploaded? then upload.url else Override(patch.coverImage, b.coverImage);
    Book(Override(patch.title, b.title), Override(patch.author, b.author), Override(patch.isbn, b.isbn),
         cover, Override(patch.availability, b.availability), Override(patch.borrowedBy, b.borrowedBy),
         Override(patch.borrowedDate, b.borrowedDate), Override(patch.returnDate, b.returnDate),
         Override(patch.reservedBy, b.reservedBy))
  }

  /** Applying the same update twice is applying it once; an empty update changes nothing. */
  lemma PatchedIdempotent(b: Book, patch: BookPatch, upload: Upload)
    ensures Patched(Patched(b, patch, upload), patch, upload) == Patched(b, patch, upload)
    ensures Patched(b, EmptyPatch, NoFile) == b
  {
  }

  /** An update that sends neither `availability` nor `borrowedBy` (the admin form sends the
      first, never the second) keeps a consistent holder consistent. */
  lemma PatchKeepsHolderConsistency(b: Book, patch: BookPatch, upload: Upload)
    requires HolderConsistent(b)
    requires patch.availability.None? && patch.borrowedBy.None?
    ensures HolderConsistent(Patched(b, patch, upload))
  {
  }

  /** An update may set `availability` without touching `borrowedBy`: it can make a borrowed
      book "available" while it still names its borrower. */
  lemma PatchCanBreakHolderConsistency()
    ensures exists b: Book, p: BookPatch :: HolderConsistent(b) && !HolderConsistent(Patched(b, p, NoFile))
  {
    var b := Book("Dune", "Herbert", "isbn-1", None, Borrowed, Some("m1"), Some(0), None, []);
    var p := EmptyPatch.(availability := Some(Available));
    assert HolderConsistent(b) && !HolderConsistent(Patched(b, p, NoFile));
  }

  // ---------------------------------------------------------------- the admin listing

  /** One entry of getAllBooks: the book and its `borrowedBy` populated with "name email". */
  datatype ListedBook = ListedBook(book: Book, borrower: Option<Contact>)

  /** getAllBooks' filter, built field by field: `availability` only for a non-empty status, the
      title-or-author match only for a non-empty query. */
  method BuildFilter(status: string, query: string) returns (f: BookFilter)
    ensures forall b :: Matches(f, b) <==>
      && (status == "" || AvailabilityName(b.availability) == status)
      && (query == "" || TitleOrAuthorMatches(b, query))
  {
    f := BookFilter(None, None);
    if status != "" {
      f := f.(availability := Some(status));
    }
    if query != "" {
      f := f.(text := Some(query));
    }
  }

  /** getAllBooks: the books that pass both filters, each with its holder's contact. */
  method AllBooks(books: map<BookId, Book>, users: map<UserId, User>, status: string, query: string)
    returns (r: map<BookId, ListedBook>)
    ensures forall k :: k in r <==> (k in books
      && (status == "" || AvailabilityName(books[k].availability) == status)
      && (query == "" || TitleOrAuthorMatches(books[k], query)))
    ensures forall k :: k in r ==> r[k].book == books[k] && r[k].borrower == ContactOf(users, books[k].borrowedBy)
    ensures status == "" && query == "" ==> r.Keys == books.Keys
  {
    var f := BuildFilter(status, query);
    var found := Find(books, f);
    r := map k | k in found :: ListedBook(found[k], ContactOf(users, found[k].borrowedBy));
  }

  // ---------------------------------------------------------------- the members listing

  /** One entry of getAllMembers: the member without the password, plus the current book. */
  datatype MemberView = MemberView(
    id: UserId,
    name: string,
    email: string,
    role: Role,
    borrowedBooksCount: int,
    totalBorrowed: int,
    returnedBooks: seq<BookId>,
    overdueCount: int,
    currentBook: Option<Book>)

  /** `.select("-password")` followed by `member.currentBook = book || null`. */
  function ViewOf(id: UserId, u: User, current: Option<Book>): MemberView {
    MemberView(id, u.name, u.email, u.role, u.borrowedBooksCount, u.totalBorrowed,
               u.returnedBooks, u.overdueCount, current)
  }

  /** The ids of the users with role member. */
  function Members(users: map<UserId, User>): set<UserId> {
    set u | u in users && users[u].role == Member
  }

  /** No book is on loan to `u`. */
  ghost predicate NoLoan(books: map<BookId, Book>, u: UserId) {
    forall k :: k in books ==> !Lending.OnLoanTo(books[k], u)
  }

  /** `v` is what getAllMembers reports for user `u`: the user's fields without the password,
      and as current book some book on loan to `u`, or null exactly when there is none. */
  ghost predicate ReportsMember(users: map<UserId, User>, books: map<BookId, Book>, u: UserId, v: MemberView) {
    && u in users
    && v == ViewOf(u, users[u], v.currentBook)
    && (v.currentBook.None? <==> NoLoan(books, u))
    && (v.currentBook.Some? ==> v.currentBook.value in books.Values && Lending.OnLoanTo(v.currentBook.value, u))
  }

  /** getAllMembers: every member and nobody else; each member's current book is some book on
      loan to that member (which one `findOne` picks is the database's choice), or null when there
      is none. */
  method AllMembers(users: map<UserId, User>, books: map<BookId, Book>) returns (r: map<UserId, MemberView>)
    ensures r.Keys == Members(users)
    ensures forall u :: u in r ==> ReportsMember(users, books, u, r[u])
  {
    var todo := Members(users);
    r := map[];
    while todo != {}
      invariant todo <= Members(users)
      invariant r.Keys == Members(users) - todo
      invariant forall u :: u in r ==> ReportsMember(users, books, u, r[u])
      decreases |todo|
    {
      var u :| u in todo;
      var current: Option<Book> := None;
      if k :| k in books && Lending.OnLoanTo(books[k], u) {
        current := Some(books[k]);
      }
      assert ReportsMember(users, books, u, ViewOf(u, users[u], current));
      r := r[u := ViewOf(u, users[u], current)];
      todo := todo - {u};
    }
  }

  // ---------------------------------------------------------------- the dashboard

  datatype Dashboard = Dashboard(totalBooks: nat, availableBooks: nat, borrowedBooks: nat, totalMembers: nat)

  /** `Book.countDocuments({ availability: a })`. */
  function CountIn(books: map<BookId, Book>, a: Availability): (r: nat)
    ensures r <= |books|
  {
    var s := set k | k in books && books[k].availability == a;
    SubsetCard(s, books.Keys);
    |s|
  }

  /** Books in two different states are different books, so their counts add up to at most
      the size of the catalog. */
  lemma {:induction false} TwoStatesFitCatalog(books: map<BookId, Book>, a: Availability, b: Availability)
    requires a != b
    ensures CountIn(books, a) + CountIn(books, b) <= |books|
  {
    var sa := set k | k in books && books[k].availability == a;
    var sb := set k | k in books && books[k].availability == b;
    assert sa !! sb;
    assert |sa + sb| == |sa| + |sb|;
    assert sa + sb <= books.Keys;
    assert |sa + sb| <= |books.Keys| by {
      SubsetCard(sa + sb, books.Keys);
    }
  }

  lemma SubsetCard<T>(a: set<T>, b: set<T>)
    requires a <= b
    ensures |a| <= |b|
  {
    assert b == a + (b - a);
  }

  /** getDashboard: Forbidden unless the caller is a known admin; otherwise the four counts,
      with the available and borrowed books together no more than the catalog. */
  function GetDashboard(books: map<BookId, Book>, users: map<UserId, User>, caller: UserId)
    : (r: Result<Dashboard>)
    ensures r.Err? <==> caller !in users || users[caller].role != Admin
    ensures r.Err? ==> r.error == Forbidden
    ensures r.Ok? ==> r.value.availableBooks + r.value.borrowedBooks <= r.value.totalBooks == |books|
    ensures r.Ok? ==> (r.value.availableBooks == CountIn(books, Available)
      && r.value.borrowedBooks == CountIn(books, Borrowed)
      && r.value.totalMembers == |Members(users)|)
  {
    if caller !in users || users[caller].role != Admin then Err(Forbidden)
    else
      TwoStatesFitCatalog(books, Available, Borrowed);
      Ok(Dashboard(|books|, CountIn(books, Available), CountIn(books, Borrowed), |Members(users)|))
  }
}
