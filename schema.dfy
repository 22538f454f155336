/** The records the library stores: the Book schema (backend/model/bookModel.js), the User schema
    (backend/model/userModel.js) and the review document, together with the identifiers, the
    error outcomes the handlers report and the uniqueness constraints the database enforces. */
module Schema {

  datatype Option<+T> = None | Some(value: T)

  /** Document identifiers (MongoDB ObjectIds, as strings). */
  type BookId = string
  type UserId = string
  type ReviewId = string

  /** An opaque instant: the value of `new Date()` at the time of a request. */
  type Timestamp = int

  /** The failures a handler reports instead of a result. */
  datatype Error =
    | NotFound         // the id names no document (HTTP 404)
    | Conflict         // a uniqueness constraint would be violated (HTTP 400, or a duplicate-key error)
    | InvalidState     // the book is not in the state the transition needs (HTTP 400)
    | Forbidden        // the caller lacks the role or the ownership the operation needs (HTTP 403)
    | ValidationError  // a required field is missing (a schema validation failure)

  datatype Result<+T> = Ok(value: T) | Err(error: Error)

  /** The `availability` enum of a book. */
  datatype Availability = Available | Borrowed | Reserved

  /** The string the database stores for each state. */
  function AvailabilityName(a: Availability): string {
    match a
    case Available => "available"
    case Borrowed => "borrowed"
    case Reserved => "reserved"
  }

  /** A book document. `coverImage`, `borrowedDate` and `returnDate` are optional; `borrowedBy`
      is a nullable reference to a user; `reservedBy` is a list of user references. */
  datatype Book = Book(
    title: string,
    author: string,
    isbn: string,
    coverImage: Option<string>,
    availability: Availability,
    borrowedBy: Option<UserId>,
    borrowedDate: Option<Timestamp>,
    returnDate: Option<Timestamp>,
    reservedBy: seq<UserId>)

  /** The document `Book.create` stores: the schema's defaults apply to every field not given. */
  function NewBook(title: string, author: string, isbn: string, coverImage: Option<string>): (r: Book)
    ensures r.availability == Available && HolderConsistent(r)
    ensures HasRequiredFields(r) <==> title != "" && author != "" && isbn != ""
  {
    Book(title, author, isbn, coverImage, Available, None, None, None, [])
  }

  /** `title`, `author` and `ISBN` are required, and a required string must not be empty. */
  predicate HasRequiredFields(b: Book) {
    b.title != "" && b.author != "" && b.isbn != ""
  }

  /** A book has a holder exactly when it is not available. */
  predicate HolderConsistent(b: Book) {
    b.borrowedBy.None? <==> b.availability == Available
  }

  /** A freshly created book is available, has no holder, no dates and no reservations, keeps
      the bibliographic fields it was given, and is valid whenever the required fields are. */
  lemma NewBookDefaults(title: string, author: string, isbn: string, coverImage: Option<string>)
    ensures var b := NewBook(title, author, isbn, coverImage);
      && b.availability == Available && b.borrowedBy == None && HolderConsistent(b)
      && b.borrowedDate == None && b.returnDate == None && b.reservedBy == []
      && b.title == title && b.author == author && b.isbn == isbn && b.coverImage == coverImage
      && (HasRequiredFields(b) <==> title != "" && author != "" && isbn != "")
  {
  }

  /** The unique index on `ISBN`. */
  ghost predicate IsbnUnique(books: map<BookId, Book>) {
    forall i, j :: i in books && j in books && i != j ==> books[i].isbn != books[j].isbn
  }

  /** The `role` enum of a user. */
  datatype Role = Admin | Member

  /** A user document; `password` holds the credential hash. */
  datatype User = User(
    name: string,
    email: string,
    password: string,
    role: Role,
    borrowedBooksCount: int,
    totalBorrowed: int,
    returnedBooks: seq<BookId>,
    overdueCount: int)

  /** The document `User.create` stores: the three counters default to 0 and the returned-books
      list starts empty. */
  function NewUser(name: string, email: string, password: string, role: Role): (r: User)
    ensures r.borrowedBooksCount == 0 && r.totalBorrowed == 0 && r.overdueCount == 0 && r.returnedBooks == []
    ensures r.borrowedBooksCount + |r.returnedBooks| == r.totalBorrowed
    ensures r.name == name && r.email == email && r.password == password && r.role == role
  {
    User(name, email, password, role, 0, 0, [], 0)
  }

  /** The unique index on `email`. */
  ghost predicate EmailUnique(users: map<UserId, User>) {
    forall i, j :: i in users && j in users && i != j ==> users[i].email != users[j].email
  }

  /** A review document: one book, one author, a rating and a comment. */
  datatype Review = Review(book: BookId, user: UserId, rating: int, comment: string)

  /** The `name email` projection `populate` substitutes for a user reference. */
  datatype Contact = Contact(name: string, email: string)

  /** `populate("…", "name email")` on a user reference: null when it is null or dangling. */
  function ContactOf(users: map<UserId, User>, id: Option<UserId>): Option<Contact> {
    if id.Some? && id.value in users then Some(Contact(users[id.value].name, users[id.value].email))
    else None
  }

  /** The `_id title author` projection `populate` substitutes for a book reference. */
  datatype BookSummary = BookSummary(id: BookId, title: string, author: string)

  function SummaryOf(books: map<BookId, Book>, id: BookId): BookSummary
    requires id in books
  {
    BookSummary(id, books[id].title, books[id].author)
  }
}
