/** The database the handlers share, and the handlers that write it: borrowBook, reserveBook and
    returnBook (backend/controller/memberController.js), addBook, updateBook and deleteBook
    (backend/controller/adminController.js), addReview and deleteReview
    (backend/controller/reviewController.js). Each handler runs as one atomic step; the caller's id
    comes from the authentication layer and the current time is a parameter. */
module Library {
  import opened Schema
  import opened Lending
  import Catalog
  import Reviews

  /** Some book already has this ISBN (`Book.findOne({ ISBN })` finds one). */
  predicate IsbnInUse(books: map<BookId, Book>, isbn: string) {
    exists k :: k in books && books[k].isbn == isbn
  }

  /** A book other than `id` already has this ISBN: the unique index refuses the update. */
  predicate IsbnInUseElsewhere(books: map<BookId, Book>, isbn: string, id: BookId) {
    exists k :: k in books && k != id && books[k].isbn == isbn
  }

  /** The three collections, as maps from document id to document. */
  class Library {
    var books: map<BookId, Book>
    var users: map<UserId, User>
    var reviews: map<ReviewId, Review>

    /** What the database's unique indexes guarantee at all times. */
    ghost predicate Valid()
      reads this
    {
      IsbnUnique(books) && EmailUnique(users)
    }

    /** The lending invariant: kept by every handler except updateBook and deleteBook. */
    ghost predicate Consistent()
      reads this
    {
      Lending.Consistent(books, users)
    }

    /** No user disappears, a user's returned-books history only ever grows at its end, and the
        lifetime borrow count never falls. */
    twostate predicate HistoriesOnlyGrow()
      reads this
    {
      forall u :: u in old(users) ==> (u in users
        && old(users[u].returnedBooks) <= users[u].returnedBooks
        && old(users[u].totalBorrowed) <= users[u].totalBorrowed)
    }

    /** An empty catalog and review store over the registered users. */
    constructor (registered: map<UserId, User>)
      requires EmailUnique(registered)
      ensures Valid()
      ensures books == map[] && users == registered && reviews == map[]
      ensures (forall u :: u in registered ==> (registered[u].borrowedBooksCount == 0
        && |registered[u].returnedBooks| == registered[u].totalBorrowed)) ==> Consistent()
    {
      books, users, reviews := map[], registered, map[];
    }

    /** borrowBook: NotFound for an unknown book, InvalidState for a book that is not available;
        otherwise the book is lent to the caller and the caller's outstanding and lifetime
        counters each rise by one. */
    method BorrowBook(id: BookId, caller: UserId, now: Timestamp) returns (r: Result<Book>)
      requires Valid()
      modifies this
      ensures Valid()
      ensures id !in old(books) ==> r == Err(NotFound)
      ensures id in old(books) && old(books[id]).availability != Available ==> r == Err(InvalidState)
      ensures r.Ok? <==> id in old(books) && old(books[id]).availability == Available
      ensures r.Err? ==> books == old(books) && users == old(users)
      ensures r.Ok? ==> books == old(books)[id := Lent(old(books[id]), caller, now)] && r.value == books[id]
      ensures r.Ok? ==> users == Charged(old(users), caller)
      ensures HistoriesOnlyGrow()
      ensures reviews == old(reviews)
      ensures old(Consistent()) ==> Consistent()
      ensures old(Lending.HoldersConsistent(books)) ==> Lending.HoldersConsistent(books)
    {
      if id !in books {
        return Err(NotFound);
      }
      var book := books[id];
      if book.availability != Available {
        return Err(InvalidState);
      }
      if Consistent() {
        BorrowKeepsConsistent(books, users, id, caller, now);
      }
      book := book.(availability := Borrowed);
      book := book.(borrowedBy := Some(caller));
      book := book.(borrowedDate := Some(now));
      books := books[id := book];
      ChargedOnlyRaises(users, caller);
      users := Charged(users, caller);
      r := Ok(book);
    }

    /** reserveBook: the same checks as borrowBook; the book becomes reserved by the caller, with
        no date, no entry in `reservedBy` and no counter touched. */
    method ReserveBook(id: BookId, caller: UserId) returns (r: Result<Book>)
      requires Valid()
      modifies this
      ensures Valid()
      ensures id !in old(books) ==> r == Err(NotFound)
      ensures id in old(books) && old(books[id]).availability != Available ==> r == Err(InvalidState)
      ensures r.Ok? <==> id in old(books) && old(books[id]).availability == Available
      ensures r.Err? ==> books == old(books)
      ensures r.Ok? ==> books == old(books)[id := Held(old(books[id]), caller)] && r.value == books[id]
      ensures users == old(users) && reviews == old(reviews)
      ensures old(Consistent()) ==> Consistent()
      ensures old(Lending.HoldersConsistent(books)) ==> Lending.HoldersConsistent(books)
    {
      if id !in books {
        return Err(NotFound);
      }
      var book := books[id];
      if book.availability != Available {
        return Err(InvalidState);
      }
      if Consistent() {
        ReserveKeepsConsistent(books, users, id, caller);
      }
      book := book.(availability := Reserved);
      book := book.(borrowedBy := Some(caller));
      books := books[id := book];
      r := Ok(book);
    }

    /** returnBook: NotFound for an unknown book, Forbidden unless the book names the caller as
        holder (so an available book is refused too). The state is not checked: a reserved book
        is "returned" like a borrowed one. The book becomes available without a holder, its
        `borrowedDate` is kept; the caller's history gains the book at its end and the
        outstanding count falls by one. */
    method ReturnBook(id: BookId, caller: UserId) returns (r: Result<()>)
      requires Valid()
      modifies this
      ensures Valid()
      ensures id !in old(books) ==> r == Err(NotFound)
      ensures id in old(books) && old(books[id]).borrowedBy != Some(caller) ==> r == Err(Forbidden)
      ensures r.Ok? <==> id in old(books) && old(books[id]).borrowedBy == Some(caller)
      ensures r.Err? ==> books == old(books) && users == old(users)
      ensures r.Ok? ==> books == old(books)[id := Released(old(books[id]))]
      ensures r.Ok? ==> users == Credited(old(users), caller, id)
      ensures HistoriesOnlyGrow()
      ensures reviews == old(reviews)
      ensures old(Consistent()) ==> Consistent()
      ensures old(Lending.HoldersConsistent(books)) ==> Lending.HoldersConsistent(books)
    {
      if id !in books {
        return Err(NotFound);
      }
      var book := books[id];
      if book.borrowedBy != Some(caller) {
        return Err(Forbidden);
      }
      if Consistent() {
        ReturnKeepsConsistent(books, users, id, caller);
      }
      book := book.(borrowedBy := None);
      book := book.(availability := Available);
      books := books[id := book];
      CreditedOnlyGrows(users, caller, id);
      users := Credited(users, caller, id);
      r := Ok(());
    }

    /** addBook: Conflict when the ISBN is already in the catalog; ValidationError when a required
        field is empty; otherwise exactly one new book, with the schema defaults. `newId` is the
        id the database assigns. */
    method AddBook(newId: BookId, title: string, author: string, isbn: string, upload: Catalog.Upload)
      returns (r: Result<Book>)
      requires Valid()
      requires newId !in books
      modifies this
      ensures Valid()
      ensures IsbnInUse(old(books), isbn) ==> r == Err(Conflict)
      ensures !IsbnInUse(old(books), isbn) && (title == "" || author == "" || isbn == "") ==> r == Err(ValidationError)
      ensures r.Ok? <==> !IsbnInUse(old(books), isbn) && title != "" && author != "" && isbn != ""
      ensures r.Err? ==> books == old(books)
      ensures r.Ok? ==> r.value == NewBook(title, author, isbn, Catalog.NewCover(upload))
      ensures r.Ok? ==> books == old(books)[newId := r.value]
      ensures users == old(users) && reviews == old(reviews)
      ensures old(Consistent()) ==> Consistent()
      ensures old(Lending.HoldersConsistent(books)) ==> Lending.HoldersConsistent(books)
    {
      if IsbnInUse(books, isbn) {
        return Err(Conflict);
      }
      var book := NewBook(title, author, isbn, Catalog.NewCover(upload));
      if !HasRequiredFields(book) {
        return Err(ValidationError);
      }
      if Consistent() {
        InsertAvailableKeepsConsistent(books, users, newId, book);
      }
      books := books[newId := book];
      r := Ok(book);
    }

    /** updateBook: NotFound for an unknown id; Conflict when the new ISBN belongs to another
        book; otherwise the supplied fields are overwritten, with no validation of the values
        (an admin may set any availability, whatever the holder). */
    method UpdateBook(id: BookId, patch: Catalog.BookPatch, upload: Catalog.Upload) returns (r: Result<Book>)
      requires Valid()
      modifies this
      ensures Valid()
      ensures id !in old(books) ==> r == Err(NotFound)
      ensures id in old(books) && patch.isbn.Some? && IsbnInUseElsewhere(old(books), patch.isbn.value, id)
        ==> r == Err(Conflict)
      ensures r.Ok? <==> id in old(books) && !(patch.isbn.Some? && IsbnInUseElsewhere(old(books), patch.isbn.value, id))
      ensures r.Err? ==> books == old(books)
      ensures r.Ok? ==> r.value == Catalog.Patched(old(books[id]), patch, upload)
      ensures r.Ok? ==> books == old(books)[id := r.value]
      ensures users == old(users) && reviews == old(reviews)
    {
      if id !in books {
        return Err(NotFound);
      }
      if patch.isbn.Some? && IsbnInUseElsewhere(books, patch.isbn.value, id) {
        return Err(Conflict);
      }
      var book := Catalog.Patched(books[id], patch, upload);
      books := books[id := book];
      r := Ok(book);
    }

    /** deleteBook: NotFound for an unknown id, otherwise exactly that book is removed. Reviews
        and returned-books entries that name it are left in place. */
    method DeleteBook(id: BookId) returns (r: Result<()>)
      requires Valid()
      modifies this
      ensures Valid()
      ensures r.Err? <==> id !in old(books)
      ensures r.Err? ==> r.error == NotFound && books == old(books)
      ensures r.Ok? ==> books == old(books) - {id}
      ensures users == old(users) && reviews == old(reviews)
      ensures old(Lending.HoldersConsistent(books)) ==> Lending.HoldersConsistent(books)
    {
      if id !in books {
        return Err(NotFound);
      }
      books := books - {id};
      r := Ok(());
    }

    /** addReview: NotFound when the book does not exist; otherwise exactly one new review by the
        caller, with the rating and comment as given (no range or emptiness check here). `newId`
        is the id the database assigns. */
    method AddReview(newId: ReviewId, bookId: BookId, caller: UserId, rating: int, comment: string)
      returns (r: Result<Review>)
      requires Valid()
      requires newId !in reviews
      modifies this
      ensures Valid()
      ensures r.Err? <==> bookId !in books
      ensures r.Err? ==> r.error == NotFound && reviews == old(reviews)
      ensures r.Ok? ==> r.value == Review(bookId, caller, rating, comment)
      ensures r.Ok? ==> reviews == old(reviews)[newId := r.value]
      ensures books == old(books) && users == old(users)
    {
      if bookId !in books {
        return Err(NotFound);
      }
      var review := Review(bookId, caller, rating, comment);
      reviews := reviews[newId := review];
      r := Ok(review);
    }

    /** deleteReview: NotFound for an unknown id, otherwise exactly that review is removed. It
        takes no caller: nothing checks the caller's role. */
    method DeleteReview(id: ReviewId) returns (r: Result<()>)
      requires Valid()
      modifies this
      ensures Valid()
      ensures r.Err? <==> id !in old(reviews)
      ensures r.Err? ==> r.error == NotFound && reviews == old(reviews)
      ensures r.Ok? ==> reviews == old(reviews) - {id}
      ensures books == old(books) && users == old(users)
    {
      if id !in reviews {
        return Err(NotFound);
      }
      reviews := reviews - {id};
      r := Ok(());
    }
  }

  /** A member borrows a new book and returns it: the book ends available without a holder, and
      the member's counters are back to no outstanding loan, with one lifetime borrow and a
      one-entry history. */
  method LendingScenario() returns (status: Availability, holder: Option<UserId>, outstanding: int,
                                    total: int, history: seq<BookId>)
    ensures status == Available && holder == None
    ensures outstanding == 0 && total == 1 && history == ["b1"]
  {
    var ann := NewUser("Ann", "ann@example.org", "h1", Member);
    var lib := new Library(map["m1" := ann]);
    var added := lib.AddBook("b1", "The Hobbit", "Tolkien", "978-0261102217", Catalog.NoFile);
    assert added.Ok? && lib.books["b1"].availability == Available;
    var borrowed := lib.BorrowBook("b1", "m1", 100);
    assert borrowed.Ok? && lib.users["m1"] == ann.(borrowedBooksCount := 1, totalBorrowed := 1);
    var returned := lib.ReturnBook("b1", "m1");
    assert returned.Ok?;
    status := lib.books["b1"].availability;
    holder := lib.books["b1"].borrowedBy;
    outstanding := lib.users["m1"].borrowedBooksCount;
    total := lib.users["m1"].totalBorrowed;
    history := lib.users["m1"].returnedBooks;
  }

  /** While one member holds a book, another member can neither borrow it nor return it, and the
      book keeps its holder. */
  method SecondMemberScenario() returns (borrow: Result<Book>, ret: Result<()>, holder: Option<UserId>)
    ensures borrow == Err(InvalidState) && ret == Err(Forbidden) && holder == Some("m1")
  {
    var ann := NewUser("Ann", "ann@example.org", "h1", Member);
    var bob := NewUser("Bob", "bob@example.org", "h2", Member);
    assert ann.email != bob.email;
    var lib := new Library(map["m1" := ann, "m2" := bob]);
    var added := lib.AddBook("b1", "The Hobbit", "Tolkien", "978-0261102217", Catalog.NoFile);
    var first := lib.BorrowBook("b1", "m1", 100);
    assert first.Ok?;
    borrow := lib.BorrowBook("b1", "m2", 101);
    ret := lib.ReturnBook("b1", "m2");
    holder := lib.books["b1"].borrowedBy;
  }

  /** A member reviews a book, the review is listed under that book, and once it is deleted the
      book has no reviews left. */
  method ReviewScenario() returns (listed: bool, left: nat)
    ensures listed && left == 0
  {
    var lib := new Library(map["m1" := NewUser("Ann", "ann@example.org", "h1", Member)]);
    var added := lib.AddBook("b1", "The Hobbit", "Tolkien", "978-0261102217", Catalog.NoFile);
    var review := lib.AddReview("r1", "b1", "m1", 4, "Good");
    assert lib.reviews == map["r1" := Review("b1", "m1", 4, "Good")];
    listed := "r1" in Reviews.ReviewsByBook(lib.reviews, lib.users, "b1");
    var deleted := lib.DeleteReview("r1");
    assert lib.reviews == map[];
    assert Reviews.ReviewsByBook(lib.reviews, lib.users, "b1") == map[];
    left := |Reviews.ReviewsByBook(lib.reviews, lib.users, "b1")|;
  }

  /** Returning a book one has only reserved is accepted: the outstanding count drops below zero
      and the history records a book that was never borrowed. */
  method ReserveThenReturnScenario() returns (reserved: Result<Book>, returned: Result<()>,
                                              outstanding: int, history: seq<BookId>)
    ensures reserved.Ok? && returned.Ok?
    ensures outstanding == -1 && history == ["b1"]
  {
    var lib := new Library(map["m1" := NewUser("Ann", "ann@example.org", "h1", Member)]);
    var added := lib.AddBook("b1", "Dune", "Herbert", "978-0441013593", Catalog.NoFile);
    reserved := lib.ReserveBook("b1", "m1");
    returned := lib.ReturnBook("b1", "m1");
    outstanding := lib.users["m1"].borrowedBooksCount;
    history := lib.users["m1"].returnedBooks;
  }
}
