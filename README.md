# A verified model of the Libarary lending and review core

Libarary is a small library-management web application: an Express/Mongoose backend over a
MongoDB database, with a React frontend. This project models its core in Dafny:

- the three collections and their documents (books, users, reviews). The collections are maps
  from document id to document, held by the class `Library.Library`;
- the member handlers: list available books, list one's borrowed and returned books, borrow,
  reserve, return and search;
- the admin handlers: add, update and delete a book, the filtered book listing, the members
  listing with each member's current book, and the dashboard counts;
- the review handlers: add a review, list a book's reviews, list all reviews, delete a review;
- two pieces of frontend logic. One is the member review page: it removes duplicate returned
  books with a JavaScript `Map`, keeps a per-book rating/comment draft, checks a submission and
  resets the draft afterwards. The other is the admin members page's search filter.

Each handler is one atomic step.

- The read-only handlers are functions (`Lending`, `Catalog`, `Reviews`).
- The handlers that write the database are methods of `Library.Library`. Each method states its
  whole new state.
- Each error a handler answers with is a `Result` error:
  - 404 is `NotFound`;
  - 400 "not available" is `InvalidState`;
  - 403 is `Forbidden`;
  - a duplicate ISBN is `Conflict`;
  - a schema validation failure is `ValidationError`.
- Values the environment supplies are parameters: the authenticated caller's id, the current
  time, the outcome of a cover upload, and the id the database gives a new document.

What is proved besides each handler's contract:

- The lending invariant `Lending.Consistent` is kept by borrow, reserve, return, addBook and
  the review handlers. It has two parts. First, a book has a holder exactly when it is not
  available. Second, for every user, outstanding + returned == lifetime borrows, and the
  outstanding count is at most the number of books on loan to that user. updateBook can break
  this invariant, and `Catalog.PatchCanBreakHolderConsistency` exhibits how. deleteBook keeps
  the first part but not the second.
- Each member's list of held books gains a book by borrow or reserve and loses it by return.
  The returned-books list gains the returned book at its end.
- A book's review list gains a new review and loses a deleted one. The admin's list of all
  reviews is the union of the per-book lists.
- Borrow-then-return restores the book except its `borrowedDate`, which now holds the borrow's
  time, and restores the borrower's outstanding count.
- Search results are exactly the available books that match.
- The dashboard's available and borrowed counts together never exceed the catalog size.
- The `Map` de-duplication keeps exactly one entry per id, in first-occurrence order, each
  holding the value of the id's last occurrence.
- The review page's submit button is enabled exactly when the submit handler would accept the
  draft.

Five behaviours of the code that a reader might expect to work otherwise are modelled as
written:

- returnBook checks only that the book names the caller as holder. It does not check that the
  book is borrowed. A book the caller only reserved can therefore be returned: this counts as a
  return, drives the outstanding count below zero and records a book that was never borrowed
  (`Library.ReserveThenReturnScenario`). So the invariant "outstanding count == number of books
  borrowed" does not hold, and the model proves the weaker `Lending.CountersAgree` instead.
- returnBook leaves `borrowedDate` in place.
- updateBook writes whatever fields it is given, availability included, with no validation.
- deleteReview checks no role: the route applies only authentication
  (`Libarary/backend/routes/reviewRoute.js:18`). The same holds for addBook, updateBook,
  deleteBook, the book listing and the members listing: their routes apply only authentication
  (`Libarary/backend/routes/adminRoute.js:11-15`) and the handlers check no role, so these
  operations take no caller in the model. Only getAllReviews and getDashboard check for an
  admin, inside the handler.
- addReview checks neither the rating's range nor the comment. The review page's form refuses
  only a missing or zero rating (`Libarary/frontend/src/member/Add.jsx:65`) and a missing or
  blank comment; the 1 to 5 range comes only from its five star buttons
  (`Libarary/frontend/src/member/Add.jsx:99-103`).

## Model

| member | source | states |
|---|---|---|
| Text.ToLower | Libarary/frontend/src/admin/Member.jsx:36-37 | `toLowerCase` keeps the length and lowers each character in place |
| Text.ToLowerIdempotent | Libarary/frontend/src/admin/Member.jsx:36-37 | lowering twice is lowering once |
| Text.Contains | Libarary/frontend/src/admin/Member.jsx:36-37 | a needle is only found in a haystack at least as long, and in one of the same length only when the two are equal |
| Text.ContainsSpec | Libarary/frontend/src/admin/Member.jsx:36-37 | `includes` holds exactly when the needle occurs at some position of the haystack |
| Text.ContainsEmpty | Libarary/frontend/src/admin/Member.jsx:36-37 | every string includes the empty string |
| Text.SkipSpaces | Libarary/frontend/src/member/Add.jsx:69 | the position of the first non-white-space character from a start: everything skipped is white space and the character there is not |
| Text.DropTrailingSpaces | Libarary/frontend/src/member/Add.jsx:69 | the end of a slice once its trailing white space is dropped: everything dropped is white space and the last character kept is not |
| Text.Trim | Libarary/frontend/src/member/Add.jsx:69 | the trimmed string is no longer than the input and has no white space at either end |
| Text.TrimSpec | Libarary/frontend/src/member/Add.jsx:69 | `trim` returns a slice of the input with only white space around it and none at either end |
| Text.TrimEmptyIff | Libarary/frontend/src/member/Add.jsx:69 | a string trims to "" exactly when all of its characters are white space |
| Text.TrimIdempotent | Libarary/frontend/src/member/Add.jsx:78 | trimming the already trimmed comment changes nothing |
| Schema.NewBook | Libarary/backend/model/bookModel.js:3-13 | a new book is available and holder-consistent, and has its required fields exactly when title, author and ISBN are non-empty |
| Schema.NewUser | Libarary/backend/model/userModel.js:3-35 | a new user has zero outstanding, lifetime and overdue counts and an empty history (so outstanding + returned == lifetime borrows), and keeps the name, email, password and role given |
| Schema.NewBookDefaults | Libarary/backend/model/bookModel.js:3-13 | a new book is available, has no holder, no dates and no reservations, and is holder-consistent |
| Query.TitleOrAuthorMatchIgnoresQueryCase | Libarary/backend/controller/memberController.js:159-166 | the case-insensitive title/author match does not depend on the query's letter case |
| Query.EmptyQueryMatchesAll | Libarary/backend/controller/memberController.js:159-166 | the empty query matches every book |
| Query.Find | Libarary/backend/controller/memberController.js:168 | `Book.find(filter)` returns exactly the books that satisfy the filter, with their documents unchanged |
| Query.AvailabilityNameSelects | Libarary/backend/model/bookModel.js:8 | the three availability names are distinct, so a status string selects at most one state |
| Lending.AvailableBooks | Libarary/backend/controller/memberController.js:6-13 | exactly the books whose availability is available |
| Lending.SearchBooks | Libarary/backend/controller/memberController.js:155-173 | only available books; with an empty query all of them; otherwise exactly the available books whose title or author contains the query, ignoring case |
| Lending.BorrowedBooks | Libarary/backend/controller/memberController.js:44-52 | exactly the books whose holder is the caller, whatever their state |
| Lending.HeldListsAfterBorrow | Libarary/backend/controller/memberController.js:28-30 | borrowing an available book adds it to the caller's held books and to nobody else's |
| Lending.HeldListsAfterReserve | Libarary/backend/controller/memberController.js:144-145 | reserving an available book adds it to the caller's held books and to nobody else's |
| Lending.HeldListsAfterReturn | Libarary/backend/controller/memberController.js:108-110 | returning a book takes it off every user's held books |
| Lending.Populate | Libarary/backend/controller/memberController.js:84-86 | populating yields only listed, existing books' titles and authors, every existing listed book at least once, never more entries than references; when no reference dangles it keeps the list's length and order |
| Lending.PopulateCount | Libarary/backend/controller/memberController.js:84-86 | an existing book appears in the populated list exactly as often as the list names it, a deleted one never |
| Lending.PopulateCounts | Libarary/backend/controller/memberController.js:84-86 | the same count for every book at once |
| Lending.PopulateAppend | Libarary/backend/controller/memberController.js:84-86 | populating a concatenation is concatenating the populated parts, so dangling references drop out where they stand and every other entry keeps its order |
| Lending.ReturnedBooks | Libarary/backend/controller/memberController.js:82-94 | NotFound exactly for an unknown caller; otherwise only books of the caller's history, each existing one with its title and author and as often as the history names it, in history order when nothing dangles |
| Lending.ReturnedBooksAfterCredit | Libarary/backend/controller/memberController.js:82-94 | after a return is credited, the caller's returned-books list is the old list with the returned book (if it still exists) at its end, and every other list is unchanged |
| Lending.Lent | Libarary/backend/controller/memberController.js:28-30 | a lent book is on loan to the caller since the given time, holder-consistent, and keeps its bibliographic fields, return date and reservations |
| Lending.Held | Libarary/backend/controller/memberController.js:144-146 | a reserved book is held by the caller, on loan to nobody, holder-consistent, and keeps every other field |
| Lending.Released | Libarary/backend/controller/memberController.js:108-110 | a returned book is available, held by nobody, holder-consistent, and keeps its `borrowedDate` and every other field |
| Lending.Charged | Libarary/backend/controller/memberController.js:33-35 | only the caller's record changes: the outstanding and lifetime counts each rise by one and nothing else moves; an unknown caller changes nothing |
| Lending.ChargedOnlyRaises | Libarary/backend/controller/memberController.js:33-35 | charging a borrow keeps every user and history and lowers no lifetime count |
| Lending.Credited | Libarary/backend/controller/memberController.js:112-115 | only the caller's record changes: the book joins the end of the history, the outstanding count falls by one and nothing else moves; an unknown caller changes nothing |
| Lending.CreditedOnlyGrows | Libarary/backend/controller/memberController.js:112-115 | crediting a return keeps every user, only extends histories at their end, and keeps every lifetime count |
| Lending.BorrowThenReturn | Libarary/backend/controller/memberController.js:108-115 | returning a borrowed book restores it except for the kept `borrowedDate`; the outstanding count is back, the lifetime count is up by one, the book has joined the history and other users are untouched |
| Lending.NewUserAgrees | Libarary/backend/model/userModel.js:25-32 | a new user's zero counters and empty history satisfy the counter invariant |
| Lending.BorrowKeepsConsistent | Libarary/backend/controller/memberController.js:28-35 | borrowing an available book keeps the lending invariant |
| Lending.ReserveKeepsConsistent | Libarary/backend/controller/memberController.js:144-146 | reserving an available book keeps the lending invariant |
| Lending.ReturnKeepsConsistent | Libarary/backend/controller/memberController.js:108-115 | returning a book the caller holds keeps the lending invariant |
| Lending.InsertAvailableKeepsConsistent | Libarary/backend/controller/adminController.js:21 | inserting a new available book without a holder keeps the lending invariant |
| Catalog.NewCover | Libarary/backend/controller/adminController.js:11-15 | the cover is "" without a file and the upload's result (possibly null) with one |
| Catalog.Patched | Libarary/backend/controller/adminController.js:34-42 | every field the body supplies is overwritten, including holder, dates, reservations and a text cover; an uploaded file's cover wins over the body's; every other field stays |
| Catalog.PatchKeepsHolderConsistency | Libarary/backend/controller/adminController.js:34-42 | an update that sends neither `availability` nor `borrowedBy` keeps a holder-consistent book holder-consistent |
| Catalog.PatchedIdempotent | Libarary/backend/controller/adminController.js:34-42 | applying an update twice equals applying it once, and an empty update changes nothing |
| Catalog.PatchCanBreakHolderConsistency | Libarary/backend/controller/adminController.js:34-42 | some update turns a holder-consistent book into one that is available yet has a holder |
| Catalog.BuildFilter | Libarary/backend/controller/adminController.js:69-82 | a book passes exactly when it matches the status (if one is given) and the query (if one is given) |
| Catalog.AllBooks | Libarary/backend/controller/adminController.js:67-89 | exactly the books passing both filters, each with its holder's name and email; no filters list every book |
| Catalog.AllMembers | Libarary/backend/controller/adminController.js:93-107 | exactly the users with role member, each without the password, with some book borrowed by them as current book, or null exactly when there is none |
| Catalog.CountIn | Libarary/backend/controller/adminController.js:122-125 | the number of books in one state is at most the catalog size |
| Catalog.TwoStatesFitCatalog | Libarary/backend/controller/adminController.js:119-125 | the counts of two different states add up to at most the total |
| Catalog.GetDashboard | Libarary/backend/controller/adminController.js:109-139 | Forbidden exactly unless the caller is a known admin; otherwise the four counts, with available + borrowed <= total |
| Reviews.ReviewsByBook | Libarary/backend/controller/reviewController.js:23-31 | exactly the reviews of that book, each with its author's name and email |
| Reviews.ReviewsByBookPartition | Libarary/backend/controller/reviewController.js:26 | every review is listed under its own book and under no other |
| Reviews.AllReviews | Libarary/backend/controller/reviewController.js:34-46 | Forbidden exactly unless the caller is a known admin; otherwise every review, each with its author's name and email and its book's title and author (null when dangling) |
| Reviews.AllReviewsIsUnionOfBooks | Libarary/backend/controller/reviewController.js:23-46 | a review is in the admin's list exactly when it is in some book's list, with the same review and author |
| Reviews.ReviewsByBookAfterAdd | Libarary/backend/controller/reviewController.js:15-26 | a review added under a fresh id joins its own book's list and no other list changes |
| Reviews.ReviewsByBookAfterDelete | Libarary/backend/controller/reviewController.js:26-58 | deleting a review removes it from every book's list and changes nothing else |
| Library.Library.constructor | Libarary/backend/model/userModel.js:3-35 | an empty catalog and review store over the registered users, consistent when every user has no outstanding loan and a history as long as their lifetime count |
| Library.Library.BorrowBook | Libarary/backend/controller/memberController.js:16-41 | NotFound, then InvalidState unless available; on success the book is borrowed by the caller with the date, both of the caller's counters rise by one, histories and lifetime counts never shrink, and holder consistency and the lending invariant are kept |
| Library.Library.ReserveBook | Libarary/backend/controller/memberController.js:132-152 | the same failures as borrowing; on success the book is reserved with the caller as holder and no counter moves; holder consistency and the lending invariant are kept |
| Library.Library.ReturnBook | Libarary/backend/controller/memberController.js:96-121 | NotFound, then Forbidden unless the book names the caller; the state is not checked; on success the book is available without a holder, `borrowedDate` stays, the history gains the book at its end and the outstanding count falls by one; histories only grow, and holder consistency and the lending invariant are kept |
| Library.Library.AddBook | Libarary/backend/controller/adminController.js:5-26 | Conflict for a known ISBN, ValidationError for an empty required field, otherwise exactly one new book with the schema defaults; holder consistency and the lending invariant are kept |
| Library.Library.UpdateBook | Libarary/backend/controller/adminController.js:29-50 | NotFound, then Conflict when another book has the new ISBN; otherwise the patched book replaces the old one and nothing else changes |
| Library.Library.DeleteBook | Libarary/backend/controller/adminController.js:53-64 | NotFound exactly for an unknown id; otherwise exactly that book is removed; holder consistency is kept |
| Library.Library.AddReview | Libarary/backend/controller/reviewController.js:5-20 | NotFound exactly for an unknown book; otherwise exactly one new review holding the rating and comment as given |
| Library.Library.DeleteReview | Libarary/backend/controller/reviewController.js:51-64 | with no caller and no role check: NotFound exactly for an unknown id, otherwise exactly that review is removed |
| Library.LendingScenario | Libarary/backend/controller/memberController.js:16-121 | a member borrows a new book and returns it: the book is available without a holder; outstanding 0, lifetime 1, history [b1] |
| Library.SecondMemberScenario | Libarary/backend/controller/memberController.js:16-121 | while one member holds a book, another member's borrow is refused as not available and their return as forbidden, and the holder stays |
| Library.ReviewScenario | Libarary/backend/controller/reviewController.js:5-64 | a new review is listed under its book, and once deleted the book has none |
| Library.ReserveThenReturnScenario | Libarary/backend/controller/memberController.js:104-115 | returning a book one only reserved succeeds and leaves the outstanding count at -1 |
| MemberSearch.FilterMembers | Libarary/frontend/src/admin/Member.jsx:35-38 | the members kept, in their order, are exactly those whose name or email contains the search, ignoring case |
| MemberSearch.FilterMembersCounts | Libarary/frontend/src/admin/Member.jsx:35-38 | each kept member appears as often as in the list, every other member never |
| MemberSearch.EmptySearchKeepsAll | Libarary/frontend/src/admin/Member.jsx:35-38 | an empty search keeps every member |
| MemberSearch.SearchIgnoresCase | Libarary/frontend/src/admin/Member.jsx:35-38 | two searches that differ only in case keep the same members |
| MemberSearch.LowerCasedSearch | Libarary/frontend/src/admin/Member.jsx:35-38 | lower-casing the search beforehand changes nothing |
| ReviewForm.MapSet | Libarary/frontend/src/member/Add.jsx:26 | after `Map.set` the new entry is present, the length grows by at most one, and every other entry was there before |
| ReviewForm.UniqueBooks | Libarary/frontend/src/member/Add.jsx:25-27 | the de-duplicated list is no longer than the fetched one, holds only fetched entries, and holds the last fetched entry |
| ReviewForm.MapSetShape | Libarary/frontend/src/member/Add.jsx:26 | `Map.set` appends a new key at the end and replaces an existing key's value where it stands |
| ReviewForm.UniqueBooksIds | Libarary/frontend/src/member/Add.jsx:25-27 | the de-duplicated list has no repeated id and exactly the fetched ids |
| ReviewForm.UniqueBooksOrder | Libarary/frontend/src/member/Add.jsx:25-27 | the de-duplicated list follows the order of each id's first occurrence |
| ReviewForm.UniqueBooksLast | Libarary/frontend/src/member/Add.jsx:25-27 | each entry is the last fetched entry with its id |
| ReviewForm.UniqueBooksSpec | Libarary/frontend/src/member/Add.jsx:25-27 | all four properties of the de-duplication together |
| ReviewForm.CheckSubmission | Libarary/frontend/src/member/Add.jsx:61-72 | refused exactly when the rating is missing or 0 (reported first) or the comment is missing or blank; otherwise the request carries the book, the rating and the trimmed comment |
| ReviewForm.AcceptedCommentIsTrimmed | Libarary/frontend/src/member/Add.jsx:78 | an accepted comment is non-empty, trimmed, and has no white space at either end |
| ReviewForm.ButtonAgreesWithCheck | Libarary/frontend/src/member/Add.jsx:167-169 | the submit button is disabled exactly when the submit handler would refuse the draft |
| ReviewForm.ReviewPage.constructor | Libarary/frontend/src/member/Add.jsx:10 | the page starts with no drafts |
| ReviewForm.ReviewPage.StarClick | Libarary/frontend/src/member/Add.jsx:41-49 | only this book's draft changes; its rating is set and its comment kept; ratings stay in 0..5 when the star is one of the five buttons |
| ReviewForm.ReviewPage.CommentChange | Libarary/frontend/src/member/Add.jsx:51-59 | only this book's draft changes; its comment is set and its rating kept |
| ReviewForm.ReviewPage.Submit | Libarary/frontend/src/member/Add.jsx:61-94 | the outcome is the submission check; a refused or failed submission changes nothing; a delivered one resets this book's draft to rating 0 and comment "" |

## Left out

- HTTP, routing, status codes and JSON shapes: each handler's outcome is a `Result`, and the
  500 answers for unexpected exceptions are not modelled.
- Persistence and concurrency: each handler is one atomic step. The check-then-act race between
  two borrows and a crash between the book write and the user write are not modelled.
- Authentication and tokens: the caller's id is a parameter. The login and signup handlers
  (`userController.js`) are not part of this model. Neither is `reviewModel.js`, whose schema
  the `Review` datatype assumes to be book, user, rating and comment, with an integer rating.
  addReview stores whatever `rating` the request body carries (a fraction or a string, say);
  the model admits only integers.
- Cover uploads: the cloudinary call is replaced by its outcome (`Catalog.Upload`). addBook
  uploads the file before it looks for a duplicate ISBN, and the model drops that unneeded
  upload.
- Time: `new Date()` is the `now` parameter. The `createdAt`/`updatedAt` timestamps are not
  modelled.
- Query.TitleOrAuthorMatches: the query is matched as a literal substring with ASCII case
  folding. Regular-expression metacharacters and Unicode case folding are not modelled.
- Text.ToLower: lower-cases only A-Z, unlike JavaScript's full Unicode `toLowerCase`.
- Catalog.Patched, Library.Library.UpdateBook: the body's values are taken as already cast to
  the schema's types. A value Mongoose cannot cast (a 500 error) and `_id` or timestamp fields
  in the body are not modelled.
- Library.Library.UpdateBook: availability is one of the three states. The source runs no
  validators on update, so it would also store any other string; the model cannot represent
  that. Fields outside the schema (such as `genre`) are dropped, as Mongoose's strict mode does.
- Library.Library.UpdateBook: a duplicate ISBN is reported as `Conflict`. The source reports
  the unique-index violation as a 500 error.
- Library.Library.AddBook: a missing body field is an empty string. The validation failure that
  the source reports as a 500 error is `ValidationError`.
- Malformed ids: an id that is not a valid ObjectId makes Mongoose throw a cast error (500). The
  model treats it as an unknown id.
- Library.Library.AddBook, Library.Library.AddReview: require that the new document's id is not
  yet in use. That id stands for the ObjectId the database generates.
- Result order: listings other than the returned-books list are maps from id to entry, not
  arrays in database order.
- Catalog.AllMembers: which borrowed book `findOne` picks when a member holds several is left
  to the choice in the model, as the database leaves it open.
- Lending.CountersAgree: states outstanding + returned == lifetime and outstanding <= books on
  loan, not outstanding == books on loan. The equality does not hold in the source
  (`Library.ReserveThenReturnScenario`).
- The frontend's rendering, toasts, loading flags and the per-book submitting flag: only the
  review page's draft state and its checks are modelled. The button's extra "is submitting"
  condition is left out.
- Commented-out code (the earlier returnBook and forceReturnBook) is not modelled.
