/** The read-only review handlers of backend/controller/reviewController.js. The review store is a
    map from review id to review; adding and deleting reviews are Library.Library's methods. */
module Reviews {
  import opened Schema

  /** One entry of getReviewsByBook: the review with its `user` populated with "name email". */
  datatype ReviewView = ReviewView(review: Review, author: Option<Contact>)

  /** `populate("book", "title author")` on a book reference: null when dangling. */
  datatype Title = Title(title: string, author: string)

  /** One entry of getAllReviews: the review with its author and its book populated. */
  datatype AdminReviewView = AdminReviewView(review: Review, author: Option<Contact>, book: Option<Title>)

  function TitleOf(books: map<BookId, Book>, id: BookId): Option<Title> {
    if id in books then Some(Title(books[id].title, books[id].author)) else None
  }

  /** getReviewsByBook: exactly the reviews of that book, each with its author's contact. */
  function ReviewsByBook(reviews: map<ReviewId, Review>, users: map<UserId, User>, bookId: BookId)
    : (r: map<ReviewId, ReviewView>)
    ensures forall k :: k in r <==> k in reviews && reviews[k].book == bookId
    ensures forall k :: k in r ==> r[k].review == reviews[k]
    ensures forall k :: k in r ==> r[k].author == ContactOf(users, Some(reviews[k].user))
  {
    map k | k in reviews && reviews[k].book == bookId :: ReviewView(reviews[k], ContactOf(users, Some(reviews[k].user)))
  }

  /** Every review is listed under its own book and under no other. */
  lemma ReviewsByBookPartition(reviews: map<ReviewId, Review>, users: map<UserId, User>, k: ReviewId, bookId: BookId)
    requires k in reviews
    ensures k in ReviewsByBook(reviews, users, reviews[k].book)
    ensures bookId != reviews[k].book ==> k !in ReviewsByBook(reviews, users, bookId)
  {
  }

  /** getAllReviews: Forbidden unless the caller is a known admin; otherwise every review. */
  function AllReviews(reviews: map<ReviewId, Review>, users: map<UserId, User>, books: map<BookId, Book>,
                      caller: UserId)
    : (r: Result<map<ReviewId, AdminReviewView>>)
    ensures r.Err? <==> caller !in users || users[caller].role != Admin
    ensures r.Err? ==> r.error == Forbidden
    ensures r.Ok? ==> r.value.Keys == reviews.Keys
    ensures r.Ok? ==> forall k :: k in r.value ==> r.value[k].review == reviews[k]
    ensures r.Ok? ==> forall k :: k in r.value ==> r.value[k].author == ContactOf(users, Some(reviews[k].user))
    ensures r.Ok? ==> forall k :: k in r.value ==> r.value[k].book == TitleOf(books, reviews[k].book)
  {
    if caller !in users || users[caller].role != Admin then Err(Forbidden)
    else Ok(map k | k in reviews ::
      AdminReviewView(reviews[k], ContactOf(users, Some(reviews[k].user)), TitleOf(books, reviews[k].book)))
  }

  /** An admin's list of all reviews is the union of the per-book lists, with the same review and
      author in each entry. */
  lemma AllReviewsIsUnionOfBooks(reviews: map<ReviewId, Review>, users: map<UserId, User>,
                                 books: map<BookId, Book>, caller: UserId, k: ReviewId)
    requires AllReviews(reviews, users, books, caller).Ok?
    ensures k in AllReviews(reviews, users, books, caller).value
      <==> exists b :: k in ReviewsByBook(reviews, users, b)
    ensures k in AllReviews(reviews, users, books, caller).value ==>
      var v := AllReviews(reviews, users, books, caller).value[k];
      var w := ReviewsByBook(reviews, users, reviews[k].book)[k];
      v.review == w.review && v.author == w.author
  {
    if k in reviews {
      ReviewsByBookPartition(reviews, users, k, reviews[k].book);
    }
  }

  /** Adding a review under a fresh id puts it on its own book's list and changes no other list. */
  lemma ReviewsByBookAfterAdd(reviews: map<ReviewId, Review>, users: map<UserId, User>, newId: ReviewId,
                              review: Review, bookId: BookId)
    requires newId !in reviews
    ensures ReviewsByBook(reviews[newId := review], users, bookId).Keys
      == ReviewsByBook(reviews, users, bookId).Keys + (if review.book == bookId then {newId} else {})
    ensures review.book == bookId ==>
      ReviewsByBook(reviews[newId := review], users, bookId)[newId].review == review
  {
  }

  /** Deleting a review takes it off every book's list and changes nothing else. */
  lemma ReviewsByBookAfterDelete(reviews: map<ReviewId, Review>, users: map<UserId, User>,
                                 id: ReviewId, bookId: BookId)
    ensures ReviewsByBook(reviews - {id}, users, bookId)
      == ReviewsByBook(reviews, users, bookId) - {id}
  {
  }
}
