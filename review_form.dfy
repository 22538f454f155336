/** The review page of a member (frontend/src/member/Add.jsx): the returned books it offers,
    de-duplicated through a JavaScript Map keyed by book id; the per-book draft (rating and
    comment) the star buttons and the text box edit; and the check a draft must pass before it is
    posted as a review. */
module ReviewForm {
  import opened Schema
  import Text

  // ---------------------------------------------------------------- de-duplication

  /** `map.set(b._id, b)` on a Map whose entries are listed in insertion order (each entry's
      key is its value's id): an existing key keeps its place and takes the new value, a new key
      goes to the end. */
  function MapSet(m: seq<BookSummary>, b: BookSummary): (r: seq<BookSummary>)
    ensures b in r && |m| <= |r| <= |m| + 1
    ensures forall x :: x in r ==> x == b || x in m
  {
    if m == [] then [b]
    else if m[0].id == b.id then [b] + m[1..]
    else [m[0]] + MapSet(m[1..], b)
  }

  /** `Array.from(new Map(data.map(book => [book._id, book])).values())` */
  function UniqueBooks(data: seq<BookSummary>): (r: seq<BookSummary>)
    ensures |r| <= |data|
    ensures forall x :: x in r ==> x in data
    ensures data != [] ==> data[|data| - 1] in r
  {
    if data == [] then [] else MapSet(UniqueBooks(data[..|data| - 1]), data[|data| - 1])
  }

  /** The ids occurring in a list. */
  function IdSet(s: seq<BookSummary>): set<BookId> {
    set i | 0 <= i < |s| :: s[i].id
  }

  /** No id occurs twice. */
  predicate DistinctIds(s: seq<BookSummary>) {
    forall i, j :: 0 <= i < j < |s| ==> s[i].id != s[j].id
  }

  /** The position of the first entry with this id (|s| when there is none). */
  function FirstIndex(s: seq<BookSummary>, id: BookId): (r: nat)
    ensures r <= |s|
  {
    if s == [] then 0 else if s[0].id == id then 0 else 1 + FirstIndex(s[1..], id)
  }

  /** The position of the last entry with this id (-1 when there is none). */
  function LastIndex(s: seq<BookSummary>, id: BookId): (r: int)
    ensures -1 <= r < |s|
  {
    if s == [] then -1 else if s[|s| - 1].id == id then |s| - 1 else LastIndex(s[..|s| - 1], id)
  }

  lemma IdSetCons(s: seq<BookSummary>)
    requires s != []
    ensures IdSet(s) == {s[0].id} + IdSet(s[1..])
  {
    forall x | x in IdSet(s) ensures x in {s[0].id} + IdSet(s[1..]) {
      var i :| 0 <= i < |s| && s[i].id == x;
      if i > 0 { assert s[1..][i - 1].id == x; }
    }
    forall x | x in IdSet(s[1..]) ensures x in IdSet(s) {
      var i :| 0 <= i < |s[1..]| && s[1..][i].id == x;
      assert s[i + 1].id == x;
    }
  }

  lemma IdSetAppend(s: seq<BookSummary>, x: BookSummary)
    ensures IdSet(s + [x]) == IdSet(s) + {x.id}
  {
    var t := s + [x];
    forall y | y in IdSet(t) ensures y in IdSet(s) + {x.id} {
      var i :| 0 <= i < |t| && t[i].id == y;
      if i < |s| { assert s[i].id == y; }
    }
    forall y | y in IdSet(s) ensures y in IdSet(t) {
      var i :| 0 <= i < |s| && s[i].id == y;
      assert t[i].id == y;
    }
    assert t[|s|].id == x.id;
  }

  /** Two lists with the same ids position by position have the same id set. */
  lemma SameIds(s: seq<BookSummary>, t: seq<BookSummary>)
    requires |s| == |t| && forall i :: 0 <= i < |s| ==> s[i].id == t[i].id
    ensures IdSet(s) == IdSet(t)
  {
    forall y | y in IdSet(s) ensures y in IdSet(t) {
      var i :| 0 <= i < |s| && s[i].id == y;
      assert t[i].id == y;
    }
    forall y | y in IdSet(t) ensures y in IdSet(s) {
      var i :| 0 <= i < |t| && t[i].id == y;
      assert s[i].id == y;
    }
  }

  lemma {:induction false} FirstIndexFinds(s: seq<BookSummary>, id: BookId)
    ensures FirstIndex(s, id) < |s| <==> id in IdSet(s)
    ensures FirstIndex(s, id) < |s| ==> s[FirstIndex(s, id)].id == id
  {
    if s != [] {
      FirstIndexFinds(s[1..], id);
      IdSetCons(s);
    }
  }

  /** Appending an entry leaves the first positions of the ids already present alone, and puts
      the first position of a new id at the end. */
  lemma {:induction false} FirstIndexAppend(s: seq<BookSummary>, x: BookSummary, id: BookId)
    ensures id in IdSet(s) ==> FirstIndex(s + [x], id) == FirstIndex(s, id)
    ensures id !in IdSet(s) && x.id == id ==> FirstIndex(s + [x], id) == |s|
  {
    FirstIndexFinds(s, id);
    if s != [] {
      assert (s + [x])[1..] == s[1..] + [x];
      FirstIndexAppend(s[1..], x, id);
      FirstIndexFinds(s[1..], id);
    }
  }

  /** `MapSet` on a list without repeated ids: a new id is appended; an id already present is
      replaced where it stands, and every other entry stays. */
  lemma {:induction false} MapSetShape(m: seq<BookSummary>, b: BookSummary)
    requires DistinctIds(m)
    ensures b.id !in IdSet(m) ==> MapSet(m, b) == m + [b]
    ensures b.id in IdSet(m) ==> (|MapSet(m, b)| == |m|
      && forall i :: 0 <= i < |m| ==> MapSet(m, b)[i] == (if m[i].id == b.id then b else m[i]))
  {
    if m != [] {
      assert DistinctIds(m[1..]) by {
        forall i, j | 0 <= i < j < |m[1..]| ensures m[1..][i].id != m[1..][j].id {
          assert m[1..][i] == m[i + 1] && m[1..][j] == m[j + 1];
        }
      }
      MapSetShape(m[1..], b);
      IdSetCons(m);
      if m[0].id == b.id {
        assert forall i :: 1 <= i < |m| ==> m[i].id != b.id;
      }
    }
  }

  /** `MapSet` keeps the ids distinct and adds the new entry's id. */
  lemma MapSetIds(m: seq<BookSummary>, b: BookSummary)
    requires DistinctIds(m)
    ensures DistinctIds(MapSet(m, b)) && IdSet(MapSet(m, b)) == IdSet(m) + {b.id}
  {
    MapSetShape(m, b);
    if b.id in IdSet(m) {
      SameIds(MapSet(m, b), m);
    } else {
      IdSetAppend(m, b);
    }
  }

  /** The de-duplicated list holds every id of the fetched list, each once. */
  lemma {:induction false} UniqueBooksIds(data: seq<BookSummary>)
    ensures DistinctIds(UniqueBooks(data)) && IdSet(UniqueBooks(data)) == IdSet(data)
  {
    if data != [] {
      var d, x := data[..|data| - 1], data[|data| - 1];
      assert data == d + [x];
      UniqueBooksIds(d);
      MapSetIds(UniqueBooks(d), x);
      IdSetAppend(d, x);
    }
  }

  /** The de-duplicated list follows the order in which the ids first occur. */
  lemma {:induction false} UniqueBooksOrder(data: seq<BookSummary>)
    ensures var out := UniqueBooks(data);
      forall p, q :: 0 <= p < q < |out| ==> FirstIndex(data, out[p].id) < FirstIndex(data, out[q].id)
  {
    if data != [] {
      var d, x := data[..|data| - 1], data[|data| - 1];
      assert data == d + [x];
      UniqueBooksOrder(d);
      UniqueBooksIds(d);
      var m := UniqueBooks(d);
      MapSetShape(m, x);
      forall p | 0 <= p < |m|
        ensures FirstIndex(data, m[p].id) == FirstIndex(d, m[p].id) < |d|
      {
        assert m[p].id in IdSet(m);
        FirstIndexAppend(d, x, m[p].id);
        FirstIndexFinds(d, m[p].id);
      }
      if x.id !in IdSet(m) {
        FirstIndexAppend(d, x, x.id);
      }
    }
  }

  /** Each entry of the de-duplicated list is the last fetched entry with its id. */
  lemma {:induction false} UniqueBooksLast(data: seq<BookSummary>)
    ensures var out := UniqueBooks(data);
      forall p :: 0 <= p < |out| ==> 0 <= LastIndex(data, out[p].id) && out[p] == data[LastIndex(data, out[p].id)]
  {
    if data != [] {
      var d, x := data[..|data| - 1], data[|data| - 1];
      UniqueBooksLast(d);
      UniqueBooksIds(d);
      var m := UniqueBooks(d);
      MapSetShape(m, x);
      forall p | 0 <= p < |m| && m[p].id != x.id
        ensures LastIndex(data, m[p].id) == LastIndex(d, m[p].id)
      {
      }
    }
  }

  /** What the de-duplicated list guarantees: every id at most once; exactly the ids of the
      fetched list; in the order of their first occurrence; and, for each id, the value of its
      last occurrence (a Map keeps a key's first position and its last value). */
  ghost predicate DedupOf(data: seq<BookSummary>, out: seq<BookSummary>) {
    && DistinctIds(out)
    && IdSet(out) == IdSet(data)
    && (forall p, q :: 0 <= p < q < |out| ==> FirstIndex(data, out[p].id) < FirstIndex(data, out[q].id))
    && (forall p :: 0 <= p < |out| ==> 0 <= LastIndex(data, out[p].id) && out[p] == data[LastIndex(data, out[p].id)])
  }

  lemma UniqueBooksSpec(data: seq<BookSummary>)
    ensures DedupOf(data, UniqueBooks(data))
  {
    UniqueBooksIds(data);
    UniqueBooksOrder(data);
    UniqueBooksLast(data);
  }

  // ---------------------------------------------------------------- drafts

  /** The draft of one book: `{ ...prev[bookId], rating }` may lack either field. */
  datatype Draft = Draft(rating: Option<int>, comment: Option<string>)

  /** `prev[bookId]`, where spreading a missing entry gives an empty object. */
  function EntryOf(drafts: map<BookId, Draft>, bookId: BookId): Draft {
    if bookId in drafts then drafts[bookId] else Draft(None, None)
  }

  /** The ratings the star buttons offer. */
  const Stars: seq<int> := [1, 2, 3, 4, 5]

  /** The body posted to the review endpoint. */
  datatype ReviewRequest = ReviewRequest(bookId: BookId, rating: int, comment: string)

  datatype Refusal = MissingRating | MissingComment

  datatype Checked = Accept(request: ReviewRequest) | Refuse(reason: Refusal)

  /** `!rating`: no rating, or 0. */
  predicate RatingMissing(d: Draft) {
    d.rating.None? || d.rating.value == 0
  }

  /** `!comment || comment.trim() === ""` */
  predicate CommentMissing(d: Draft) {
    d.comment.None? || Text.Trim(d.comment.value) == ""
  }

  /** handleReviewSubmit's checks: refused when the rating is missing or 0, else when the comment
      is missing or blank; otherwise the request carries the rating and the trimmed comment. */
  function CheckSubmission(drafts: map<BookId, Draft>, bookId: BookId): (r: Checked)
    ensures r.Refuse? <==> RatingMissing(EntryOf(drafts, bookId)) || CommentMissing(EntryOf(drafts, bookId))
    ensures r.Refuse? ==> (r.reason == MissingRating <==> RatingMissing(EntryOf(drafts, bookId)))
    ensures r.Accept? ==> (r.request.bookId == bookId
      && Some(r.request.rating) == EntryOf(drafts, bookId).rating && r.request.rating != 0
      && r.request.comment == Text.Trim(EntryOf(drafts, bookId).comment.value))
  {
    var d := EntryOf(drafts, bookId);
    if RatingMissing(d) then Refuse(MissingRating)
    else if CommentMissing(d) then Refuse(MissingComment)
    else Accept(ReviewRequest(bookId, d.rating.value, Text.Trim(d.comment.value)))
  }

  /** A request that passes the checks carries a non-empty comment with no white space at
      either end. */
  lemma AcceptedCommentIsTrimmed(drafts: map<BookId, Draft>, bookId: BookId)
    requires CheckSubmission(drafts, bookId).Accept?
    ensures var c := CheckSubmission(drafts, bookId).request.comment;
      c != "" && !Text.IsSpace(c[0]) && !Text.IsSpace(c[|c| - 1]) && Text.Trim(c) == c
  {
    var s := EntryOf(drafts, bookId).comment.value;
    Text.TrimSpec(s);
    Text.TrimIdempotent(s);
  }

  /** The submit button is disabled when `currentRating === 0 || !currentComment.trim()`, with
      `currentRating = rating || 0` and `currentComment = comment || ""`. */
  predicate ButtonDisabled(drafts: map<BookId, Draft>, bookId: BookId) {
    var d := EntryOf(drafts, bookId);
    var currentRating := if d.rating.Some? then d.rating.value else 0;
    var currentComment := if d.comment.Some? then d.comment.value else "";
    currentRating == 0 || Text.Trim(currentComment) == ""
  }

  /** The button is enabled exactly when the handler's checks would pass. */
  lemma ButtonAgreesWithCheck(drafts: map<BookId, Draft>, bookId: BookId)
    ensures ButtonDisabled(drafts, bookId) <==> CheckSubmission(drafts, bookId).Refuse?
  {
    assert Text.Trim("") == "";
  }

  /** The per-book drafts of the page (`reviewData`). */
  class ReviewPage {
    var drafts: map<BookId, Draft>

    /** Every rating held is 0 (a reset form) or one the star buttons offer. */
    ghost predicate RatingsInRange()
      reads this
    {
      forall k :: k in drafts && drafts[k].rating.Some? ==> 0 <= drafts[k].rating.value <= 5
    }

    constructor ()
      ensures drafts == map[] && RatingsInRange()
    {
      drafts := map[];
    }

    /** handleStarClick: only this book's entry changes, and it keeps its comment. */
    method StarClick(bookId: BookId, rating: int)
      modifies this
      ensures drafts == old(drafts)[bookId := EntryOf(old(drafts), bookId).(rating := Some(rating))]
      ensures old(RatingsInRange()) && rating in Stars ==> RatingsInRange()
    {
      var entry := EntryOf(drafts, bookId);
      drafts := drafts[bookId := entry.(rating := Some(rating))];
    }

    /** handleCommentChange: only this book's entry changes, and it keeps its rating. */
    method CommentChange(bookId: BookId, comment: string)
      modifies this
      ensures drafts == old(drafts)[bookId := EntryOf(old(drafts), bookId).(comment := Some(comment))]
      ensures old(RatingsInRange()) ==> RatingsInRange()
    {
      var entry := EntryOf(drafts, bookId);
      drafts := drafts[bookId := entry.(comment := Some(comment))];
    }

    /** handleReviewSubmit: a refused draft changes nothing; an accepted one is posted, and when
        the post succeeds (`posted`) this book's entry is reset to rating 0 and comment "". */
    method Submit(bookId: BookId, posted: bool) returns (r: Checked)
      modifies this
      ensures r == CheckSubmission(old(drafts), bookId)
      ensures drafts == if r.Accept? && posted then old(drafts)[bookId := Draft(Some(0), Some(""))] else old(drafts)
      ensures old(RatingsInRange()) ==> RatingsInRange()
    {
      r := CheckSubmission(drafts, bookId);
      if r.Accept? && posted {
        drafts := drafts[bookId := Draft(Some(0), Some(""))];
      }
    }
  }
}
