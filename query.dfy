/** The query filters the handlers hand to `Book.find`: an equality test on `availability` and a
    case-insensitive `$regex` on `title` OR `author`, combined with AND. A `$regex` is modelled as
    a literal, ASCII case-insensitive substring match. */
module Query {
  import opened Schema
  import Text

  /** `{ $or: [ { title: { $regex: q, $options: "i" } }, { author: { $regex: q, $options: "i" } } ] }` */
  predicate TitleOrAuthorMatches(b: Book, query: string) {
    Text.Contains(Text.ToLower(b.title), Text.ToLower(query))
    || Text.Contains(Text.ToLower(b.author), Text.ToLower(query))
  }

  /** The `i` option: lower-casing the query first changes no match. */
  lemma TitleOrAuthorMatchIgnoresQueryCase(b: Book, query: string)
    ensures TitleOrAuthorMatches(b, Text.ToLower(query)) == TitleOrAuthorMatches(b, query)
  {
    Text.ToLowerIdempotent(query);
  }

  /** The empty pattern matches every book. */
  lemma EmptyQueryMatchesAll(b: Book)
    ensures TitleOrAuthorMatches(b, "")
  {
    Text.ContainsEmpty(Text.ToLower(b.title));
  }

  /** A filter document: each part is present or absent. */
  datatype BookFilter = BookFilter(availability: Option<string>, text: Option<string>)

  /** A book satisfies a filter when it satisfies every part that is present. */
  predicate Matches(f: BookFilter, b: Book) {
    && (f.availability.None? || AvailabilityName(b.availability) == f.availability.value)
    && (f.text.None? || TitleOrAuthorMatches(b, f.text.value))
  }

  /** `Book.find(filter)`: the books that satisfy the filter, unchanged. */
  function Find(books: map<BookId, Book>, f: BookFilter): (r: map<BookId, Book>)
    ensures forall k :: k in r <==> k in books && Matches(f, books[k])
    ensures forall k :: k in r ==> r[k] == books[k]
  {
    map k | k in books && Matches(f, books[k]) :: books[k]
  }

  /** The stored name of a state selects exactly that state. */
  lemma AvailabilityNameSelects(a: Availability, b: Availability)
    ensures AvailabilityName(a) == AvailabilityName(b) <==> a == b
  {
    if a != b {
      assert AvailabilityName(a)[0] != AvailabilityName(b)[0];
    }
  }
}
