/**
 * AuthorService: the two author listings, one over the stored authors and
 * one over the authors of the books a genre search returns.
 */
module AuthorService {
  import opened Lang
  import opened Catalog
  import opened Entities
  import opened Repository
  import opened Translation
  import opened BookService

  // ---------------------------------------------------------------------------
  // Authors alive in a year
  // ---------------------------------------------------------------------------

  /** Born in or before `year` and died in or after it; an unknown year is no bound. */
  predicate AliveIn(birth: Option<int>, death: Option<int>, year: int)
  {
    (birth.None? || birth.value <= year) && (death.None? || death.value >= year)
  }

  /**
   * `getAuthorsAliveInYear(year)` over the stored authors `authors`, in
   * store order: exactly the authors alive in `year` are kept.
   */
  function AuthorsAliveInYear(authors: seq<Author>, year: int): (r: seq<Author>)
    reads authors`birthYear, authors`deathYear
    ensures forall i :: 0 <= i < |r| ==> r[i] in authors && AliveIn(r[i].birthYear, r[i].deathYear, year)
    ensures forall i :: 0 <= i < |authors| && AliveIn(authors[i].birthYear, authors[i].deathYear, year) ==> authors[i] in r
  {
    if authors == [] then []
    else
      var rest := AuthorsAliveInYear(authors[1..], year);
      if AliveIn(authors[0].birthYear, authors[0].deathYear, year) then [authors[0]] + rest else rest
  }

  /** The kept authors are a subsequence of the stored ones: the filter keeps their order. */
  lemma {:induction false} AliveInYearKeepsOrder(authors: seq<Author>, year: int)
    ensures IsSubsequence(AuthorsAliveInYear(authors, year), authors)
    decreases |authors|
  {
    if authors != [] {
      AliveInYearKeepsOrder(authors[1..], year);
      var r := AuthorsAliveInYear(authors, year);
      var rest := AuthorsAliveInYear(authors[1..], year);
      if AliveIn(authors[0].birthYear, authors[0].deathYear, year) {
        assert r[0] == authors[0] && r[1..] == rest;
      } else {
        assert r == rest;
        SubsequenceSkip(r, authors);
      }
    }
  }

  lemma SubsequenceSkip<T>(r: seq<T>, s: seq<T>)
    requires s != [] && IsSubsequence(r, s[1..])
    ensures IsSubsequence(r, s)
  {
  }

  /** An author with both years unknown is listed for every year. */
  lemma UnknownYearsAlwaysAlive(authors: seq<Author>, year: int, i: nat)
    requires i < |authors| && authors[i].birthYear.None? && authors[i].deathYear.None?
    ensures authors[i] in AuthorsAliveInYear(authors, year)
  {
  }

  /** The filter is idempotent: the authors alive in a year are all listed again. */
  lemma {:induction false} AliveInYearIdempotent(authors: seq<Author>, year: int)
    ensures AuthorsAliveInYear(AuthorsAliveInYear(authors, year), year) == AuthorsAliveInYear(authors, year)
    decreases |authors|
  {
    if authors != [] {
      AliveInYearIdempotent(authors[1..], year);
      var rest := AuthorsAliveInYear(authors[1..], year);
      if AliveIn(authors[0].birthYear, authors[0].deathYear, year) {
        var r := [authors[0]] + rest;
        assert r[1..] == rest;
      }
    }
  }

  /**
   * The years an author gets from a catalog entry whose "birth_year" and
   * "death_year" are both JSON null: the reading as written makes both 0,
   * so the author is not listed for 1900, while the intended reading leaves
   * them unknown and lists the author for every year.
   */
  lemma NullYearsHideAuthor(year: int)
    ensures !AliveIn(OptionalIntAsWritten(Some(JNull)), OptionalIntAsWritten(Some(JNull)), 1900)
    ensures AliveIn(OptionalInt(Some(JNull)), OptionalInt(Some(JNull)), year)
  {
    OptionalIntDiffersOnlyOnNull(Some(JNull));
  }

  // ---------------------------------------------------------------------------
  // Authors by book genre
  // ---------------------------------------------------------------------------

  /** `map(Book::getAuthor).filter(author -> author != null)`: the books' authors, in order, nulls dropped. */
  function NonNullAuthors(bs: seq<Book>): (r: seq<Author>)
    reads bs
    ensures forall i :: 0 <= i < |r| ==> exists k :: 0 <= k < |bs| && bs[k].author == r[i]
    ensures forall k :: 0 <= k < |bs| && bs[k].author != null ==> bs[k].author in r
  {
    if bs == [] then []
    else
      var rest := NonNullAuthors(bs[1..]);
      assert forall k :: 1 <= k < |bs| ==> bs[1..][k - 1] == bs[k];
      if bs[0].author != null then [bs[0].author] + rest else rest
  }

  /** The stored author a catalog record names in its first author entry, if any. */
  function RecordAuthor(stored: seq<Author>, rec: CatalogRecord): (r: Option<Author>)
    reads stored`name
    ensures r.Some? ==> r.value in stored && FirstAuthor(rec).Some? && FirstAuthor(rec).value.name == Some(r.value.name)
    ensures r.None? && FirstAuthor(rec).Some? && FirstAuthor(rec).value.name.Some? ==>
      forall i :: 0 <= i < |stored| ==> stored[i].name != FirstAuthor(rec).value.name.value
  {
    match FirstAuthor(rec)
    case None => None
    case Some(e) => if e.name.Some? then AuthorNamed(stored, e.name.value) else None
  }

  /** The stored authors the records name, one per record that names one, in record order. */
  function NamedAuthors(stored: seq<Author>, items: seq<CatalogRecord>): (r: seq<Author>)
    reads stored`name
    ensures forall i :: 0 <= i < |r| ==> r[i] in stored
    ensures forall i :: 0 <= i < |r| ==> exists k :: 0 <= k < |items| && RecordAuthor(stored, items[k]) == Some(r[i])
    ensures forall k :: 0 <= k < |items| && RecordAuthor(stored, items[k]).Some? ==> RecordAuthor(stored, items[k]).value in r
  {
    if items == [] then []
    else
      var rest := NamedAuthors(stored, items[1..]);
      assert forall k :: 1 <= k < |items| ==> items[1..][k - 1] == items[k];
      match RecordAuthor(stored, items[0])
      case Some(a) => [a] + rest
      case None => rest
  }

  /**
   * Books keyed for complete records carry, record by record, the stored
   * author the record names, or none: their non-null authors are the
   * records' named authors.
   */
  lemma {:induction false} NamedAuthorsOfBooks(stored: seq<Author>, items: seq<CatalogRecord>, books: seq<Book>)
    requires UniqueNames(stored) && |books| == |items| && AllComplete(items)
    requires forall k :: 0 <= k < |items| ==> AuthorFor(books[k].author, items[k], stored)
    ensures NonNullAuthors(books) == NamedAuthors(stored, items)
    decreases |items|
  {
    if items != [] {
      assert AllComplete(items[1..]) by {
        forall k | 0 <= k < |items| - 1 ensures Complete(items[1..][k]) {
          assert items[1..][k] == items[k + 1];
        }
      }
      forall k | 0 <= k < |items| - 1 ensures AuthorFor(books[1..][k].author, items[1..][k], stored) {
        assert books[1..][k] == books[k + 1] && items[1..][k] == items[k + 1];
      }
      NamedAuthorsOfBooks(stored, items[1..], books[1..]);
      assert Complete(items[0]) && AuthorFor(books[0].author, items[0], stored);
      if FirstAuthor(items[0]).Some? {
        AuthorNamedUnique(stored, FirstAuthor(items[0]).value.name.value, books[0].author);
      }
    }
  }

  /**
   * `getAuthorsByBookGenre(genre)`: the non-null authors of the books
   * `getBooksByGenre(genre)` returns, each once, in first-seen order. On a
   * complete response these are the stored authors the records name.
   */
  method GetAuthorsByBookGenre(store: Store, genre: string, fetch: Query -> Response) returns (authors: seq<Author>, ghost books: seq<Book>)
    requires store.Valid()
    modifies store`authors, store`books
    modifies store.books`downloadCount, store.books`yearWritten, store.books`genre, store.books`languages
    ensures store.Valid()
    ensures authors == Distinct(NonNullAuthors(books))
    ensures var resp := fetch(Topic(GenreToEnglish(genre)));
      !(resp.Some? && resp.value.Array? && AllComplete(resp.value.items)) ==> authors == []
    ensures var resp := fetch(Topic(GenreToEnglish(genre)));
      !(resp.Some? && resp.value.Array?) ==> store.authors == old(store.authors) && store.books == old(store.books)
    ensures var resp := fetch(Topic(GenreToEnglish(genre)));
      resp.Some? && resp.value.Array? && AllComplete(resp.value.items) ==>
        authors == Distinct(NamedAuthors(store.authors, resp.value.items))
  {
    var found := GetBooksByGenre(store, genre, fetch);
    books := found;
    authors := Distinct(NonNullAuthors(found));
    var resp := fetch(Topic(GenreToEnglish(genre)));
    if resp.Some? && resp.value.Array? && AllComplete(resp.value.items) {
      KeyedAuthors(store, resp.value.items, found);
    }
  }

  /** The books `getBooksByGenre` returns for complete records have the records' named authors. */
  lemma KeyedAuthors(store: Store, items: seq<CatalogRecord>, books: seq<Book>)
    requires store.Valid() && AllComplete(items) && |books| == |items|
    requires forall k :: 0 <= k < |items| ==> Keyed(store, books[k], items[k])
    ensures NonNullAuthors(books) == NamedAuthors(store.authors, items)
  {
    forall k | 0 <= k < |items| ensures AuthorFor(books[k].author, items[k], store.authors) {
      assert Keyed(store, books[k], items[k]);
    }
    NamedAuthorsOfBooks(store.authors, items, books);
  }

  /**
   * The listing built from books holds exactly their non-null authors, each
   * once, in the order each first occurs among the books' authors.
   */
  lemma BookAuthorsSpec(books: seq<Book>)
    ensures var r := Distinct(NonNullAuthors(books));
      && NoDuplicates(r)
      && (forall a: Author :: a in r <==> exists k :: 0 <= k < |books| && books[k].author == a)
      && (forall i, j :: 0 <= i < j < |r| ==>
            FirstIndex(NonNullAuthors(books), r[i]) < FirstIndex(NonNullAuthors(books), r[j]))
  {
    var nn := NonNullAuthors(books);
    var r := Distinct(nn);
    DistinctFirstSeenOrder(nn);
    forall a: Author | a in r
      ensures exists k :: 0 <= k < |books| && books[k].author == a
    {
      var m :| 0 <= m < |nn| && nn[m] == a;
    }
  }

  /**
   * The genre listing holds exactly the stored authors the complete
   * records name, each once, in the order each is first named.
   */
  lemma GenreAuthorsSpec(stored: seq<Author>, items: seq<CatalogRecord>)
    ensures var r := Distinct(NamedAuthors(stored, items));
      && NoDuplicates(r)
      && (forall a: Author :: a in r <==> exists k :: 0 <= k < |items| && RecordAuthor(stored, items[k]) == Some(a))
      && (forall i, j :: 0 <= i < j < |r| ==>
            FirstIndex(NamedAuthors(stored, items), r[i]) < FirstIndex(NamedAuthors(stored, items), r[j]))
  {
    var named := NamedAuthors(stored, items);
    var r := Distinct(named);
    DistinctFirstSeenOrder(named);
    forall a: Author | a in r
      ensures exists k :: 0 <= k < |items| && RecordAuthor(stored, items[k]) == Some(a)
    {
      var i :| 0 <= i < |r| && r[i] == a;
      var m :| 0 <= m < |named| && named[m] == a;
    }
  }
}
