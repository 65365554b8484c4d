/**
 * BookService: building books from catalog records, translating them,
 * reconciling them with the store, and the searches built on that. The
 * catalog is a function from a query to its response; the service state is
 * the store.
 */
module BookService {
  import opened Lang
  import opened Catalog
  import opened Genre
  import opened Translation
  import opened Entities
  import opened Repository
  import opened Reconcile

  /** `findOrCreateAuthor(author)`: the stored author with the candidate's name, or the candidate, now stored. */
  method FindOrCreateAuthor(store: Store, author: Author) returns (r: Author)
    requires store.Valid()
    modifies store`authors
    ensures r == old(ResolvedAuthor(store.authors, author))
    ensures store.authors == old(ResolvedAuthors(store.authors, author))
    ensures store.Valid()
  {
    var found := AuthorNamed(store.authors, author.name);
    if found.Some? {
      return found.value;
    }
    store.SaveAuthor(author);
    return author;
  }

  /** The first step of `saveBook`: a book with an author gets the resolved author. */
  method ResolveBookAuthor(store: Store, book: Book)
    requires store.Valid()
    modifies store`authors, book`author
    ensures store.Valid()
    ensures old(book.author) == null ==> book.author == null && store.authors == old(store.authors)
    ensures old(book.author) != null ==>
      && book.author == old(ResolvedAuthor(store.authors, book.author))
      && store.authors == old(ResolvedAuthors(store.authors, book.author))
    ensures old(book.author) != null && old(book.author) in old(store.authors) ==>
      book.author == old(book.author) && store.authors == old(store.authors)
    ensures Views(store.books) == old(Views(store.books))
  {
    ghost var stored := Views(store.books);
    if book.author != null {
      if book.author in store.authors {
        ResolveStored(store.authors, book.author);
      }
      var existing := FindOrCreateAuthor(store, book.author);
      book.SetAuthor(existing);
    }
    forall i | 0 <= i < |store.books|
      ensures View(store.books[i]) == stored[i]
    {
    }
  }

  /** The four setters of the hit branch: the match takes the candidate's copied fields. */
  method Refresh(store: Store, existing: Book, book: Book, ghost at: nat)
    requires NoDuplicates(store.books) && at < |store.books| && existing == store.books[at]
    modifies existing`downloadCount, existing`yearWritten, existing`genre, existing`languages
    ensures Views(store.books) == old(Views(store.books)[at := Refreshed(Views(store.books)[at], View(book))])
  {
    ghost var stored := Views(store.books);
    ghost var cand := View(book);
    existing.SetDownloadCount(book.downloadCount);
    existing.SetYearWritten(book.yearWritten);
    existing.SetGenre(book.genre);
    existing.SetLanguages(book.languages);
    forall i | 0 <= i < |store.books|
      ensures View(store.books[i]) == stored[at := Refreshed(stored[at], cand)][i]
    {
      if i != at {
        assert store.books[i] != existing;
      }
    }
  }

  /** The hit branch of `saveBook`: refresh the first match and save it again. */
  method SaveMatched(store: Store, book: Book, existing: Book, ghost at: nat) returns (r: Book)
    requires store.Valid()
    requires KeyIndex(Views(store.books), book.title, book.author) == Some(at) && existing == store.books[at]
    modifies store`books, existing`downloadCount, existing`yearWritten, existing`genre, existing`languages
    ensures store.Valid()
    ensures store.books == old(store.books)
    ensures Views(store.books) == old(Merge(Views(store.books), View(book)).books)
    ensures r == existing
  {
    Refresh(store, existing, book, at);
    assert store.Valid();
    r := store.SaveBook(existing);
  }

  /** The miss branch of `saveBook`: the book itself is appended. */
  method SaveNew(store: Store, book: Book) returns (r: Book)
    requires store.Valid() && (book.author == null || book.author in store.authors)
    requires KeyIndex(Views(store.books), book.title, book.author).None?
    modifies store`books
    ensures store.Valid()
    ensures store.books == old(store.books) + [book]
    ensures Views(store.books) == old(Merge(Views(store.books), View(book)).books)
    ensures r == book
  {
    ghost var stored := Views(store.books);
    forall i | 0 <= i < |store.books|
      ensures store.books[i] != book
    {
      assert stored[i] == View(store.books[i]);
    }
    r := store.SaveBook(book);
    assert Views(store.books) == stored + [View(book)];
  }

  /** Lines 226-236 once the author is resolved: refresh the first match or append the book. */
  method SaveResolved(store: Store, book: Book) returns (r: Book, ghost at: nat)
    requires store.Valid() && (book.author == null || book.author in store.authors)
    modifies store`books
    modifies store.books`downloadCount, store.books`yearWritten, store.books`genre, store.books`languages
    ensures store.Valid()
    ensures Views(store.books) == Merge(old(Views(store.books)), old(View(book))).books
    ensures at == Merge(old(Views(store.books)), old(View(book))).at
    ensures at < |store.books| && r == store.books[at]
    ensures r.author == book.author
    ensures (store.books == old(store.books) && r in old(store.books)) || (store.books == old(store.books) + [book] && r == book)
  {
    ghost var stored := Views(store.books);
    var matches := Matching(store.books, book.title, book.author);
    MatchingFirst(store.books, book.title, book.author);
    if matches != [] {
      at := KeyIndex(stored, book.title, book.author).value;
      r := SaveMatched(store, book, matches[0], at);
    } else {
      at := |store.books|;
      r := SaveNew(store, book);
    }
    MergeSpec(stored, old(View(book)));
    assert View(r) == Views(store.books)[at];
  }

  /**
   * `saveBook(book)`: resolve the book's author, then refresh the first
   * stored book with the same title and author, or store the book itself.
   * The stored values change exactly as `Merge` says, with the candidate
   * taken as the book with its resolved author.
   */
  method SaveBook(store: Store, book: Book) returns (r: Book, ghost at: nat)
    requires store.Valid()
    modifies store`authors, store`books, book`author
    modifies store.books`downloadCount, store.books`yearWritten, store.books`genre, store.books`languages
    ensures store.Valid()
    ensures old(book.author) == null ==> book.author == null && store.authors == old(store.authors)
    ensures old(book.author) != null ==>
      && book.author == old(ResolvedAuthor(store.authors, book.author))
      && store.authors == old(ResolvedAuthors(store.authors, book.author))
    ensures Views(store.books) == Merge(old(Views(store.books)), old(View(book)).(author := book.author)).books
    ensures at == Merge(old(Views(store.books)), old(View(book)).(author := book.author)).at
    ensures old(book.author) != null && old(book.author) in old(store.authors) ==>
      book.author == old(book.author) && store.authors == old(store.authors)
    ensures at < |store.books| && r == store.books[at]
    ensures r.author == book.author
    ensures (store.books == old(store.books) && r in old(store.books)) || (store.books == old(store.books) + [book] && r == book)
  {
    ResolveBookAuthor(store, book);
    assert View(book) == old(View(book)).(author := book.author);
    r, at := SaveResolved(store, book);
  }

  /**
   * `translateBookToSpanish(book)`: the title through the title table, the
   * genre through the genre table; the author's name is kept (its
   * translation is the identity).
   */
  method TranslateBookToSpanish(book: Book)
    modifies book`title, book`genre
    ensures book.title == TitleToSpanish(old(book.title))
    ensures book.genre == GenreToSpanish(old(book.genre))
  {
    book.SetTitle(TitleToSpanish(book.title));
    book.SetGenre(GenreToSpanish(book.genre));
  }

  // ---------------------------------------------------------------------------
  // From a catalog record to a stored book
  // ---------------------------------------------------------------------------

  /**
   * `a` is the author a book built from `rec` refers to: none when the
   * record has no author entry, else a stored author with the entry's name.
   */
  ghost predicate AuthorFor(a: Author?, rec: CatalogRecord, authors: seq<Author>)
    reads (if a == null then {} else {a})`name
    requires ReachesAuthorLookup(rec)
  {
    if FirstAuthor(rec).None? then a == null
    else a != null && a in authors && a.name == FirstAuthor(rec).value.name.value
  }

  /**
   * `createBookFromJsonNode(record)`. The fields are read in the source's
   * order; a missing "subjects", "authors", first author "name" or
   * "languages" throws, which gives no book, but an author stored by the
   * lookup before "languages" is read stays stored. Only the first author
   * entry is used; its years are read with the reading that treats a JSON
   * null as unknown.
   */
  method CreateBookFromRecord(store: Store, rec: CatalogRecord) returns (b: Book?, ghost created: Author?)
    requires store.Valid()
    modifies store`authors
    ensures store.Valid()
    ensures AuthorsGrow(old(store.authors), store.authors)
    ensures b != null <==> Complete(rec)
    ensures b != null ==>
      && fresh(b)
      && b.title == rec.title
      && b.downloadCount == rec.downloadCount
      && b.yearWritten == OptionalIntAsWritten(rec.copyright)
      && b.genre == GenreOf(rec.subjects.value)
      && b.searchCount == 0
      && b.languages == LanguagesOf(rec)
      && AuthorFor(b.author, rec, store.authors)
    ensures !(ReachesAuthorLookup(rec) && FirstAuthor(rec).Some?) ==> store.authors == old(store.authors) && created == null
    ensures ReachesAuthorLookup(rec) && FirstAuthor(rec).Some? ==>
      var entry := FirstAuthor(rec).value;
      && (old(AuthorNamed(store.authors, entry.name.value)).Some? ==> store.authors == old(store.authors) && created == null)
      && (old(AuthorNamed(store.authors, entry.name.value)).None? ==>
            && created != null && fresh(created)
            && store.authors == old(store.authors) + [created]
            && created.name == entry.name.value
            && created.birthYear == OptionalInt(entry.birthYear)
            && created.deathYear == OptionalInt(entry.deathYear)
            && created.books == {})
  {
    created := null;
    var book := StartBook(rec);
    if book == null {
      return null, null;
    }
    if rec.authors.None? {
      return null, null;
    }
    if rec.authors.value.Array? && |rec.authors.value.items| > 0 && rec.authors.value.items[0].name.None? {
      return null, null;
    }
    created := AttachAuthor(store, book, rec);
    if rec.languages.None? {
      return null, created;
    }
    if rec.languages.value.Array? {
      ReadLanguages(book, rec.languages.value.items);
    }
    return book, created;
  }

  /** Lines 142-150: the first author entry, if any, resolved through `findOrCreateAuthor` and set on the book. */
  method AttachAuthor(store: Store, book: Book, rec: CatalogRecord) returns (ghost created: Author?)
    requires store.Valid() && ReachesAuthorLookup(rec) && book.author == null
    modifies store`authors, book`author
    ensures store.Valid()
    ensures AuthorsGrow(old(store.authors), store.authors)
    ensures AuthorFor(book.author, rec, store.authors)
    ensures FirstAuthor(rec).None? ==> store.authors == old(store.authors) && created == null
    ensures FirstAuthor(rec).Some? ==>
      var entry := FirstAuthor(rec).value;
      && (old(AuthorNamed(store.authors, entry.name.value)).Some? ==> store.authors == old(store.authors) && created == null)
      && (old(AuthorNamed(store.authors, entry.name.value)).None? ==>
            && created != null && fresh(created)
            && store.authors == old(store.authors) + [created]
            && created.name == entry.name.value
            && created.birthYear == OptionalInt(entry.birthYear)
            && created.deathYear == OptionalInt(entry.deathYear)
            && created.books == {})
  {
    created := null;
    if rec.authors.value.Array? && |rec.authors.value.items| > 0 {
      var resolved;
      resolved, created := AuthorFromEntry(store, rec.authors.value.items[0]);
      book.SetAuthor(resolved);
    }
  }

  /** Lines 134-139: a new book with the record's title, download count, year and genre, and no searches. */
  method StartBook(rec: CatalogRecord) returns (book: Book?)
    ensures book != null <==> rec.subjects.Some?
    ensures book != null ==>
      && fresh(book)
      && book.title == rec.title
      && book.downloadCount == rec.downloadCount
      && book.yearWritten == OptionalIntAsWritten(rec.copyright)
      && book.genre == GenreOf(rec.subjects.value)
      && book.searchCount == 0
      && book.author == null
      && book.languages == []
  {
    book := new Book();
    book.SetTitle(rec.title);
    book.SetDownloadCount(rec.downloadCount);
    book.SetYearWritten(OptionalIntAsWritten(rec.copyright));
    if rec.subjects.None? {
      return null;
    }
    var genre := DetermineGenre(rec.subjects.value);
    book.SetGenre(genre);
    book.SetSearchCount(0);
  }

  /**
   * Lines 144-149: a new author from the first entry, with its name and
   * years, passed to `findOrCreateAuthor`.
   */
  method AuthorFromEntry(store: Store, entry: AuthorEntry) returns (resolved: Author, ghost created: Author?)
    requires store.Valid() && entry.name.Some?
    modifies store`authors
    ensures store.Valid()
    ensures AuthorNamed(store.authors, entry.name.value) == Some(resolved)
    ensures old(AuthorNamed(store.authors, entry.name.value)).Some? ==>
      store.authors == old(store.authors) && created == null && resolved == old(AuthorNamed(store.authors, entry.name.value)).value
    ensures old(AuthorNamed(store.authors, entry.name.value)).None? ==>
      && created != null && fresh(created) && resolved == created
      && store.authors == old(store.authors) + [created]
      && created.name == entry.name.value
      && created.birthYear == OptionalInt(entry.birthYear)
      && created.deathYear == OptionalInt(entry.deathYear)
      && created.books == {}
  {
    created := null;
    var author := NewAuthor(entry);
    ghost var found := AuthorNamed(store.authors, author.name);
    FindOrCreateAuthorSpec(store.authors, author);
    resolved := FindOrCreateAuthor(store, author);
    if found.None? {
      created := author;
    }
    AuthorNamedUnique(store.authors, entry.name.value, resolved);
  }

  /**
   * Lines 144-148: a fresh author carrying the entry's name and years, and no
   * books. The years are read as `OptionalInt`, the intended reading of lines
   * 147-148; the code as written is `OptionalIntAsWritten`.
   */
  method NewAuthor(entry: AuthorEntry) returns (a: Author)
    requires entry.name.Some?
    ensures fresh(a)
    ensures a.name == entry.name.value && a.books == {}
    ensures a.birthYear == OptionalInt(entry.birthYear) && a.deathYear == OptionalInt(entry.deathYear)
  {
    a := new Author();
    a.SetName(entry.name.value);
    a.SetBirthYear(OptionalInt(entry.birthYear));
    a.SetDeathYear(OptionalInt(entry.deathYear));
  }

  /** Lines 154-159: the language list replaced by a new one holding each element's text, in order. */
  method ReadLanguages(book: Book, items: seq<string>)
    modifies book`languages
    ensures book.languages == items
  {
    book.SetLanguages([]);
    var i := 0;
    while i < |items|
      invariant 0 <= i <= |items|
      invariant book.languages == items[..i]
    {
      book.SetLanguages(book.languages + [items[i]]);
      i := i + 1;
    }
  }

  /** The values a complete record's book is saved with, for the author `a` it refers to. */
  function RecordView(rec: CatalogRecord, a: Author?): BookView
    requires Complete(rec)
  {
    BookView(TitleToSpanish(rec.title), a, rec.downloadCount, OptionalIntAsWritten(rec.copyright),
             GenreToSpanish(GenreOf(rec.subjects.value)), 0, LanguagesOf(rec))
  }

  /** The authors only grow: `before` is a prefix of `after`. */
  ghost predicate AuthorsGrow(before: seq<Author>, after: seq<Author>)
  {
    |before| <= |after| && after[..|before|] == before
  }

  lemma AuthorsGrowTrans(a: seq<Author>, b: seq<Author>, c: seq<Author>)
    requires AuthorsGrow(a, b) && AuthorsGrow(b, c)
    ensures AuthorsGrow(a, c)
  {
    assert c[..|a|] == c[..|b|][..|a|];
  }

  lemma PrefixTrans<T>(a: seq<T>, b: seq<T>, c: seq<T>)
    requires a <= b && (c == b || exists x :: c == b + [x])
    ensures a <= c
  {
    if c != b {
      var x :| c == b + [x];
      assert c[..|b|] == b;
    }
  }

  /**
   * After a save of a book built from the complete record `rec`, from the
   * stored books `before` with values `stored`: the author is the one the
   * record names, the stored values change as `Merge` of the record's
   * values says, and `r` is the merged book.
   */
  ghost predicate Saved(store: Store, rec: CatalogRecord, r: Book, before: seq<Book>, stored: seq<BookView>)
    reads store, store.authors, store.books, r, r.author
    requires Complete(rec)
  {
    && AuthorFor(r.author, rec, store.authors)
    && ((store.books == before && r in before) || store.books == before + [r])
    && Views(store.books) == Merge(stored, RecordView(rec, r.author)).books
    && r == store.books[Merge(stored, RecordView(rec, r.author)).at]
  }

  /**
   * What building, translating and saving one record does to the store: no
   * book from an incomplete record, and the stored books unchanged;
   * otherwise the book is a stored or a new one and the save went as
   * `Saved` says. The authors only grow.
   */
  twostate predicate Ingested(store: Store, rec: CatalogRecord, new r: Book?)
    reads store, store.authors, store.books, r, if r == null then {} else {r.author}
  {
    && (r != null <==> Complete(rec))
    && AuthorsGrow(old(store.authors), store.authors)
    && (r == null ==> store.books == old(store.books) && Views(store.books) == old(Views(store.books)))
    && (r != null ==>
          && (store.books != old(store.books) ==> fresh(r))
          && Saved(store, rec, r, old(store.books), old(Views(store.books))))
  }

  /** Line 78 / 117: a book built from `rec`, once translated, carries the values `RecordView` names. */
  method TranslateBuilt(store: Store, book: Book, ghost rec: CatalogRecord)
    requires Complete(rec) && book !in store.books
    requires book.title == rec.title && book.downloadCount == rec.downloadCount
    requires book.yearWritten == OptionalIntAsWritten(rec.copyright) && book.genre == GenreOf(rec.subjects.value)
    requires book.searchCount == 0 && book.languages == LanguagesOf(rec)
    modifies book`title, book`genre
    ensures View(book) == RecordView(rec, book.author)
    ensures Views(store.books) == old(Views(store.books))
  {
    TranslateBookToSpanish(book);
  }

  /** Line 79 / 118: `saveBook` of a translated book that carries the record's values and its stored author. */
  method SaveRecordBook(store: Store, book: Book, ghost rec: CatalogRecord) returns (r: Book)
    requires store.Valid() && Complete(rec) && book !in store.books
    requires View(book) == RecordView(rec, book.author)
    requires AuthorFor(book.author, rec, store.authors)
    modifies book`author, store`authors, store`books
    modifies store.books`downloadCount, store.books`yearWritten, store.books`genre, store.books`languages
    ensures store.Valid()
    ensures store.authors == old(store.authors)
    ensures r.author == old(book.author)
    ensures store.books != old(store.books) ==> r == book
    ensures Saved(store, rec, r, old(store.books), old(Views(store.books)))
  {
    ghost var at;
    r, at := SaveBook(store, book);
  }

  /** Lines 77-79 and 116-118: build a book from the record, translate it, save it. */
  method IngestRecord(store: Store, rec: CatalogRecord) returns (r: Book?)
    requires store.Valid()
    modifies store`authors, store`books
    modifies store.books`downloadCount, store.books`yearWritten, store.books`genre, store.books`languages
    ensures store.Valid()
    ensures Ingested(store, rec, r)
  {
    ghost var stored := Views(store.books);
    var book, created := CreateBookFromRecord(store, rec);
    assert Views(store.books) == stored;
    if book == null {
      return null;
    }
    TranslateBuilt(store, book, rec);
    r := SaveRecordBook(store, book, rec);
  }

  // ---------------------------------------------------------------------------
  // searchBookByTitle
  // ---------------------------------------------------------------------------

  /** The query text of a title search: the lower-cased title, translated to English. */
  function SearchText(title: string): (q: string)
    ensures q == TitleToEnglish(Lower(title))
  {
    TitleToEnglish(Lower(title))
  }

  /** A result is a hit when its lower-cased title contains the lower-cased query text. */
  predicate TitleHit(rec: CatalogRecord, q: string)
  {
    Contains(Lower(rec.title), Lower(q))
  }

  /** Position of the first hit among the results. */
  function FirstHit(records: seq<CatalogRecord>, q: string): (r: Option<nat>)
    ensures r.Some? ==> r.value < |records| && TitleHit(records[r.value], q)
    ensures r.Some? ==> forall j :: 0 <= j < r.value ==> !TitleHit(records[j], q)
    ensures r.None? ==> forall j :: 0 <= j < |records| ==> !TitleHit(records[j], q)
  {
    if records == [] then None
    else if TitleHit(records[0], q) then Some(0)
    else
      match FirstHit(records[1..], q)
      case Some(i) => Some(i + 1)
      case None => None
  }

  /** The result a title search builds its book from: the first hit of an array response, if any. */
  function SearchPick(resp: Response, q: string): (r: Option<CatalogRecord>)
    ensures r.Some? ==>
      && resp.Some? && resp.value.Array? && FirstHit(resp.value.items, q).Some?
      && r.value == resp.value.items[FirstHit(resp.value.items, q).value]
    ensures r.None? ==> resp.None? || resp.value.NotArray? || FirstHit(resp.value.items, q).None?
  {
    match resp
    case Some(Array(items)) =>
      (match FirstHit(items, q)
       case Some(i) => Some(items[i])
       case None => None)
    case _ => None
  }

  /** Lines 73-76: the loop over the results, stopping at the first hit. */
  method FindHit(records: seq<CatalogRecord>, q: string) returns (hit: Option<nat>)
    ensures hit == FirstHit(records, q)
  {
    var i := 0;
    while i < |records|
      invariant 0 <= i <= |records|
      invariant forall j :: 0 <= j < i ==> !TitleHit(records[j], q)
    {
      if Contains(Lower(records[i].title), Lower(q)) {
        return Some(i);
      }
      i := i + 1;
    }
    return None;
  }

  /**
   * `searchBookByTitle(title)`. The catalog's answer to the search is
   * `fetch(Search(q))`, with `None` for a failed request or a response
   * without "results". The first hit is built, translated and saved; later
   * results are ignored. Without a hit the result is null and the store is
   * left as it was.
   */
  method SearchBookByTitle(store: Store, title: string, fetch: Query -> Response) returns (r: Book?)
    requires store.Valid()
    modifies store`authors, store`books
    modifies store.books`downloadCount, store.books`yearWritten, store.books`genre, store.books`languages
    ensures store.Valid()
    ensures SearchPick(fetch(Search(SearchText(title))), SearchText(title)).None? ==>
      && r == null
      && store.authors == old(store.authors)
      && store.books == old(store.books)
      && Views(store.books) == old(Views(store.books))
    ensures SearchPick(fetch(Search(SearchText(title))), SearchText(title)).Some? ==>
      Ingested(store, SearchPick(fetch(Search(SearchText(title))), SearchText(title)).value, r)
  {
    var q := SearchText(title);
    var resp := fetch(Search(q));
    if resp.None? {
      return null;
    }
    if resp.value.Array? && |resp.value.items| > 0 {
      var hit := FindHit(resp.value.items, q);
      if hit.Some? {
        r := IngestRecord(store, resp.value.items[hit.value]);
        return;
      }
    }
    return null;
  }

  // ---------------------------------------------------------------------------
  // incrementSearchCount, and its use after a title search
  // ---------------------------------------------------------------------------

  /**
   * `incrementSearchCount(book)`: the counter goes up by one, as a `long`,
   * and the book is saved again; no other field and no other stored book
   * changes.
   */
  method IncrementSearchCount(store: Store, book: Book)
    requires store.Valid() && (book.author == null || book.author in store.authors)
    modifies book`searchCount, store`books
    ensures store.Valid()
    ensures book.searchCount == IncLong(old(book.searchCount))
    ensures store.authors == old(store.authors)
    ensures book in old(store.books) ==> store.books == old(store.books)
    ensures book !in old(store.books) ==> store.books == old(store.books) + [book]
    ensures forall i :: 0 <= i < |old(store.books)| && old(store.books)[i] == book ==>
      Views(store.books) == Counted(old(Views(store.books)), i)
    ensures book !in old(store.books) ==> Views(store.books) == old(Views(store.books)) + [View(book)]
  {
    ghost var stored := Views(store.books);
    ghost var before := store.books;
    book.SetSearchCount(IncLong(book.searchCount));
    var _ := store.SaveBook(book);
    if book in before {
      ghost var i := FirstIndex(before, book);
      forall j | 0 <= j < |before|
        ensures View(store.books[j]) == Counted(stored, i)[j]
      {
        if j != i {
          assert before[j] != book;
        }
      }
      assert Views(store.books) == Counted(stored, i);
    } else {
      ViewsAppend(before, book);
    }
  }

  /**
   * A successful title search followed by `incrementSearchCount` on the
   * book it returns (LiterAluraApplication.java, line 80): the stored
   * values are those of saving the hit and counting one search of it.
   */
  method SearchAndCount(store: Store, title: string, fetch: Query -> Response) returns (r: Book?)
    requires store.Valid()
    modifies store`authors, store`books
    modifies store.books`downloadCount, store.books`yearWritten, store.books`genre, store.books`languages
    modifies store.books`searchCount
    ensures store.Valid()
    ensures SearchPick(fetch(Search(SearchText(title))), SearchText(title)).None? ==>
      r == null && store.books == old(store.books) && Views(store.books) == old(Views(store.books))
    ensures SearchPick(fetch(Search(SearchText(title))), SearchText(title)).Some? && r != null ==>
      var rec := SearchPick(fetch(Search(SearchText(title))), SearchText(title)).value;
      && Complete(rec)
      && r in store.books
      && Views(store.books) == SaveAndCount(old(Views(store.books)), RecordView(rec, r.author))
  {
    ghost var stored := Views(store.books);
    r := SearchBookByTitle(store, title, fetch);
    if r != null {
      ghost var rec := SearchPick(fetch(Search(SearchText(title))), SearchText(title)).value;
      CountSaved(store, r, stored, RecordView(rec, r.author));
    }
  }

  /** `incrementSearchCount` on the book a save returned: the save's values, counted once more. */
  method CountSaved(store: Store, r: Book, ghost stored: seq<BookView>, ghost cand: BookView)
    requires store.Valid()
    requires Views(store.books) == Merge(stored, cand).books && r == store.books[Merge(stored, cand).at]
    modifies r`searchCount, store`books
    ensures store.Valid()
    ensures store.books == old(store.books) && r.author == old(r.author)
    ensures Views(store.books) == SaveAndCount(stored, cand)
  {
    ghost var at := Merge(stored, cand).at;
    IncrementSearchCount(store, r);
  }

  // ---------------------------------------------------------------------------
  // getBooksByGenre and getBookTitlesByGenre
  // ---------------------------------------------------------------------------

  /** The authors of the books, in order. */
  function AuthorsOf(bs: seq<Book>): (r: seq<Author?>)
    reads bs
    ensures |r| == |bs|
    ensures forall k :: 0 <= k < |bs| ==> r[k] == bs[k].author
  {
    if bs == [] then [] else [bs[0].author] + AuthorsOf(bs[1..])
  }

  /** The titles of the books, in order. */
  function TitlesOf(bs: seq<Book>): (r: seq<string>)
    reads bs
    ensures |r| == |bs|
    ensures forall k :: 0 <= k < |bs| ==> r[k] == bs[k].title
  {
    if bs == [] then [] else [bs[0].title] + TitlesOf(bs[1..])
  }

  /** The values each complete record is saved with, given the authors its books refer to. */
  function RecordViews(items: seq<CatalogRecord>, authors: seq<Author?>): (r: seq<BookView>)
    requires |items| == |authors| && forall k :: 0 <= k < |items| ==> Complete(items[k])
    ensures |r| == |items|
    ensures forall k :: 0 <= k < |items| ==> r[k] == RecordView(items[k], authors[k])
  {
    seq(|items|, k requires 0 <= k < |items| => RecordView(items[k], authors[k]))
  }

  /** The Spanish titles the books of complete records are saved under, in result order. */
  function SpanishTitles(items: seq<CatalogRecord>): (r: seq<string>)
    ensures |r| == |items|
    ensures forall k :: 0 <= k < |items| ==> r[k] == TitleToSpanish(items[k].title)
  {
    seq(|items|, k requires 0 <= k < |items| => TitleToSpanish(items[k].title))
  }

  /** Every result of the response is a complete record. */
  predicate AllComplete(items: seq<CatalogRecord>)
  {
    forall k :: 0 <= k < |items| ==> Complete(items[k])
  }

  /**
   * A returned book for record `rec`, against the stored books `bs` and
   * authors `authors`: it is stored, under the record's title in Spanish,
   * with the author the record names.
   */
  ghost predicate KeyedIn(bs: seq<Book>, authors: seq<Author>, b: Book, rec: CatalogRecord)
    reads b`title, b`author, (if b.author == null then {} else {b.author})`name
    requires Complete(rec)
  {
    && b in bs
    && b.title == TitleToSpanish(rec.title)
    && AuthorFor(b.author, rec, authors)
  }

  /** A returned book for record `rec`, against the store's books and authors. */
  ghost predicate Keyed(store: Store, b: Book, rec: CatalogRecord)
    reads store`books, store`authors, b`title, b`author, (if b.author == null then {} else {b.author})`name
    requires Complete(rec)
  {
    KeyedIn(store.books, store.authors, b, rec)
  }

  /**
   * `getBooksByGenre(genre)`. The catalog is asked for the genre's English
   * name. Every result is built, translated and saved in order, and the
   * saved books are returned in result order. A failed request gives the
   * empty list and no change. A result that cannot be turned into a book
   * aborts with the empty list; the books saved before it stay saved.
   */
  method GetBooksByGenre(store: Store, genre: string, fetch: Query -> Response) returns (books: seq<Book>)
    requires store.Valid()
    modifies store`authors, store`books
    modifies store.books`downloadCount, store.books`yearWritten, store.books`genre, store.books`languages
    ensures store.Valid()
    ensures AuthorsGrow(old(store.authors), store.authors)
    ensures old(store.books) <= store.books
    ensures var resp := fetch(Topic(GenreToEnglish(genre)));
      !(resp.Some? && resp.value.Array?) ==>
        && books == []
        && store.authors == old(store.authors)
        && store.books == old(store.books)
        && Views(store.books) == old(Views(store.books))
    ensures var resp := fetch(Topic(GenreToEnglish(genre)));
      resp.Some? && resp.value.Array? && !AllComplete(resp.value.items) ==> books == []
    ensures var resp := fetch(Topic(GenreToEnglish(genre)));
      resp.Some? && resp.value.Array? && AllComplete(resp.value.items) ==>
        var items := resp.value.items;
        && |books| == |items|
        && Views(store.books) == MergeAll(old(Views(store.books)), RecordViews(items, AuthorsOf(books)))
        && forall k :: 0 <= k < |items| ==> Keyed(store, books[k], items[k])
  {
    var q := TranslateToEnglish(genre);
    var resp := fetch(Topic(q));
    if resp.None? || resp.value.NotArray? {
      return [];
    }
    books := IngestAll(store, resp.value.items);
  }

  /** The store's authors and books only grew from `authors0` and `books0`. */
  ghost predicate Grown(store: Store, books0: seq<Book>, authors0: seq<Author>)
    reads store
  {
    AuthorsGrow(authors0, store.authors) && books0 <= store.books
  }

  /**
   * The first `|books|` results are complete, `authors` lists the books'
   * authors, and each book is keyed for its result against the stored
   * books `bs` and authors `stored`.
   */
  ghost predicate KeyedAll(bs: seq<Book>, stored: seq<Author>, items: seq<CatalogRecord>, books: seq<Book>, authors: seq<Author?>)
    reads books`title, books`author, authors`name
  {
    && |books| == |authors| <= |items|
    && AllComplete(items[..|books|])
    && forall k :: 0 <= k < |books| ==>
         books[k].author == authors[k] && Complete(items[k]) && KeyedIn(bs, stored, books[k], items[k])
  }

  /** The values `vs` are the fold of `Merge` over the first `|authors|` results' values, from `stored`. */
  ghost predicate Folded(vs: seq<BookView>, items: seq<CatalogRecord>, authors: seq<Author?>, stored: seq<BookView>)
  {
    |authors| <= |items| && AllComplete(items[..|authors|])
    && vs == MergeAll(stored, RecordViews(items[..|authors|], authors))
  }

  /**
   * The state after the first `|books|` results were ingested, from a store
   * whose books and authors were `books0` and `authors0` and whose book
   * values were `stored`.
   */
  ghost predicate Gathered(store: Store, items: seq<CatalogRecord>, books: seq<Book>, authors: seq<Author?>,
                           stored: seq<BookView>, books0: seq<Book>, authors0: seq<Author>)
    reads store, store.books, books`title, books`author, authors`name
  {
    && Grown(store, books0, authors0)
    && KeyedAll(store.books, store.authors, items, books, authors)
    && Folded(Views(store.books), items, authors, stored)
  }

  /**
   * Lines 113-124: every result is built, translated and saved in order, and
   * the saved books are returned in result order; a result that gives no
   * book ends the loop with the empty list.
   */
  method IngestAll(store: Store, items: seq<CatalogRecord>) returns (books: seq<Book>)
    requires store.Valid()
    modifies store`authors, store`books
    modifies store.books`downloadCount, store.books`yearWritten, store.books`genre, store.books`languages
    ensures store.Valid()
    ensures AuthorsGrow(old(store.authors), store.authors)
    ensures old(store.books) <= store.books
    ensures !AllComplete(items) ==> books == []
    ensures AllComplete(items) ==>
      && |books| == |items|
      && Views(store.books) == MergeAll(old(Views(store.books)), RecordViews(items, AuthorsOf(books)))
      && forall k :: 0 <= k < |items| ==> Keyed(store, books[k], items[k])
  {
    ghost var stored := Views(store.books);
    ghost var authors: seq<Author?> := [];
    books := [];
    GatheredNone(store, items);
    var i := 0;
    while i < |items|
      invariant 0 <= i <= |items| && |books| == i
      invariant store.Valid() && Gathered(store, items, books, authors, stored, old(store.books), old(store.authors))
      invariant forall k :: 0 <= k < |store.books| ==> store.books[k] in old(store.books) || fresh(store.books[k])
    {
      var b;
      ghost var a;
      ghost var prev := store.books;
      b, a := IngestNext(store, items, books, authors, stored, old(store.books), old(store.authors));
      forall k | 0 <= k < |store.books|
        ensures store.books[k] in old(store.books) || fresh(store.books[k])
      {
        if k < |prev| {
          assert store.books[k] == prev[k];
        }
      }
      if b == null {
        return [];
      }
      books := books + [b];
      authors := authors + [a];
      i := i + 1;
    }
    GatheredAll(store, items, books, authors, stored, old(store.books), old(store.authors));
  }

  /** Before the first result, nothing is gathered. */
  lemma GatheredNone(store: Store, items: seq<CatalogRecord>)
    ensures Gathered(store, items, [], [], Views(store.books), store.books, store.authors)
  {
    assert items[..0] == [];
  }

  /** Once every result is gathered, the results are complete and the fold covers them all. */
  lemma GatheredAll(store: Store, items: seq<CatalogRecord>, books: seq<Book>, authors: seq<Author?>,
                    stored: seq<BookView>, books0: seq<Book>, authors0: seq<Author>)
    requires Gathered(store, items, books, authors, stored, books0, authors0) && |books| == |items|
    ensures AllComplete(items) && AuthorsOf(books) == authors
    ensures Views(store.books) == MergeAll(stored, RecordViews(items, authors))
    ensures forall k :: 0 <= k < |items| ==> Keyed(store, books[k], items[k])
  {
    assert items[..|books|] == items;
  }

  /**
   * Lines 116-119 for the next result: ingest it. When it gives a book, the
   * gathered state extends by that book; when it does not, the result is
   * incomplete and the store has only grown.
   */
  method IngestNext(store: Store, items: seq<CatalogRecord>, books: seq<Book>, ghost authors: seq<Author?>,
                    ghost stored: seq<BookView>, ghost books0: seq<Book>, ghost authors0: seq<Author>)
    returns (b: Book?, ghost a: Author?)
    requires store.Valid() && Gathered(store, items, books, authors, stored, books0, authors0) && |books| < |items|
    modifies store`authors, store`books
    modifies store.books`downloadCount, store.books`yearWritten, store.books`genre, store.books`languages
    ensures store.Valid()
    ensures store.books == old(store.books) || (b != null && fresh(b) && store.books == old(store.books) + [b])
    ensures b == null ==> !Complete(items[|books|]) && Grown(store, books0, authors0)
    ensures b != null ==> a == b.author && Gathered(store, items, books + [b], authors + [a], stored, books0, authors0)
  {
    ghost var books1, authors1, vs1 := store.books, store.authors, Views(store.books);
    b := IngestKeeping(store, items[|books|], books1, authors1, items, books, authors);
    AuthorsGrowTrans(authors0, authors1, store.authors);
    a := null;
    if b == null {
      return;
    }
    a := b.author;
    GatheredStep(store, items, books, authors, stored, books0, authors0, b, books1, authors1, vs1);
  }

  /**
   * `IngestRecord`, which leaves alone the titles and authors of the books
   * and the names of the authors: books keyed against `bs` and `stored`
   * before stay keyed against them.
   */
  method IngestKeeping(store: Store, rec: CatalogRecord, ghost bs: seq<Book>, ghost stored: seq<Author>,
                       ghost items: seq<CatalogRecord>, ghost books: seq<Book>, ghost authors: seq<Author?>)
    returns (r: Book?)
    requires store.Valid() && KeyedAll(bs, stored, items, books, authors)
    modifies store`authors, store`books
    modifies store.books`downloadCount, store.books`yearWritten, store.books`genre, store.books`languages
    ensures store.Valid()
    ensures Ingested(store, rec, r)
    ensures KeyedAll(bs, stored, items, books, authors)
  {
    r := IngestRecord(store, rec);
  }

  /**
   * Saving the next result's book into a gathered state whose books,
   * authors and book values were `books1`, `authors1` and `vs1` gives the
   * gathered state extended by that book.
   */
  lemma GatheredStep(store: Store, items: seq<CatalogRecord>, books: seq<Book>, authors: seq<Author?>,
                     stored: seq<BookView>, books0: seq<Book>, authors0: seq<Author>,
                     b: Book, books1: seq<Book>, authors1: seq<Author>, vs1: seq<BookView>)
    requires |books| < |items| && Complete(items[|books|])
    requires AuthorsGrow(authors0, authors1) && books0 <= books1
    requires KeyedAll(books1, authors1, items, books, authors) && Folded(vs1, items, authors, stored)
    requires AuthorsGrow(authors1, store.authors)
    requires Saved(store, items[|books|], b, books1, vs1)
    ensures Gathered(store, items, books + [b], authors + [b.author], stored, books0, authors0)
  {
    var i := |books|;
    AuthorsGrowTrans(authors0, authors1, store.authors);
    if store.books != books1 {
      assert store.books == books1 + [b];
    }
    PrefixTrans(books0, books1, store.books);
    SavedKeyed(store, items[i], b, books1, vs1);
    KeyedAllStep(store.books, store.authors, books1, authors1, items, books, authors, b);
    RecordViewsStep(stored, items, i, authors, b.author);
  }

  /** The book a save of a complete record leaves is keyed for that record. */
  lemma SavedKeyed(store: Store, rec: CatalogRecord, b: Book, before: seq<Book>, vs: seq<BookView>)
    requires Complete(rec) && Saved(store, rec, b, before, vs)
    ensures Keyed(store, b, rec)
  {
    MergeSpec(vs, RecordView(rec, b.author));
    var at := Merge(vs, RecordView(rec, b.author)).at;
    assert View(b) == Views(store.books)[at];
  }

  /** The returned books stay keyed as the store grows, and the next book joins them. */
  lemma KeyedAllStep(bs: seq<Book>, stored: seq<Author>, bs1: seq<Book>, stored1: seq<Author>,
                     items: seq<CatalogRecord>, books: seq<Book>, authors: seq<Author?>, b: Book)
    requires KeyedAll(bs1, stored1, items, books, authors) && |books| < |items| && Complete(items[|books|])
    requires bs1 <= bs && AuthorsGrow(stored1, stored)
    requires KeyedIn(bs, stored, b, items[|books|])
    ensures KeyedAll(bs, stored, items, books + [b], authors + [b.author])
  {
    var i := |books|;
    var us, vs := books + [b], authors + [b.author];
    forall k | 0 <= k < i + 1
      ensures us[k].author == vs[k] && Complete(items[k]) && KeyedIn(bs, stored, us[k], items[k])
    {
      if k < i {
        assert us[k] == books[k] && vs[k] == authors[k];
        KeyedInGrow(bs1, stored1, bs, stored, books[k], items[k]);
      }
    }
    assert AllComplete(items[..i + 1]) by {
      assert forall k :: 0 <= k < i ==> items[..i + 1][k] == items[..i][k];
    }
  }

  /** A keyed book stays keyed while the stored books and authors only grow. */
  lemma KeyedInGrow(bs1: seq<Book>, stored1: seq<Author>, bs: seq<Book>, stored: seq<Author>, b: Book, rec: CatalogRecord)
    requires Complete(rec) && KeyedIn(bs1, stored1, b, rec)
    requires bs1 <= bs && AuthorsGrow(stored1, stored)
    ensures KeyedIn(bs, stored, b, rec)
  {
    if b.author != null && FirstAuthor(rec).Some? {
      var j :| 0 <= j < |stored1| && stored1[j] == b.author;
      assert stored[j] == b.author;
    }
    var j :| 0 <= j < |bs1| && bs1[j] == b;
    assert bs[j] == b;
  }

  /** One more saved result extends the fold by that result's values. */
  lemma RecordViewsStep(stored: seq<BookView>, items: seq<CatalogRecord>, i: nat, authors: seq<Author?>, a: Author?)
    requires i < |items| && |authors| == i && AllComplete(items[..i]) && Complete(items[i])
    ensures AllComplete(items[..i + 1])
    ensures MergeAll(stored, RecordViews(items[..i + 1], authors + [a])) ==
      Merge(MergeAll(stored, RecordViews(items[..i], authors)), RecordView(items[i], a)).books
  {
    assert items[..i + 1][..i] == items[..i];
    assert forall k :: 0 <= k < i ==> items[..i][k] == items[..i + 1][k];
    var cs := RecordViews(items[..i + 1], authors + [a]);
    assert cs[..i] == RecordViews(items[..i], authors);
    assert items[..i + 1][i] == items[i];
  }

  /**
   * `getBookTitlesByGenre(genre)`: the titles of the books `getBooksByGenre`
   * returns, duplicates removed, first occurrences kept in order.
   */
  method GetBookTitlesByGenre(store: Store, genre: string, fetch: Query -> Response) returns (titles: seq<string>)
    requires store.Valid()
    modifies store`authors, store`books
    modifies store.books`downloadCount, store.books`yearWritten, store.books`genre, store.books`languages
    ensures store.Valid()
    ensures var resp := fetch(Topic(GenreToEnglish(genre)));
      !(resp.Some? && resp.value.Array? && AllComplete(resp.value.items)) ==> titles == []
    ensures var resp := fetch(Topic(GenreToEnglish(genre)));
      resp.Some? && resp.value.Array? && AllComplete(resp.value.items) ==>
        titles == Distinct(SpanishTitles(resp.value.items))
  {
    var books := GetBooksByGenre(store, genre, fetch);
    titles := Distinct(TitlesOf(books));
    ghost var resp := fetch(Topic(GenreToEnglish(genre)));
    if resp.Some? && resp.value.Array? && AllComplete(resp.value.items) {
      KeyedTitles(store, resp.value.items, books);
    }
  }

  /** Books keyed for the results carry the results' titles in Spanish, in order. */
  lemma KeyedTitles(store: Store, items: seq<CatalogRecord>, books: seq<Book>)
    requires AllComplete(items) && |books| == |items|
    requires forall k :: 0 <= k < |items| ==> Keyed(store, books[k], items[k])
    ensures TitlesOf(books) == SpanishTitles(items)
  {
    forall k | 0 <= k < |items|
      ensures TitlesOf(books)[k] == SpanishTitles(items)[k]
    {
      assert Keyed(store, books[k], items[k]);
    }
  }
}
