# LiterAlura catalog core, in Dafny

LiterAlura is a small Spring application over the Gutendex book catalog. Its
service layer does four things, and this project models each of them:

- It searches the catalog by title or by genre.
- It turns each catalog record into a `Book` with an `Author`, classifying
  the book's genre from its subject tags.
- It translates titles and genres between English and Spanish through two
  fixed tables.
- It reconciles the result with what is already stored. An author is found by
  name or created. A book is found by title and author and refreshed, or
  stored as new.

On top of that sit two author listings (alive in a year, and by book genre),
the title listing by genre, and the search counter.

The model has these parts:

- `lang.dfy` (`Lang`) writes out the Java platform behaviour the code relies
  on:
  - `long` wrap-around and the `int` narrowing of `asInt`;
  - `toLowerCase`, `contains` and `equalsIgnoreCase`;
  - the first-occurrence semantics of `Stream.distinct`.
- `model.dfy` (`Entities`) holds the two entity classes `Author` and `Book`,
  with their setters and link methods, and `BookView`, the value of a book's
  fields at one moment.
- `catalog.dfy` (`Catalog`) gives the shape of a parsed catalog response. A
  JSON field whose absence makes the Java code throw is an `Option`.
- `genre.dfy` (`Genre`) is the subject-tag classifier `determineGenre`.
- `translation.dfy` (`Translation`) holds the two tables and the four lookups
  built on them. Each table is a sequence in the order the JDK's `HashMap`
  iterates these keys.
- `repository.dfy` (`Repository`) is the two repositories as one in-memory
  `Store` holding the persisted authors and books in insertion order. It also
  defines the derived queries `findByName` and `findByTitleAndAuthor`.
- `reconcile.dfy` (`Reconcile`) gives value-level definitions of what
  `findOrCreateAuthor` and `saveBook` do: `ResolvedAuthor`/`ResolvedAuthors`
  and `Merge`. It also proves their properties.
- `book_service.dfy` (`BookService`) holds the service methods, each proved
  to change the store exactly as those definitions say.
- `author_service.dfy` (`AuthorService`) holds the two author listings.

What is given to the model rather than modelled:

- The catalog is a parameter `fetch: Query -> Response`. Its value is the
  answer to a search or topic request, or `None` when the request fails or
  the response has no "results".
- An exception thrown while a record is read ends the operation the way the
  source's `catch` does.
- Entity identity is object identity. The generated ids are not modelled.

The book's year comes from the record's "copyright" field. It is read as
written: an absent field is unknown, and anything present goes through
`asInt`. Gutendex sends a boolean or null there, so the year is 0 or 1.

## Model

| member | source | states |
|---|---|---|
| Lang.IncLong | src/main/java/service/BookService.java:302 | `getSearchCount() + 1` on a `long`: one more below the maximum, the minimum after the maximum |
| Lang.ToInt | src/main/java/service/BookService.java:147-148 | the narrowing to `int` stays in range, keeps in-range values and agrees with the input modulo 2^32 |
| Lang.LowerIdempotent | src/main/java/service/BookService.java:76 | lower-casing twice gives what lower-casing once does, so the second `toLowerCase` of the already lower-cased query changes nothing |
| Lang.LowerKeepsContains | src/main/java/service/BookService.java:76 | a query that occurs literally in a title still occurs once both are lower-cased: the case-insensitive test finds every literal match |
| Lang.EqualsIgnoreCaseEquivalence | src/main/java/service/BookService.java:209 | `equalsIgnoreCase` is reflexive, symmetric and transitive |
| Lang.EqualsIgnoreCaseLower | src/main/java/service/BookService.java:209 | a text equals its lower-cased form ignoring case |
| Lang.ContainsIffOccurs | src/main/java/service/BookService.java:76 | `contains` holds exactly when the text occurs at some position |
| Lang.Distinct | src/main/java/service/AuthorService.java:48 | `distinct` keeps every input element, adds none, and leaves no duplicates |
| Lang.DistinctFirstSeenOrder | src/main/java/service/AuthorService.java:48 | the result of `distinct` lists elements in the order of their first occurrence in the input |
| Lang.DistinctOfDistinct | src/main/java/service/BookService.java:270 | `distinct` on a list without duplicates returns that list unchanged |
| Entities.Author.constructor | src/main/java/model/Author.java:16-23 | a new author has no known years and an empty book set; its name, null in Java, starts as the empty string (see "## Left out") |
| Entities.Author.SetName | src/main/java/model/Author.java:39-41 | sets the name and nothing else |
| Entities.Author.SetBirthYear | src/main/java/model/Author.java:47-49 | sets the birth year and nothing else |
| Entities.Author.SetDeathYear | src/main/java/model/Author.java:55-57 | sets the death year and nothing else |
| Entities.Author.SetBooks | src/main/java/model/Author.java:63-65 | sets the book set and nothing else |
| Entities.Author.AddBook | src/main/java/model/Author.java:69-72 | the book joins the set, its author becomes this one, and the two-way link is kept |
| Entities.Author.RemoveBook | src/main/java/model/Author.java:74-77 | the book leaves the set, its author is cleared, and the two-way link is kept |
| Entities.AddBookTwice | src/main/java/model/Author.java:69-72 | adding a book twice leaves the set as one addition does (a hash set) |
| Entities.Book.constructor | src/main/java/model/Book.java:15-31 | a new book has no author and no year and an empty language list; its title, genre and counters, null in Java, start as "" and 0 (see "## Left out") |
| Entities.Book.SetTitle | src/main/java/model/Book.java:47-49 | sets the title and nothing else |
| Entities.Book.SetAuthor | src/main/java/model/Book.java:55-57 | sets the author and nothing else |
| Entities.Book.SetDownloadCount | src/main/java/model/Book.java:63-65 | sets the download count and nothing else |
| Entities.Book.SetYearWritten | src/main/java/model/Book.java:71-73 | sets the year and nothing else |
| Entities.Book.SetGenre | src/main/java/model/Book.java:79-81 | sets the genre and nothing else |
| Entities.Book.SetSearchCount | src/main/java/model/Book.java:87-89 | sets the search count and nothing else |
| Entities.Book.SetLanguages | src/main/java/model/Book.java:95-97 | sets the language list and nothing else |
| Catalog.AsInt | src/main/java/service/BookService.java:137 | `asInt` gives an `int`: null reads 0, an in-range number reads as itself |
| Catalog.OptionalIntAsWritten | src/main/java/service/BookService.java:137 | `has(f) ? get(f).asInt() : null` is unknown exactly when the field is absent, so a JSON null becomes 0 |
| Catalog.OptionalInt | src/main/java/service/BookService.java:147-148 | the intended reading: unknown exactly when the field is absent or JSON null, otherwise `asInt` of it |
| Catalog.OptionalIntDiffersOnlyOnNull | src/main/java/service/BookService.java:147-148 | the two readings differ exactly on a present JSON null, which the written one turns into 0 |
| Genre.SubjectGenreIsLeastKeyword | src/main/java/service/BookService.java:168-177 | one subject decides keyword k's label exactly when k occurs and no earlier keyword does, and decides nothing exactly when no keyword occurs |
| Genre.ClassifyIsLabel | src/main/java/service/BookService.java:165-181 | the classifier only produces Fiction, Drama, Comedy, Humor or Other |
| Genre.FirstDecidingSubjectWins | src/main/java/service/BookService.java:167-178 | the first subject that decides a label fixes the result, and later subjects are ignored |
| Genre.ClassifyOtherIff | src/main/java/service/BookService.java:180 | the result is Other exactly when no subject decides a label |
| Genre.GenreOfIsLabel | src/main/java/service/BookService.java:165-181 | a "subjects" node that is not an array also gets one of the five labels (Other) |
| Genre.DetermineGenre | src/main/java/service/BookService.java:165-181 | the loop returns the classifier's label, and Other for a node that is not an array |
| Genre.ClassifySkipsToFiction | src/main/java/service/BookService.java:167-171 | a subject without keywords is skipped, and "fiction" wins over "drama" within one subject |
| Genre.ClassifyFarceIsOther | src/main/java/service/BookService.java:180 | subjects without any keyword give Other |
| Translation.FirstWhereSpec | src/main/java/service/BookService.java:93-97 | `filter(...).findFirst()` finds the first accepted entry, and nothing exactly when none is accepted |
| Translation.FirstWhereOnlyMatch | src/main/java/service/BookService.java:93-97 | when one entry alone is accepted, the search finds it whatever the table order |
| Translation.ByValueSubstringSpec | src/main/java/service/BookService.java:92-98 | `translateTitleToEnglish` gives the first entry whose Spanish side occurs in the text, else the text unchanged |
| Translation.ByKeySubstringSpec | src/main/java/service/BookService.java:193-199 | `translateTitleToSpanish` gives the first entry whose English side occurs in the lower-cased title, else the title as given |
| Translation.ByExactKeySpec | src/main/java/service/BookService.java:186 | `getOrDefault(g, g)` gives the entry for exactly `g`, else `g` |
| Translation.ByValueIgnoringCaseSpec | src/main/java/service/BookService.java:207-214 | `translateToEnglish` gives the first entry whose Spanish side equals the genre ignoring case, else the genre |
| Translation.ByValueSubstringOnlyMatch | src/main/java/service/BookService.java:92-98 | when only one Spanish title occurs, the result does not depend on the map's order |
| Translation.ByKeySubstringOnlyMatch | src/main/java/service/BookService.java:193-199 | when only one English title occurs, the result does not depend on the map's order |
| Translation.ByExactKeyDistinctKeys | src/main/java/service/BookService.java:186 | with distinct keys, the exact-key lookup of a key gives its value in any order |
| Translation.TranslateToEnglish | src/main/java/service/BookService.java:207-214 | the loop over the genre table returns what the first-match lookup defines |
| Translation.GenreToEnglishSpec | src/main/java/service/BookService.java:207-214 | a genre equal to a Spanish name ignoring case gives that name's English label, and anything else comes back unchanged |
| Translation.GenreRoundTrip | src/main/java/service/BookService.java:46-50 | every classifier label has a Spanish name, and translating that name back gives the label |
| Translation.GenreToEnglishIgnoresCase | src/main/java/service/BookService.java:209 | "FICCIÓN" is recognised as Fiction |
| Translation.GenreToEnglishUnknown | src/main/java/service/BookService.java:213 | a genre outside the table ("Poesía") is sent as it is |
| Translation.TitleToSpanishExamples | src/main/java/service/BookService.java:193-199 | a listed title is translated whatever its case, and an unlisted one is kept exactly as given |
| Translation.TitleTableRoundTrip | src/main/java/service/BookService.java:52-54 | each listed title and its Spanish title translate into each other |
| Repository.AuthorNamed | src/main/java/service/BookService.java:247 | `findByName` returns a stored author with that name, and nothing only when no stored author has it |
| Repository.AuthorNamedStored | src/main/java/model/Author.java:15-16 | with unique names, looking up a stored author's name finds that very author |
| Repository.AuthorNamedUnique | src/main/java/model/Author.java:15-16 | with unique names, a stored author with the name is found whatever the order |
| Repository.AuthorNamedExtend | src/main/java/service/BookService.java:247 | a name already found is still found, as the same author, after more authors are stored |
| Repository.KeyIndex | src/main/java/service/BookService.java:226-228 | the position of the first stored book with the title and author, and none only when no stored book has them |
| Repository.Matching | src/main/java/service/BookService.java:226 | `findByTitleAndAuthor` returns stored books with exactly that title and author, and all of them |
| Repository.MatchingFirst | src/main/java/service/BookService.java:226-228 | the query finds something exactly when the key occurs, and its first book is the first one stored with that key |
| Repository.Store.SaveAuthor | src/main/java/service/BookService.java:250 | saving an author whose name is not taken appends it and keeps names unique |
| Repository.Store.SaveBook | src/main/java/service/BookService.java:233-235 | the save keeps a stored book where it is, appends a new one, and returns the book |
| Reconcile.FindOrCreateAuthorSpec | src/main/java/service/BookService.java:246-257 | on a name hit the stored author is returned and nothing is added; on a miss exactly the candidate is added and returned; names stay unique either way |
| Reconcile.ResolveStored | src/main/java/service/BookService.java:220-222 | an author already stored resolves to itself and adds nothing |
| Reconcile.ResolveTwice | src/main/java/service/BookService.java:246-257 | two lookups with the same name add at most one author and return the same author |
| Reconcile.Merge | src/main/java/service/BookService.java:226-236 | the position the save returns lies within the new stored list |
| Reconcile.MergeOnHit | src/main/java/service/BookService.java:227-233 | on a key hit only the first match changes; it keeps its title, author and search count and takes the four copied fields |
| Reconcile.MergeOnMiss | src/main/java/service/BookService.java:234-235 | on a miss the candidate is appended as it is |
| Reconcile.MergeSpec | src/main/java/service/BookService.java:226-236 | the returned book has the candidate's key and copied fields, stored keys never change, and at most one book is added, exactly on a miss |
| Reconcile.MergeKeepsUniqueKeys | src/main/java/service/BookService.java:226-236 | saving never creates a second book with the same title and author |
| Reconcile.MergeTwice | src/main/java/service/BookService.java:226-236 | two saves with the same key leave one book for it, carrying the second candidate's fields |
| Reconcile.MergeIdempotent | src/main/java/service/BookService.java:226-236 | saving the same candidate again changes nothing |
| Reconcile.MergeAllSpec | src/main/java/service/BookService.java:115-119 | saving a list adds at most one book per candidate, keeps stored keys, stores every candidate's key, and keeps keys unique |
| Reconcile.Counted | src/main/java/service/BookService.java:301-304 | `incrementSearchCount` raises only that book's counter, as a `long` |
| Reconcile.SaveAndCountMiss | src/main/java/com/desafio/literalura/LiterAluraApplication.java:74-80 | a search whose book is new stores it with its counter raised once |
| Reconcile.SaveAndCountHit | src/main/java/com/desafio/literalura/LiterAluraApplication.java:74-80 | a search whose book is stored refreshes it and raises its own counter |
| Reconcile.SearchedTimesCounts | src/main/java/com/desafio/literalura/LiterAluraApplication.java:74-80 | n searches that find the same new book store it once, with its counter at n |
| BookService.FindOrCreateAuthor | src/main/java/service/BookService.java:246-257 | the result and the new author list are those `ResolvedAuthor`/`ResolvedAuthors` define, and the store invariant is kept |
| BookService.ResolveBookAuthor | src/main/java/service/BookService.java:220-223 | a book with an author gets the resolved author, and a stored author is kept; no book value changes |
| BookService.Refresh | src/main/java/service/BookService.java:228-232 | the match takes the four copied fields, and no other stored book changes |
| BookService.SaveMatched | src/main/java/service/BookService.java:227-233 | on a hit the stored list is the same and the values change as `Merge` says |
| BookService.SaveNew | src/main/java/service/BookService.java:234-235 | on a miss the book is appended and the values change as `Merge` says |
| BookService.SaveResolved | src/main/java/service/BookService.java:226-236 | the stored values change as `Merge` says, and the result is the first match or the book itself, appended |
| BookService.SaveBook | src/main/java/service/BookService.java:218-242 | `saveBook` resolves the author as `ResolvedAuthor` says, then changes the stored values as `Merge` of the book with that author |
| BookService.TranslateBookToSpanish | src/main/java/service/BookService.java:184-190 | the title goes through the title table and the genre through the genre table; nothing else changes |
| BookService.CreateBookFromRecord | src/main/java/service/BookService.java:133-162 | a book exactly for a complete record, with the record's fields; author lookup as `findOrCreateAuthor` does, an author stored before a later throw staying stored |
| BookService.AttachAuthor | src/main/java/service/BookService.java:142-150 | the book's author is the stored author named by the first entry, or none without an entry |
| BookService.StartBook | src/main/java/service/BookService.java:134-139 | the new book has the record's title, download count, year and genre, and a zero search count; no book when "subjects" is missing |
| BookService.AuthorFromEntry | src/main/java/service/BookService.java:144-149 | the stored author with the entry's name is returned, or a new one with the entry's name and its years read as `Catalog.OptionalInt` is stored and returned |
| BookService.NewAuthor | src/main/java/service/BookService.java:145-148 | a fresh author with the entry's name and no books, its years read the intended way (`Catalog.OptionalInt`, see "## Findings") |
| BookService.ReadLanguages | src/main/java/service/BookService.java:154-159 | the language list becomes the array's texts, in order |
| BookService.TranslateBuilt | src/main/java/service/BookService.java:117 | a built book, once translated, carries the record's values in Spanish, and the stored books are unchanged |
| BookService.SaveRecordBook | src/main/java/service/BookService.java:118 | saving a built book changes the store as `Merge` of its values, and returns the stored match or the book itself |
| BookService.IngestRecord | src/main/java/service/BookService.java:116-118 | no book from an incomplete record; otherwise build, translate and save as `Saved` says; authors only grow |
| BookService.FirstHit | src/main/java/service/BookService.java:74-76 | the position of the first result whose lower-cased title contains the query, and nothing only when no result does |
| BookService.SearchPick | src/main/java/service/BookService.java:73-77 | the record a title search builds from is the first hit of an array response |
| BookService.FindHit | src/main/java/service/BookService.java:73-82 | the loop stops at the first hit, as `FirstHit` defines it |
| BookService.SearchBookByTitle | src/main/java/service/BookService.java:60-89 | without a hit the result is null and the store is unchanged; with one, the hit is ingested as `Ingested` says |
| BookService.IncrementSearchCount | src/main/java/service/BookService.java:301-304 | the counter goes up by one as a `long` and the book is saved again; the values change as `Counted` says |
| BookService.SearchAndCount | src/main/java/com/desafio/literalura/LiterAluraApplication.java:74-80 | a successful search followed by the counter update leaves the values `SaveAndCount` defines |
| BookService.CountSaved | src/main/java/service/BookService.java:301-304 | counting the book a save returned gives the save's values with that book counted once more |
| BookService.AuthorsOf | src/main/java/service/AuthorService.java:46 | the books' authors, one per book, in order |
| BookService.TitlesOf | src/main/java/service/BookService.java:269 | the books' titles, one per book, in order |
| BookService.IngestAll | src/main/java/service/BookService.java:113-124 | all complete: one book per result in order, values as `MergeAll` of the results, each book keyed to its result; otherwise the empty list |
| BookService.GetBooksByGenre | src/main/java/service/BookService.java:102-130 | the genre's English name is queried; a failed request gives nothing and no change; otherwise as `IngestAll` states |
| BookService.GetBookTitlesByGenre | src/main/java/service/BookService.java:267-272 | on complete results, the distinct Spanish titles of the results in first-seen order; otherwise the empty list |
| BookService.KeyedTitles | src/main/java/service/BookService.java:268-269 | the returned books carry the results' Spanish titles, in order |
| AuthorService.AuthorsAliveInYear | src/main/java/service/AuthorService.java:34-39 | keeps exactly the stored authors born in or before the year and dead in or after it, a missing year being no bound |
| AuthorService.AliveInYearKeepsOrder | src/main/java/service/AuthorService.java:35-38 | the result is a subsequence of the stored authors, in their order |
| AuthorService.UnknownYearsAlwaysAlive | src/main/java/service/AuthorService.java:36-37 | an author with both years unknown is listed for every year |
| AuthorService.AliveInYearIdempotent | src/main/java/service/AuthorService.java:35-38 | filtering the result again gives the same list |
| AuthorService.NullYearsHideAuthor | src/main/java/service/BookService.java:147-148 | an author whose catalog years are both JSON null is not listed for 1900 under the written reading, and is listed for every year under the intended one |
| AuthorService.NonNullAuthors | src/main/java/service/AuthorService.java:46-47 | every listed author is some book's author, and every non-null book author is listed |
| AuthorService.RecordAuthor | src/main/java/service/BookService.java:144-149 | the stored author named by a record's first author entry, and none when no stored author has that name |
| AuthorService.NamedAuthors | src/main/java/service/BookService.java:142-149 | the stored authors named by the records, each one named by some record, and all of them |
| AuthorService.NamedAuthorsOfBooks | src/main/java/service/AuthorService.java:44-47 | the non-null authors of the books built from complete records are the records' named stored authors |
| AuthorService.KeyedAuthors | src/main/java/service/AuthorService.java:44-47 | for the books `getBooksByGenre` returns on complete results, their non-null authors are the records' named authors |
| AuthorService.GetAuthorsByBookGenre | src/main/java/service/AuthorService.java:43-50 | the distinct non-null authors of the returned books; on complete results, the distinct named authors of the records; otherwise empty |
| AuthorService.BookAuthorsSpec | src/main/java/service/AuthorService.java:45-49 | no duplicates, an author is listed exactly when it is some book's author, and the order is first-seen order |
| AuthorService.GenreAuthorsSpec | src/main/java/service/AuthorService.java:44-49 | on complete results, exactly the stored authors the records name, each once, in first-named order |

## Left out

- HTTP, URL building and JSON parsing are left out. The catalog is a function from query to parsed response, and `None` stands for any failure (an I/O error, a parse error, no "results").
- The full body of an exception is left out. Only its effect is modelled: the operation returns null or the empty list. The stack traces and the console messages on lines 83, 85-86, 122, 126-127, 238-239 and 252-253 are left out.
- `getAllBooks`, `getAllAuthors`, `getMostSearchedBooks` and `getBookCountByLanguage` are single repository or catalog calls without logic of their own and are not modelled. `getMostSearchedBooks` also depends on database paging and ordering.
- Spring transactions are not modelled. This covers rollback and the flush of a "read-only" transaction that calls `getBooksByGenre` (AuthorService.java:42-44). JPA cascades, lazy loading and the generated ids are not modelled either.
- The exception branch of `findOrCreateAuthor` on a failed author save (BookService.java:251-255) is left out: the store's author save does not fail.
- The exception branch of `saveBook` on a failed book save (BookService.java:237-241) is left out for the same reason.
- `translateAuthorNameToSpanish` (BookService.java:202-204) is the identity, so `TranslateBookToSpanish` leaves the author's name alone rather than setting it to itself.
- The controller and the console loops of the application are not modelled. Only the search-then-count sequence of LiterAluraApplication.java:74-80 is, as `BookService.SearchAndCount`.
- Case folding covers ASCII and Latin-1 upper-case letters only. Java's full Unicode `toLowerCase` (locale rules, characters whose lower case has another length) is not modelled.
- Entities.Book.SetLanguages: the language list is a value. The aliasing between a refreshed stored book and the candidate that `setLanguages(book.getLanguages())` creates is not modelled.
- Repository.Matching: results come back in insertion order. The source's derived query promises no order, and `get(0)` takes whatever the database returns first.
- A title and download count are always present in a record (`title: string`, `downloadCount: Long`). A record missing them, on which the source throws, is not modelled.
- Catalog.AsInt: JSON text values (`asInt` of a numeric string) are not modelled; only null, booleans and numbers are.
- BookService.NewAuthor: the years are read the intended way (`Catalog.OptionalInt`), not as written at BookService.java:147-148. A present JSON null year is unknown here, where the source stores 0; for every other entry the two readings agree (`Catalog.OptionalIntDiffersOnlyOnNull`). See "## Findings".
- BookService.AuthorFromEntry: a newly created author's years follow `Catalog.OptionalInt`, the corrected reading of BookService.java:147-148, for the reason given for `NewAuthor`.
- BookService.AttachAuthor: the created author's years follow `Catalog.OptionalInt`, the corrected reading of BookService.java:147-148, for the reason given for `NewAuthor`.
- BookService.CreateBookFromRecord: a newly created author's years follow `Catalog.OptionalInt`, the corrected reading of BookService.java:147-148, for the reason given for `NewAuthor`.
- Entities.Book.constructor: Java's `new Book()` leaves title, genre, downloadCount and searchCount null (Book.java:14, 21-24); the model starts them as "" and 0. createBookFromJsonNode sets all four before any is read (BookService.java:134-139).
- Entities.Author.constructor: Java's `new Author()` leaves the name null (Author.java:16); the model starts it as "". The only creation path, `NewAuthor`, sets it at once (BookService.java:146).
- BookService.GetBooksByGenre: when a result cannot be turned into a book, the contract says only that the empty list comes back and the store's authors and books only grew. It does not say which earlier results were saved.
- BookService.GetBookTitlesByGenre: on a response with an incomplete record it states only the empty result, as above.
- AuthorService.GetAuthorsByBookGenre: on a response with an incomplete record it states only the empty result, as above.
- BookService.SearchAndCount: when the picked record is incomplete, the contract says only that the store invariant holds.

## Findings

| source | as written | input that shows it | evidently intended | confidence | as-written member | corrected member |
|---|---|---|---|---|---|---|
| src/main/java/service/BookService.java:147-148 | `has("birth_year") ? get("birth_year").asInt() : null` turns a present JSON null into year 0 | an author entry with `"birth_year": null, "death_year": null` (Gutendex's form for an unknown year) gives an author born and dead in year 0, not listed by `getAuthorsAliveInYear(1900)` | a JSON null year is unknown (`null`), so the author is listed for every year | medium, not executed | Catalog.OptionalIntAsWritten (AuthorService.NullYearsHideAuthor) | Catalog.OptionalInt |

The service operations that create authors (`NewAuthor`, `AuthorFromEntry`, `AttachAuthor`, `CreateBookFromRecord`) use the corrected reading `Catalog.OptionalInt` for the years. The book's "copyright" year keeps the reading as written.
