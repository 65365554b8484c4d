/**
 * What reconciliation against the store does, as functions of the store's
 * contents: `findOrCreateAuthor` on the list of authors, and the
 * find-or-update step of `saveBook` on the values of the stored books.
 * The methods of BookService are proved to act exactly as these say.
 */
module Reconcile {
  import opened Lang
  import opened Entities
  import opened Repository

  // ---------------------------------------------------------------------------
  // findOrCreateAuthor
  // ---------------------------------------------------------------------------

  /** The author `findOrCreateAuthor(cand)` returns: the stored one with the same name, else the candidate. */
  function ResolvedAuthor(authors: seq<Author>, cand: Author): Author
    reads authors, cand
  {
    match AuthorNamed(authors, cand.name)
    case Some(a) => a
    case None => cand
  }

  /** The authors after `findOrCreateAuthor(cand)`: unchanged on a hit, the candidate appended on a miss. */
  function ResolvedAuthors(authors: seq<Author>, cand: Author): seq<Author>
    reads authors, cand
  {
    if AuthorNamed(authors, cand.name).Some? then authors else authors + [cand]
  }

  /**
   * On a name hit the stored author is returned and the store is left as it
   * is, whatever years the candidate carries; on a miss the store grows by
   * exactly the candidate, which is returned. Either way the result is
   * stored, has the candidate's name, and names stay unique.
   */
  lemma FindOrCreateAuthorSpec(authors: seq<Author>, cand: Author)
    requires UniqueNames(authors)
    ensures ResolvedAuthor(authors, cand) in ResolvedAuthors(authors, cand)
    ensures ResolvedAuthor(authors, cand).name == cand.name
    ensures UniqueNames(ResolvedAuthors(authors, cand))
    ensures (exists i :: 0 <= i < |authors| && authors[i].name == cand.name) ==>
      ResolvedAuthors(authors, cand) == authors && ResolvedAuthor(authors, cand) in authors
    ensures (forall i :: 0 <= i < |authors| ==> authors[i].name != cand.name) ==>
      ResolvedAuthors(authors, cand) == authors + [cand] && ResolvedAuthor(authors, cand) == cand
  {
    var found := AuthorNamed(authors, cand.name);
    if found.None? {
      var after := authors + [cand];
      forall i, j | 0 <= i < j < |after|
        ensures after[i].name != after[j].name
      {
        if j == |authors| {
          assert after[i] == authors[i];
        }
      }
    }
  }

  /** A stored author resolves to itself and leaves the store unchanged. */
  lemma ResolveStored(authors: seq<Author>, a: Author)
    requires UniqueNames(authors) && a in authors
    ensures ResolvedAuthor(authors, a) == a
    ensures ResolvedAuthors(authors, a) == authors
  {
    AuthorNamedUnique(authors, a.name, a);
  }

  /**
   * Two calls with candidates of the same name add at most one author, and
   * the second call returns what the first returned.
   */
  lemma ResolveTwice(authors: seq<Author>, c1: Author, c2: Author)
    requires UniqueNames(authors) && c1.name == c2.name
    ensures ResolvedAuthors(ResolvedAuthors(authors, c1), c2) == ResolvedAuthors(authors, c1)
    ensures ResolvedAuthor(ResolvedAuthors(authors, c1), c2) == ResolvedAuthor(authors, c1)
    ensures |ResolvedAuthors(ResolvedAuthors(authors, c1), c2)| <= |authors| + 1
  {
    FindOrCreateAuthorSpec(authors, c1);
    var after := ResolvedAuthors(authors, c1);
    var r := ResolvedAuthor(authors, c1);
    AuthorNamedUnique(after, c2.name, r);
  }

  // ---------------------------------------------------------------------------
  // The find-or-update step of saveBook
  // ---------------------------------------------------------------------------

  /** The stored books after a save, and the position of the book the save returns. */
  datatype Merged = Merged(books: seq<BookView>, at: nat)

  /** A stored book refreshed from a candidate: the four copied fields, nothing else. */
  function Refreshed(stored: BookView, cand: BookView): BookView
  {
    stored.(downloadCount := cand.downloadCount, yearWritten := cand.yearWritten,
            genre := cand.genre, languages := cand.languages)
  }

  /**
   * `saveBook` after the author is resolved: the first stored book with the
   * candidate's title and author is refreshed from the candidate, or, when
   * there is none, the candidate is appended.
   */
  function Merge(stored: seq<BookView>, cand: BookView): (m: Merged)
    ensures m.at < |m.books|
  {
    match KeyIndex(stored, cand.title, cand.author)
    case Some(i) => Merged(stored[i := Refreshed(stored[i], cand)], i)
    case None => Merged(stored + [cand], |stored|)
  }

  /**
   * On a key hit at `i`: no book is added, only book `i` changes, it keeps
   * its title, author and search count, and it takes the candidate's
   * download count, year, genre and languages.
   */
  lemma MergeOnHit(stored: seq<BookView>, cand: BookView, i: nat)
    requires KeyIndex(stored, cand.title, cand.author) == Some(i)
    ensures Merge(stored, cand).at == i
    ensures |Merge(stored, cand).books| == |stored|
    ensures forall j :: 0 <= j < |stored| && j != i ==> Merge(stored, cand).books[j] == stored[j]
    ensures Merge(stored, cand).books[i].title == stored[i].title
    ensures Merge(stored, cand).books[i].author == stored[i].author
    ensures Merge(stored, cand).books[i].searchCount == stored[i].searchCount
    ensures Merge(stored, cand).books[i].downloadCount == cand.downloadCount
    ensures Merge(stored, cand).books[i].yearWritten == cand.yearWritten
    ensures Merge(stored, cand).books[i].genre == cand.genre
    ensures Merge(stored, cand).books[i].languages == cand.languages
  {
  }

  /** On a miss the candidate is appended as it is and nothing else changes. */
  lemma MergeOnMiss(stored: seq<BookView>, cand: BookView)
    requires KeyIndex(stored, cand.title, cand.author).None?
    ensures Merge(stored, cand).books == stored + [cand]
    ensures Merge(stored, cand).at == |stored|
  {
  }

  /**
   * Whichever way the save goes, the book it returns has the candidate's
   * key and the candidate's four copied fields; no stored key changes, and
   * at most one book is added.
   */
  lemma MergeSpec(stored: seq<BookView>, cand: BookView)
    ensures Merge(stored, cand).at < |Merge(stored, cand).books|
    ensures Refreshed(Merge(stored, cand).books[Merge(stored, cand).at], cand) == Merge(stored, cand).books[Merge(stored, cand).at]
    ensures Merge(stored, cand).books[Merge(stored, cand).at].title == cand.title
    ensures Merge(stored, cand).books[Merge(stored, cand).at].author == cand.author
    ensures |stored| <= |Merge(stored, cand).books| <= |stored| + 1
    ensures forall j :: 0 <= j < |stored| ==>
      Merge(stored, cand).books[j].title == stored[j].title && Merge(stored, cand).books[j].author == stored[j].author
    ensures |Merge(stored, cand).books| == |stored| <==> KeyIndex(stored, cand.title, cand.author).Some?
  {
  }

  /** A save never produces two books with the same title and author. */
  lemma MergeKeepsUniqueKeys(stored: seq<BookView>, cand: BookView)
    requires UniqueKeys(stored)
    ensures UniqueKeys(Merge(stored, cand).books)
  {
    var m := Merge(stored, cand).books;
    forall i, j | 0 <= i < j < |m|
      ensures !(m[i].title == m[j].title && m[i].author == m[j].author)
    {
      if j == |stored| {
        assert m[j] == cand;
        assert m[i] == stored[i];
      } else {
        assert m[i].title == stored[i].title && m[i].author == stored[i].author;
        assert m[j].title == stored[j].title && m[j].author == stored[j].author;
      }
    }
  }

  /**
   * Saving two candidates with the same title and author leaves a single
   * book for that key, at the same place, carrying the second candidate's
   * copied fields.
   */
  lemma MergeTwice(stored: seq<BookView>, c1: BookView, c2: BookView)
    requires c1.title == c2.title && c1.author == c2.author
    ensures Merge(Merge(stored, c1).books, c2).at == Merge(stored, c1).at
    ensures |Merge(Merge(stored, c1).books, c2).books| == |Merge(stored, c1).books|
    ensures Merge(Merge(stored, c1).books, c2).books[Merge(stored, c1).at] ==
      Refreshed(Merge(stored, c1).books[Merge(stored, c1).at], c2)
  {
    var m1 := Merge(stored, c1);
    MergeSpec(stored, c1);
    match KeyIndex(stored, c1.title, c1.author)
    case Some(i) =>
      assert KeyIndex(m1.books, c2.title, c2.author) == Some(i) by {
        forall j | 0 <= j < i
          ensures !(m1.books[j].title == c2.title && m1.books[j].author == c2.author)
        {
          assert m1.books[j] == stored[j];
        }
      }
    case None =>
      assert KeyIndex(m1.books, c2.title, c2.author) == Some(|stored|) by {
        forall j | 0 <= j < |stored|
          ensures !(m1.books[j].title == c2.title && m1.books[j].author == c2.author)
        {
          assert m1.books[j] == stored[j];
        }
      }
  }

  /** Saving the same candidate again changes nothing. */
  lemma MergeIdempotent(stored: seq<BookView>, cand: BookView)
    ensures Merge(Merge(stored, cand).books, cand).books == Merge(stored, cand).books
  {
    MergeTwice(stored, cand, cand);
    var m1 := Merge(stored, cand);
    MergeSpec(stored, cand);
    var m2 := Merge(m1.books, cand);
    forall j | 0 <= j < |m1.books|
      ensures m2.books[j] == m1.books[j]
    {
      if j != m1.at {
        MergeOnHit(m1.books, cand, m1.at);
      }
    }
  }

  // ---------------------------------------------------------------------------
  // getBooksByGenre: one save per result, in order
  // ---------------------------------------------------------------------------

  /** The stored values after saving each candidate in turn. */
  function MergeAll(stored: seq<BookView>, cands: seq<BookView>): seq<BookView>
    decreases |cands|
  {
    if cands == [] then stored
    else Merge(MergeAll(stored, cands[..|cands| - 1]), cands[|cands| - 1]).books
  }

  /**
   * Saving a list of candidates adds at most one book per candidate, keeps
   * the key of every stored book, leaves every candidate's key stored, and
   * keeps keys unique.
   */
  lemma {:induction false} MergeAllSpec(stored: seq<BookView>, cands: seq<BookView>)
    ensures |stored| <= |MergeAll(stored, cands)| <= |stored| + |cands|
    ensures forall j :: 0 <= j < |stored| ==>
      MergeAll(stored, cands)[j].title == stored[j].title && MergeAll(stored, cands)[j].author == stored[j].author
    ensures forall k :: 0 <= k < |cands| ==> KeyIndex(MergeAll(stored, cands), cands[k].title, cands[k].author).Some?
    ensures UniqueKeys(stored) ==> UniqueKeys(MergeAll(stored, cands))
    decreases |cands|
  {
    if cands != [] {
      var n := |cands| - 1;
      var front := cands[..n];
      var prev := MergeAll(stored, front);
      var c := cands[n];
      var m := Merge(prev, c).books;
      assert MergeAll(stored, cands) == m;
      MergeAllSpec(stored, front);
      MergeSpec(prev, c);
      if UniqueKeys(stored) {
        MergeKeepsUniqueKeys(prev, c);
      }
      forall k | 0 <= k < |cands|
        ensures KeyIndex(m, cands[k].title, cands[k].author).Some?
      {
        if k == n {
          var at := Merge(prev, c).at;
          assert m[at].title == c.title && m[at].author == c.author;
        } else {
          assert front[k] == cands[k];
          var p := KeyIndex(prev, cands[k].title, cands[k].author).value;
          assert m[p].title == prev[p].title && m[p].author == prev[p].author;
        }
      }
    }
  }

  // ---------------------------------------------------------------------------
  // A title search followed by incrementSearchCount
  // ---------------------------------------------------------------------------

  /** `incrementSearchCount` on book `i`: its counter goes up by one (as a `long`), nothing else changes. */
  function Counted(vs: seq<BookView>, i: nat): (r: seq<BookView>)
    requires i < |vs|
    ensures |r| == |vs|
    ensures r[i] == vs[i].(searchCount := IncLong(vs[i].searchCount))
    ensures forall j :: 0 <= j < |vs| && j != i ==> r[j] == vs[j]
  {
    vs[i := vs[i].(searchCount := IncLong(vs[i].searchCount))]
  }

  /** The values after a save and `incrementSearchCount` on the saved book. */
  function SaveAndCount(stored: seq<BookView>, cand: BookView): seq<BookView>
  {
    var m := Merge(stored, cand);
    Counted(m.books, m.at)
  }

  /** `n` successful searches that all find the same catalog book. */
  function SearchedTimes(stored: seq<BookView>, cand: BookView, n: nat): seq<BookView>
  {
    if n == 0 then stored else SaveAndCount(SearchedTimes(stored, cand, n - 1), cand)
  }

  /** A search whose book is new appends it with the counter raised once. */
  lemma SaveAndCountMiss(stored: seq<BookView>, cand: BookView)
    requires KeyIndex(stored, cand.title, cand.author).None?
    ensures SaveAndCount(stored, cand) == stored + [cand.(searchCount := IncLong(cand.searchCount))]
  {
    MergeOnMiss(stored, cand);
  }

  /** A search whose book is stored at `i` refreshes it and raises its own counter. */
  lemma SaveAndCountHit(stored: seq<BookView>, cand: BookView, i: nat)
    requires KeyIndex(stored, cand.title, cand.author) == Some(i)
    ensures SaveAndCount(stored, cand) == stored[i := Refreshed(stored[i], cand).(searchCount := IncLong(stored[i].searchCount))]
  {
  }

  /**
   * A book not yet stored, found by `n` searches, is stored once and its
   * search counter reads `n` (below the `long` limit): the hits keep the
   * counter, each search adds one.
   */
  lemma {:induction false} SearchedTimesCounts(stored: seq<BookView>, cand: BookView, n: nat)
    requires KeyIndex(stored, cand.title, cand.author).None?
    requires cand.searchCount == 0 && 1 <= n <= LONG_MAX
    ensures SearchedTimes(stored, cand, n) == stored + [cand.(searchCount := n)]
  {
    if n == 1 {
      SaveAndCountMiss(stored, cand);
    } else {
      SearchedTimesCounts(stored, cand, n - 1);
      SearchedOnceMore(stored, cand, n);
    }
  }

  /** One more search of a book stored last, with its counter at `n - 1`, raises the counter to `n`. */
  lemma SearchedOnceMore(stored: seq<BookView>, cand: BookView, n: nat)
    requires KeyIndex(stored, cand.title, cand.author).None?
    requires cand.searchCount == 0 && 2 <= n <= LONG_MAX
    ensures SaveAndCount(stored + [cand.(searchCount := n - 1)], cand) == stored + [cand.(searchCount := n)]
  {
    var prev := stored + [cand.(searchCount := n - 1)];
    KeyIndexAppended(stored, cand.(searchCount := n - 1), cand.title, cand.author);
    SaveAndCountHit(prev, cand, |stored|);
    assert prev[|stored| := cand.(searchCount := n)] == stored + [cand.(searchCount := n)];
  }

  /** A key absent from `stored` is found at the end once a view with it is appended. */
  lemma KeyIndexAppended(stored: seq<BookView>, v: BookView, title: string, author: Author?)
    requires KeyIndex(stored, title, author).None? && v.title == title && v.author == author
    ensures KeyIndex(stored + [v], title, author) == Some(|stored|)
  {
    var prev := stored + [v];
    assert prev[|stored|] == v;
    forall j | 0 <= j < |stored|
      ensures !(prev[j].title == title && prev[j].author == author)
    {
      assert prev[j] == stored[j];
    }
  }
}
