/**
 * The two repositories behind the services, as one in-memory store: the
 * persisted authors and books, each in insertion order. A query returns its
 * matches in that order.
 */
module Repository {
  import opened Lang
  import opened Entities

  /** No two of the authors share a name (the unique column on `name`). */
  ghost predicate UniqueNames(authors: seq<Author>)
    reads authors`name
  {
    forall i, j :: 0 <= i < j < |authors| ==> authors[i].name != authors[j].name
  }

  /** `authorRepository.findByName(name)`: the stored author with that name, if any. */
  function AuthorNamed(authors: seq<Author>, name: string): (r: Option<Author>)
    reads authors`name
    ensures r.Some? ==> r.value in authors && r.value.name == name
    ensures r.None? ==> forall i :: 0 <= i < |authors| ==> authors[i].name != name
  {
    if authors == [] then None
    else if authors[0].name == name then Some(authors[0])
    else AuthorNamed(authors[1..], name)
  }

  /** Under unique names, the lookup by a stored author's name finds that very author. */
  lemma AuthorNamedStored(authors: seq<Author>, i: nat)
    requires UniqueNames(authors) && i < |authors|
    ensures AuthorNamed(authors, authors[i].name) == Some(authors[i])
  {
  }

  /** A stored author with the same name is found whatever the order of the authors. */
  lemma AuthorNamedUnique(authors: seq<Author>, name: string, a: Author)
    requires UniqueNames(authors) && a in authors && a.name == name
    ensures AuthorNamed(authors, name) == Some(a)
  {
    var i :| 0 <= i < |authors| && authors[i] == a;
    AuthorNamedStored(authors, i);
  }

  /** A name found among the authors is still found, as the same author, once more authors are appended. */
  lemma AuthorNamedExtend(a1: seq<Author>, a2: seq<Author>, name: string)
    requires |a1| <= |a2| && a2[..|a1|] == a1 && UniqueNames(a2)
    requires AuthorNamed(a1, name).Some?
    ensures AuthorNamed(a2, name) == AuthorNamed(a1, name)
  {
    var a := AuthorNamed(a1, name).value;
    assert a in a2 by {
      var i :| 0 <= i < |a1| && a1[i] == a;
      assert a2[i] == a;
    }
    AuthorNamedUnique(a2, name, a);
  }

  /** Position of the first book view with this title and author: the key of a book. */
  function KeyIndex(vs: seq<BookView>, title: string, author: Author?): (r: Option<nat>)
    ensures r.Some? ==> r.value < |vs| && vs[r.value].title == title && vs[r.value].author == author
    ensures r.Some? ==> forall j :: 0 <= j < r.value ==> !(vs[j].title == title && vs[j].author == author)
    ensures r.None? ==> forall j :: 0 <= j < |vs| ==> !(vs[j].title == title && vs[j].author == author)
  {
    if vs == [] then None
    else if vs[0].title == title && vs[0].author == author then Some(0)
    else
      match KeyIndex(vs[1..], title, author)
      case Some(i) => Some(i + 1)
      case None => None
  }

  /** No two book views share a (title, author) key. */
  predicate UniqueKeys(vs: seq<BookView>)
  {
    forall i, j :: 0 <= i < j < |vs| ==> !(vs[i].title == vs[j].title && vs[i].author == vs[j].author)
  }

  /**
   * `bookRepository.findByTitleAndAuthor(title, author)`: the stored books
   * with exactly this title and author, in store order; a null author
   * matches the books that have none.
   */
  function Matching(bs: seq<Book>, title: string, author: Author?): (r: seq<Book>)
    reads bs
    ensures forall i :: 0 <= i < |r| ==> r[i] in bs && r[i].title == title && r[i].author == author
    ensures forall i :: 0 <= i < |bs| && bs[i].title == title && bs[i].author == author ==> bs[i] in r
  {
    if bs == [] then []
    else
      var rest := Matching(bs[1..], title, author);
      if bs[0].title == title && bs[0].author == author then [bs[0]] + rest else rest
  }

  /** The query finds something exactly when the key occurs, and its first book is the first with that key. */
  lemma {:induction false} MatchingFirst(bs: seq<Book>, title: string, author: Author?)
    ensures Matching(bs, title, author) != [] <==> KeyIndex(Views(bs), title, author).Some?
    ensures Matching(bs, title, author) != [] ==> Matching(bs, title, author)[0] == bs[KeyIndex(Views(bs), title, author).value]
  {
    if bs != [] {
      MatchingFirst(bs[1..], title, author);
      if bs[0].title == title && bs[0].author == author {
        assert KeyIndex(Views(bs), title, author) == Some(0);
      } else {
        assert Matching(bs, title, author) == Matching(bs[1..], title, author);
        KeyIndexSkip(bs, title, author);
      }
    }
  }

  /** A first book without the key shifts the key position by one. */
  lemma KeyIndexSkip(bs: seq<Book>, title: string, author: Author?)
    requires bs != [] && !(bs[0].title == title && bs[0].author == author)
    ensures KeyIndex(Views(bs[1..]), title, author).None? ==> KeyIndex(Views(bs), title, author).None?
    ensures KeyIndex(Views(bs[1..]), title, author).Some? ==>
      KeyIndex(Views(bs), title, author) == Some(KeyIndex(Views(bs[1..]), title, author).value + 1)
  {
    ViewsTail(bs);
    KeyIndexTail(Views(bs), Views(bs[1..]), title, author);
  }

  lemma ViewsTail(bs: seq<Book>)
    requires bs != []
    ensures Views(bs)[1..] == Views(bs[1..])
  {
  }

  lemma KeyIndexTail(vs: seq<BookView>, ws: seq<BookView>, title: string, author: Author?)
    requires vs != [] && ws == vs[1..] && !(vs[0].title == title && vs[0].author == author)
    ensures KeyIndex(ws, title, author).None? ==> KeyIndex(vs, title, author).None?
    ensures KeyIndex(ws, title, author).Some? ==> KeyIndex(vs, title, author) == Some(KeyIndex(ws, title, author).value + 1)
  {
  }

  // ---------------------------------------------------------------------------
  // The store
  // ---------------------------------------------------------------------------

  class Store {
    var authors: seq<Author>
    var books: seq<Book>

    /**
     * Author names are unique, every stored book's author is itself stored
     * (or absent), and no book is stored twice.
     */
    ghost predicate Valid()
      reads this`authors, this`books, authors`name, books`author
    {
      && UniqueNames(authors)
      && (forall i :: 0 <= i < |books| ==> books[i].author == null || books[i].author in authors)
      && NoDuplicates(books)
    }

    /** An empty store. */
    constructor()
      ensures authors == [] && books == []
      ensures Valid()
    {
      authors := [];
      books := [];
    }

    /** `authorRepository.save` of a new author, whose name is not yet taken. */
    method SaveAuthor(a: Author)
      requires Valid()
      requires AuthorNamed(authors, a.name).None?
      modifies this`authors
      ensures authors == old(authors) + [a]
      ensures Valid()
    {
      authors := authors + [a];
    }

    /**
     * `bookRepository.save(book)`: a book already stored is kept where it
     * is, a new one is appended; its author must already be stored.
     */
    method SaveBook(b: Book) returns (r: Book)
      requires Valid()
      requires b.author == null || b.author in authors
      modifies this`books
      ensures b in old(books) ==> books == old(books)
      ensures b !in old(books) ==> books == old(books) + [b]
      ensures r == b
      ensures Valid()
    {
      if b !in books {
        books := books + [b];
      }
      return b;
    }
  }
}
