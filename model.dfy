/**
 * The two persistent entities. Both are mutable objects whose setters assign
 * one field each; an entity's identity is its object reference (the
 * generated database ids are not modelled).
 */
module Entities {
  import opened Lang

  /** An author; at most one persisted author carries a given name. */
  class Author {
    var name: string
    var birthYear: Option<int>
    var deathYear: Option<int>
    /** The author side of the author-book link, a hash set. */
    var books: set<Book>

    /** A new author has no name, no known years and no books. */
    constructor()
      ensures name == "" && birthYear == None && deathYear == None
      ensures books == {}
    {
      name := "";
      birthYear := None;
      deathYear := None;
      books := {};
    }

    method SetName(n: string)
      modifies this`name
      ensures name == n
    {
      name := n;
    }

    method SetBirthYear(y: Option<int>)
      modifies this`birthYear
      ensures birthYear == y
    {
      birthYear := y;
    }

    method SetDeathYear(y: Option<int>)
      modifies this`deathYear
      ensures deathYear == y
    {
      deathYear := y;
    }

    method SetBooks(bs: set<Book>)
      modifies this`books
      ensures books == bs
    {
      books := bs;
    }

    /** Every book in this author's set points back at this author. */
    ghost predicate Linked()
      reads this, books
    {
      forall b :: b in books ==> b.author == this
    }

    /** `addBook`: put the book in the set and make this its author. */
    method AddBook(book: Book)
      modifies this`books, book`author
      ensures books == old(books) + {book}
      ensures book.author == this
      ensures old(Linked()) ==> Linked()
    {
      books := books + {book};
      book.SetAuthor(this);
    }

    /** `removeBook`: take the book out of the set and clear its author. */
    method RemoveBook(book: Book)
      modifies this`books, book`author
      ensures books == old(books) - {book}
      ensures book.author == null
      ensures old(Linked()) ==> Linked()
    {
      books := books - {book};
      book.SetAuthor(null);
    }
  }

  /** A book; it refers to at most one author. */
  class Book {
    var title: string
    var author: Author?
    var downloadCount: Long
    var yearWritten: Option<int>
    var genre: string
    var searchCount: Long
    var languages: seq<string>

    /** A new book has no author, no year, zero counters and an empty language list. */
    constructor()
      ensures title == "" && author == null && yearWritten == None && genre == ""
      ensures downloadCount == 0 && searchCount == 0
      ensures languages == []
    {
      title := "";
      author := null;
      downloadCount := 0;
      yearWritten := None;
      genre := "";
      searchCount := 0;
      languages := [];
    }

    method SetTitle(t: string)
      modifies this`title
      ensures title == t
    {
      title := t;
    }

    method SetAuthor(a: Author?)
      modifies this`author
      ensures author == a
    {
      author := a;
    }

    method SetDownloadCount(n: Long)
      modifies this`downloadCount
      ensures downloadCount == n
    {
      downloadCount := n;
    }

    method SetYearWritten(y: Option<int>)
      modifies this`yearWritten
      ensures yearWritten == y
    {
      yearWritten := y;
    }

    method SetGenre(g: string)
      modifies this`genre
      ensures genre == g
    {
      genre := g;
    }

    method SetSearchCount(n: Long)
      modifies this`searchCount
      ensures searchCount == n
    {
      searchCount := n;
    }

    method SetLanguages(ls: seq<string>)
      modifies this`languages
      ensures languages == ls
    {
      languages := ls;
    }
  }

  /** Adding the same book twice leaves the author's set as after the first call. */
  method AddBookTwice(a: Author, b: Book)
    modifies a`books, b`author
    ensures a.books == old(a.books) + {b}
    ensures b.author == a
  {
    a.AddBook(b);
    ghost var once := a.books;
    a.AddBook(b);
    assert a.books == once;
  }

  /** The value of a book's fields at one moment. */
  datatype BookView = BookView(
    title: string,
    author: Author?,
    downloadCount: Long,
    yearWritten: Option<int>,
    genre: string,
    searchCount: Long,
    languages: seq<string>)

  function View(b: Book): BookView
    reads b
  {
    BookView(b.title, b.author, b.downloadCount, b.yearWritten, b.genre, b.searchCount, b.languages)
  }

  function Views(bs: seq<Book>): (vs: seq<BookView>)
    reads bs
    ensures |vs| == |bs|
    ensures forall i :: 0 <= i < |bs| ==> vs[i] == View(bs[i])
  {
    if bs == [] then [] else [View(bs[0])] + Views(bs[1..])
  }

  /** The view of a longer sequence is the view of the shorter one, extended. */
  lemma {:induction false} ViewsAppend(bs: seq<Book>, b: Book)
    ensures Views(bs + [b]) == Views(bs) + [View(b)]
  {
    if bs != [] {
      ViewsAppend(bs[1..], b);
      assert (bs + [b])[1..] == bs[1..] + [b];
    }
  }
}
