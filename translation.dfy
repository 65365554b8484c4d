/**
 * The two fixed English/Spanish tables of BookService and the lookups built
 * on them. The source keeps each table in a `HashMap` and takes the first
 * entry, in the map's iteration order, that satisfies a test; here each
 * table is a sequence in the order the JDK's `HashMap` iterates these keys.
 * The general lemmas hold for a table in any order.
 */
module Translation {
  import opened Lang
  import Genre

  /** A table of (English, Spanish) pairs, in iteration order. */
  type Table = seq<(string, string)>

  /** Genre labels and their Spanish names. */
  const GenreTable: Table := [
    ("Drama", "Drama"),
    ("Comedy", "Comedia"),
    ("Fiction", "Ficción"),
    ("Humor", "Humor"),
    ("Other", "Otro")
  ]

  /** Known titles, lower case, and their Spanish titles. */
  const TitleTable: Table := [
    ("romeo and juliet", "romeo y julieta"),
    ("pride and prejudice", "orgullo y prejuicio"),
    ("the scarlet letter", "la letra escarlata")
  ]

  /** The Spanish genre names a classified book can carry. */
  predicate IsSpanishLabel(g: string)
  {
    g == "Ficción" || g == "Drama" || g == "Comedia" || g == "Humor" || g == "Otro"
  }

  /** `entrySet().stream().filter(p).findFirst()`: the position of the first entry accepted by `p`. */
  function FirstWhere(t: Table, p: ((string, string)) -> bool): (r: Option<nat>)
    ensures r.Some? ==> r.value < |t|
  {
    if t == [] then None
    else if p(t[0]) then Some(0)
    else
      match FirstWhere(t[1..], p)
      case Some(i) => Some(i + 1)
      case None => None
  }

  /** The search finds the first accepted entry, and nothing exactly when no entry is accepted. */
  lemma {:induction false} FirstWhereSpec(t: Table, p: ((string, string)) -> bool)
    ensures FirstWhere(t, p).Some? ==>
      && FirstWhere(t, p).value < |t| && p(t[FirstWhere(t, p).value])
      && forall j :: 0 <= j < FirstWhere(t, p).value ==> !p(t[j])
    ensures FirstWhere(t, p).None? ==> forall j :: 0 <= j < |t| ==> !p(t[j])
  {
    if t != [] && !p(t[0]) {
      FirstWhereSpec(t[1..], p);
      forall j | 1 <= j < |t|
        ensures t[1..][j - 1] == t[j]
      {
      }
    }
  }

  /** Position `i` is the only entry `p` accepts. */
  ghost predicate OnlyMatch(t: Table, p: ((string, string)) -> bool, i: nat)
  {
    i < |t| && p(t[i]) && forall j :: 0 <= j < |t| && j != i ==> !p(t[j])
  }

  /** When a single entry is accepted, the search finds it whatever the table order. */
  lemma FirstWhereOnlyMatch(t: Table, p: ((string, string)) -> bool, i: nat)
    requires OnlyMatch(t, p, i)
    ensures FirstWhere(t, p) == Some(i)
  {
    FirstWhereSpec(t, p);
  }

  // ---------------------------------------------------------------------------
  // The lookups, for any table
  // ---------------------------------------------------------------------------

  /**
   * `translateTitleToEnglish`: the English side of the first entry whose
   * Spanish side occurs in `s`, else `s` itself (the test is case-sensitive).
   */
  function ByValueSubstring(t: Table, s: string): string
  {
    match FirstWhere(t, (e: (string, string)) => Contains(s, e.1))
    case Some(i) => t[i].0
    case None => s
  }

  /** What `ByValueSubstring` returns: the first accepted entry's other side, or the input unchanged when none is accepted. */
  lemma ByValueSubstringSpec(t: Table, s: string)
    ensures (forall j :: 0 <= j < |t| ==> !Contains(s, t[j].1)) ==> ByValueSubstring(t, s) == s
    ensures (exists j :: 0 <= j < |t| && Contains(s, t[j].1)) ==>
      exists i :: 0 <= i < |t| && Contains(s, t[i].1) && ByValueSubstring(t, s) == t[i].0 &&
        forall j :: 0 <= j < i ==> !Contains(s, t[j].1)
  {
    FirstWhereSpec(t, (e: (string, string)) => Contains(s, e.1));
  }

  /**
   * `translateTitleToSpanish`: the Spanish side of the first entry whose
   * English side occurs in the lower-cased `s`, else `s` as given (not
   * lower-cased).
   */
  function ByKeySubstring(t: Table, s: string): string
  {
    match FirstWhere(t, (e: (string, string)) => Contains(Lower(s), e.0))
    case Some(i) => t[i].1
    case None => s
  }

  /** What `ByKeySubstring` returns: the first accepted entry's other side, or the input unchanged when none is accepted. */
  lemma ByKeySubstringSpec(t: Table, s: string)
    ensures (forall j :: 0 <= j < |t| ==> !Contains(Lower(s), t[j].0)) ==> ByKeySubstring(t, s) == s
    ensures (exists j :: 0 <= j < |t| && Contains(Lower(s), t[j].0)) ==>
      exists i :: 0 <= i < |t| && Contains(Lower(s), t[i].0) && ByKeySubstring(t, s) == t[i].1 &&
        forall j :: 0 <= j < i ==> !Contains(Lower(s), t[j].0)
  {
    FirstWhereSpec(t, (e: (string, string)) => Contains(Lower(s), e.0));
  }

  /** `map.getOrDefault(k, k)`: the Spanish side of the entry whose English side is exactly `k`, else `k`. */
  function ByExactKey(t: Table, k: string): string
  {
    match FirstWhere(t, (e: (string, string)) => e.0 == k)
    case Some(i) => t[i].1
    case None => k
  }

  /** What `ByExactKey` returns: the first accepted entry's other side, or the input unchanged when none is accepted. */
  lemma ByExactKeySpec(t: Table, k: string)
    ensures (forall j :: 0 <= j < |t| ==> t[j].0 != k) ==> ByExactKey(t, k) == k
    ensures (exists j :: 0 <= j < |t| && t[j].0 == k) ==> exists i :: 0 <= i < |t| && t[i].0 == k && ByExactKey(t, k) == t[i].1
  {
    FirstWhereSpec(t, (e: (string, string)) => e.0 == k);
  }

  /**
   * `translateToEnglish`: the English side of the first entry whose Spanish
   * side equals `g` ignoring case, else `g` itself.
   */
  function ByValueIgnoringCase(t: Table, g: string): string
  {
    match FirstWhere(t, (e: (string, string)) => EqualsIgnoreCase(e.1, g))
    case Some(i) => t[i].0
    case None => g
  }

  /** What `ByValueIgnoringCase` returns: the first accepted entry's other side, or the input unchanged when none is accepted. */
  lemma ByValueIgnoringCaseSpec(t: Table, g: string)
    ensures (forall j :: 0 <= j < |t| ==> !EqualsIgnoreCase(t[j].1, g)) ==> ByValueIgnoringCase(t, g) == g
    ensures (exists j :: 0 <= j < |t| && EqualsIgnoreCase(t[j].1, g)) ==>
      exists i :: 0 <= i < |t| && EqualsIgnoreCase(t[i].1, g) && ByValueIgnoringCase(t, g) == t[i].0 &&
        forall j :: 0 <= j < i ==> !EqualsIgnoreCase(t[j].1, g)
  {
    FirstWhereSpec(t, (e: (string, string)) => EqualsIgnoreCase(e.1, g));
  }

  /** With a single entry whose Spanish side occurs in `s`, the result is its English side, in any table order. */
  lemma ByValueSubstringOnlyMatch(t: Table, s: string, i: nat)
    requires i < |t| && Contains(s, t[i].1)
    requires forall j :: 0 <= j < |t| && j != i ==> !Contains(s, t[j].1)
    ensures ByValueSubstring(t, s) == t[i].0
  {
    FirstWhereOnlyMatch(t, (e: (string, string)) => Contains(s, e.1), i);
  }

  /** With a single entry whose English side occurs in lower-cased `s`, the result is its Spanish side, in any table order. */
  lemma ByKeySubstringOnlyMatch(t: Table, s: string, i: nat)
    requires i < |t| && Contains(Lower(s), t[i].0)
    requires forall j :: 0 <= j < |t| && j != i ==> !Contains(Lower(s), t[j].0)
    ensures ByKeySubstring(t, s) == t[i].1
  {
    FirstWhereOnlyMatch(t, (e: (string, string)) => Contains(Lower(s), e.0), i);
  }

  /** Keys of a map are distinct, so the exact-key lookup does not depend on the order. */
  lemma ByExactKeyDistinctKeys(t: Table, i: nat)
    requires i < |t|
    requires forall j, l :: 0 <= j < l < |t| ==> t[j].0 != t[l].0
    ensures ByExactKey(t, t[i].0) == t[i].1
  {
    FirstWhereOnlyMatch(t, (e: (string, string)) => e.0 == t[i].0, i);
  }

  // ---------------------------------------------------------------------------
  // The tables of BookService
  // ---------------------------------------------------------------------------

  function TitleToEnglish(s: string): string
  {
    ByValueSubstring(TitleTable, s)
  }

  function TitleToSpanish(s: string): string
  {
    ByKeySubstring(TitleTable, s)
  }

  /** The genre step of `translateBookToSpanish`. */
  function GenreToSpanish(g: string): string
  {
    ByExactKey(GenreTable, g)
  }

  function GenreToEnglish(g: string): string
  {
    ByValueIgnoringCase(GenreTable, g)
  }

  /** `translateToEnglish(genre)`: a loop over the genre table that returns at the first entry matching ignoring case. */
  method TranslateToEnglish(genre: string) returns (r: string)
    ensures r == GenreToEnglish(genre)
  {
    var t := GenreTable;
    var i := 0;
    while i < |t|
      invariant 0 <= i <= |t|
      invariant forall j :: 0 <= j < i ==> !EqualsIgnoreCase(t[j].1, genre)
    {
      if EqualsIgnoreCase(t[i].1, genre) {
        FirstWhereOnlyMatchOrFirst(t, (e: (string, string)) => EqualsIgnoreCase(e.1, genre), i);
        return t[i].0;
      }
      i := i + 1;
    }
    ByValueIgnoringCaseSpec(t, genre);
    return genre;
  }

  /** The first accepted entry is the one the search finds. */
  lemma FirstWhereOnlyMatchOrFirst(t: Table, p: ((string, string)) -> bool, i: nat)
    requires i < |t| && p(t[i]) && forall j :: 0 <= j < i ==> !p(t[j])
    ensures FirstWhere(t, p) == Some(i)
  {
    FirstWhereSpec(t, p);
  }

  /** No two Spanish genre names are equal ignoring case. */
  lemma GenreValuesDistinctIgnoringCase()
    ensures forall j, l :: 0 <= j < l < |GenreTable| ==> !EqualsIgnoreCase(GenreTable[j].1, GenreTable[l].1)
  {
    assert Lower("Drama") == "drama";
    assert Lower("Comedia") == "comedia";
    assert Lower("Ficción") == "ficción";
    assert Lower("Humor") == "humor";
    assert Lower("Otro") == "otro";
  }

  /**
   * `translateToEnglish` on the genre table: a genre equal to a Spanish name
   * ignoring case gives that name's English label, and anything else comes
   * back unchanged.
   */
  lemma GenreToEnglishSpec(g: string)
    ensures forall i :: 0 <= i < |GenreTable| && EqualsIgnoreCase(GenreTable[i].1, g) ==> GenreToEnglish(g) == GenreTable[i].0
    ensures (forall i :: 0 <= i < |GenreTable| ==> !EqualsIgnoreCase(GenreTable[i].1, g)) ==> GenreToEnglish(g) == g
  {
    GenreValuesDistinctIgnoringCase();
    ByValueIgnoringCaseSpec(GenreTable, g);
    forall i | 0 <= i < |GenreTable| && EqualsIgnoreCase(GenreTable[i].1, g)
      ensures GenreToEnglish(g) == GenreTable[i].0
    {
      FirstWhereOnlyMatch(GenreTable, (e: (string, string)) => EqualsIgnoreCase(e.1, g), i);
    }
  }

  /**
   * Every label the classifier produces has a Spanish name among the five,
   * and translating that name back gives the label again.
   */
  lemma GenreRoundTrip(g: string)
    requires Genre.IsLabel(g)
    ensures IsSpanishLabel(GenreToSpanish(g))
    ensures GenreToEnglish(GenreToSpanish(g)) == g
  {
    assert forall j, l :: 0 <= j < l < |GenreTable| ==> GenreTable[j].0 != GenreTable[l].0;
    var i := if g == "Drama" then 0 else if g == "Comedy" then 1 else if g == "Fiction" then 2 else if g == "Humor" then 3 else 4;
    assert GenreTable[i].0 == g;
    ByExactKeyDistinctKeys(GenreTable, i);
    GenreToEnglishSpec(GenreTable[i].1);
  }

  /** A Spanish genre typed in capitals is still recognised. */
  lemma GenreToEnglishIgnoresCase()
    ensures GenreToEnglish("FICCIÓN") == "Fiction"
  {
    assert Lower("FICCIÓN") == "ficción" == Lower(GenreTable[2].1);
    GenreToEnglishSpec("FICCIÓN");
  }

  /** A genre that is not a Spanish genre name comes back unchanged. */
  lemma GenreToEnglishUnknown()
    ensures GenreToEnglish("Poesía") == "Poesía"
  {
    GenreToEnglishSpec("Poesía");
  }

  /** A listed title is translated whatever its case; an unlisted one is returned exactly as given. */
  lemma TitleToSpanishExamples()
    ensures TitleToSpanish("Romeo and Juliet") == "romeo y julieta"
    ensures TitleToSpanish("Moby Dick") == "Moby Dick"
  {
    assert Lower("Romeo and Juliet") == "romeo and juliet";
    assert OccursAt(Lower("Romeo and Juliet"), TitleTable[0].0, 0);
    assert Lower("Moby Dick") == "moby dick";
    ByKeySubstringSpec(TitleTable, "Moby Dick");
  }

  /** Each listed title and its Spanish title translate into each other. */
  lemma TitleTableRoundTrip(i: nat)
    requires i < |TitleTable|
    ensures TitleToSpanish(TitleTable[i].0) == TitleTable[i].1
    ensures TitleToEnglish(TitleTable[i].1) == TitleTable[i].0
  {
    if i == 0 {
      RomeoRoundTrip();
    } else if i == 1 {
      PrideRoundTrip();
    } else {
      ScarletRoundTrip();
    }
  }

  lemma RomeoRoundTrip()
    ensures TitleToSpanish(TitleTable[0].0) == TitleTable[0].1
    ensures TitleToEnglish(TitleTable[0].1) == TitleTable[0].0
  {
    var romeo := TitleTable[0];
    assert Lower(romeo.0) == romeo.0;
    assert OccursAt(romeo.0, romeo.0, 0);
    assert OccursAt(romeo.1, romeo.1, 0);
  }

  lemma PrideRoundTrip()
    ensures TitleToSpanish(TitleTable[1].0) == TitleTable[1].1
    ensures TitleToEnglish(TitleTable[1].1) == TitleTable[1].0
  {
    PrideToSpanish();
    PrideToEnglish();
  }

  lemma PrideToSpanish()
    ensures TitleToSpanish(TitleTable[1].0) == TitleTable[1].1
  {
    var romeo, pride := TitleTable[0], TitleTable[1];
    assert Lower(pride.0) == pride.0;
    MismatchAt(pride.0, romeo.0, 0, 0);
    MismatchAt(pride.0, romeo.0, 1, 1);
    MismatchAt(pride.0, romeo.0, 2, 0);
    MismatchAt(pride.0, romeo.0, 3, 0);
    assert OccursAt(pride.0, pride.0, 0);
    FirstWhereOnlyMatchOrFirst(TitleTable, (e: (string, string)) => Contains(Lower(pride.0), e.0), 1);
  }

  lemma PrideToEnglish()
    ensures TitleToEnglish(TitleTable[1].1) == TitleTable[1].0
  {
    var romeo, pride := TitleTable[0], TitleTable[1];
    MismatchAt(pride.1, romeo.1, 0, 0);
    MismatchAt(pride.1, romeo.1, 1, 1);
    MismatchAt(pride.1, romeo.1, 2, 0);
    MismatchAt(pride.1, romeo.1, 3, 0);
    MismatchAt(pride.1, romeo.1, 4, 0);
    assert OccursAt(pride.1, pride.1, 0);
    FirstWhereOnlyMatchOrFirst(TitleTable, (e: (string, string)) => Contains(pride.1, e.1), 1);
  }

  lemma ScarletRoundTrip()
    ensures TitleToSpanish(TitleTable[2].0) == TitleTable[2].1
    ensures TitleToEnglish(TitleTable[2].1) == TitleTable[2].0
  {
    ScarletToSpanish();
    ScarletToEnglish();
  }

  lemma ScarletToSpanish()
    ensures TitleToSpanish(TitleTable[2].0) == TitleTable[2].1
  {
    var romeo, pride, scarlet := TitleTable[0], TitleTable[1], TitleTable[2];
    assert Lower(scarlet.0) == scarlet.0;
    MismatchAt(scarlet.0, romeo.0, 0, 0);
    MismatchAt(scarlet.0, romeo.0, 1, 0);
    MismatchAt(scarlet.0, romeo.0, 2, 0);
    assert !Contains(scarlet.0, pride.0);
    assert OccursAt(scarlet.0, scarlet.0, 0);
    FirstWhereOnlyMatchOrFirst(TitleTable, (e: (string, string)) => Contains(Lower(scarlet.0), e.0), 2);
  }

  lemma ScarletToEnglish()
    ensures TitleToEnglish(TitleTable[2].1) == TitleTable[2].0
  {
    var romeo, pride, scarlet := TitleTable[0], TitleTable[1], TitleTable[2];
    MismatchAt(scarlet.1, romeo.1, 0, 0);
    MismatchAt(scarlet.1, romeo.1, 1, 0);
    MismatchAt(scarlet.1, romeo.1, 2, 0);
    MismatchAt(scarlet.1, romeo.1, 3, 0);
    assert !Contains(scarlet.1, pride.1);
    assert OccursAt(scarlet.1, scarlet.1, 0);
    FirstWhereOnlyMatchOrFirst(TitleTable, (e: (string, string)) => Contains(scarlet.1, e.1), 2);
  }
}
