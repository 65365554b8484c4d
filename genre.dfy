/**
 * The genre classifier of BookService.determineGenre: a record's free-text
 * subject tags are scanned in order, and the first tag that mentions one of
 * four keywords decides the genre; the keywords are tried in a fixed order.
 */
module Genre {
  import opened Lang
  import opened Catalog

  /** The keywords in the order they are tried on each subject. */
  const Keywords: seq<string> := ["fiction", "drama", "comedy", "humor"]

  /** The label each keyword stands for, at the same position. */
  const Labels: seq<string> := ["Fiction", "Drama", "Comedy", "Humor"]

  /** The label when no subject mentions a keyword. */
  const Other: string := "Other"

  /** The closed set of labels the classifier can produce. */
  predicate IsLabel(g: string)
  {
    g == "Fiction" || g == "Drama" || g == "Comedy" || g == "Humor" || g == "Other"
  }

  /** The label one subject decides, if any: the `if`/`else if` chain on the lower-cased subject. */
  function SubjectGenre(subject: string): Option<string>
  {
    var s := Lower(subject);
    if Contains(s, "fiction") then Some("Fiction")
    else if Contains(s, "drama") then Some("Drama")
    else if Contains(s, "comedy") then Some("Comedy")
    else if Contains(s, "humor") then Some("Humor")
    else None
  }

  /**
   * Reference reading of the priority rule: a subject decides label `k`
   * exactly when keyword `k` occurs in it and no keyword before `k` does.
   */
  ghost predicate DecidedBy(subject: string, k: nat)
  {
    && k < |Keywords|
    && Contains(Lower(subject), Keywords[k])
    && forall j :: 0 <= j < k ==> !Contains(Lower(subject), Keywords[j])
  }

  /** The `if` chain agrees with the least-keyword reading, in both directions. */
  lemma SubjectGenreIsLeastKeyword(subject: string)
    ensures forall k :: 0 <= k < |Keywords| ==> (SubjectGenre(subject) == Some(Labels[k]) <==> DecidedBy(subject, k))
    ensures SubjectGenre(subject).None? <==> forall k :: 0 <= k < |Keywords| ==> !Contains(Lower(subject), Keywords[k])
  {
    var s := Lower(subject);
    assert Keywords[0] == "fiction" && Keywords[1] == "drama" && Keywords[2] == "comedy" && Keywords[3] == "humor";
    assert Labels[0] == "Fiction" && Labels[1] == "Drama" && Labels[2] == "Comedy" && Labels[3] == "Humor";
    forall k | 0 <= k < |Keywords|
      ensures SubjectGenre(subject) == Some(Labels[k]) <==> DecidedBy(subject, k)
    {
      assert forall j :: 0 <= j < k ==> Keywords[j] in Keywords[..3];
    }
    if forall k :: 0 <= k < |Keywords| ==> !Contains(s, Keywords[k]) {
      assert !Contains(s, Keywords[0]) && !Contains(s, Keywords[1]) && !Contains(s, Keywords[2]) && !Contains(s, Keywords[3]);
    }
  }

  /** The label decided by a list of subjects: the first subject that decides one, else Other. */
  function Classify(subjects: seq<string>): string
  {
    if subjects == [] then Other
    else
      match SubjectGenre(subjects[0])
      case Some(decided) => decided
      case None => Classify(subjects[1..])
  }

  /** A subject that decides a label yields one of the four keyword labels. */
  lemma SubjectGenreIsKeywordLabel(subject: string)
    ensures SubjectGenre(subject).Some? ==> SubjectGenre(subject).value in Labels
  {
  }

  /** The classifier only ever produces one of the five labels. */
  lemma {:induction false} ClassifyIsLabel(subjects: seq<string>)
    ensures IsLabel(Classify(subjects))
  {
    if subjects != [] {
      SubjectGenreIsKeywordLabel(subjects[0]);
      ClassifyIsLabel(subjects[1..]);
    }
  }

  /**
   * The first subject, in list order, that decides a label decides the
   * result; the subjects after it are never looked at.
   */
  lemma {:induction false} FirstDecidingSubjectWins(subjects: seq<string>, k: nat)
    requires k < |subjects| && SubjectGenre(subjects[k]).Some?
    requires forall j :: 0 <= j < k ==> SubjectGenre(subjects[j]).None?
    ensures Classify(subjects) == SubjectGenre(subjects[k]).value
    ensures Classify(subjects[..k + 1]) == Classify(subjects)
  {
    if k == 0 {
      assert subjects[..1][0] == subjects[0];
    } else {
      assert SubjectGenre(subjects[0]).None?;
      FirstDecidingSubjectWins(subjects[1..], k - 1);
      assert subjects[..k + 1][0] == subjects[0];
      assert subjects[..k + 1][1..] == subjects[1..][..k];
    }
  }

  /** The result is Other exactly when no subject mentions any keyword. */
  lemma {:induction false} ClassifyOtherIff(subjects: seq<string>)
    ensures Classify(subjects) == Other <==> forall i :: 0 <= i < |subjects| ==> SubjectGenre(subjects[i]).None?
  {
    if subjects != [] {
      ClassifyOtherIff(subjects[1..]);
      SubjectGenreIsKeywordLabel(subjects[0]);
      if SubjectGenre(subjects[0]).None? {
        forall i | 0 <= i < |subjects[1..]|
          ensures subjects[1..][i] == subjects[i + 1]
        {
        }
      }
    }
  }

  /** The label of a "subjects" node: Other when it is not an array. */
  function GenreOf(subjects: Node<string>): string
  {
    match subjects
    case NotArray => Other
    case Array(items) => Classify(items)
  }

  /** Every "subjects" node, array or not, gets one of the five labels. */
  lemma GenreOfIsLabel(subjects: Node<string>)
    ensures IsLabel(GenreOf(subjects))
  {
    if subjects.Array? {
      ClassifyIsLabel(subjects.items);
    }
  }

  /**
   * `determineGenre(subjects)`: a loop over the subjects that returns at the
   * first subject deciding a label; a node that is not an array gives Other.
   */
  method DetermineGenre(subjects: Node<string>) returns (genre: string)
    ensures subjects.NotArray? ==> genre == Other
    ensures subjects.Array? ==> genre == Classify(subjects.items)
    ensures genre == GenreOf(subjects)
  {
    if subjects.Array? {
      var items := subjects.items;
      var i := 0;
      while i < |items|
        invariant 0 <= i <= |items|
        invariant Classify(items) == Classify(items[i..])
      {
        var s := Lower(items[i]);
        if Contains(s, "fiction") {
          return "Fiction";
        } else if Contains(s, "drama") {
          return "Drama";
        } else if Contains(s, "comedy") {
          return "Comedy";
        } else if Contains(s, "humor") {
          return "Humor";
        }
        assert items[i..][1..] == items[i + 1..];
        i := i + 1;
      }
    }
    return Other;
  }

  /** "romance" mentions none of the keywords. */
  lemma RomanceHasNoKeyword()
    ensures SubjectGenre("romance").None?
  {
    assert Lower("romance") == "romance";
    RomanceLacksFictionOrDrama();
    RomanceLacksComedyOrHumor();
  }

  lemma RomanceLacksFictionOrDrama()
    ensures !Contains("romance", "fiction") && !Contains("romance", "drama")
  {
    MismatchAt("romance", "fiction", 0, 0);
    MismatchAt("romance", "drama", 0, 0);
    MismatchAt("romance", "drama", 1, 0);
    MismatchAt("romance", "drama", 2, 0);
  }

  lemma RomanceLacksComedyOrHumor()
    ensures !Contains("romance", "comedy") && !Contains("romance", "humor")
  {
    MismatchAt("romance", "comedy", 0, 0);
    MismatchAt("romance", "comedy", 1, 0);
    MismatchAt("romance", "humor", 0, 0);
    MismatchAt("romance", "humor", 1, 0);
    MismatchAt("romance", "humor", 2, 0);
  }

  /** "farce" mentions none of the keywords. */
  lemma FarceHasNoKeyword()
    ensures SubjectGenre("farce").None?
  {
    assert Lower("farce") == "farce";
    MismatchAt("farce", "drama", 0, 0);
    MismatchAt("farce", "humor", 0, 0);
  }

  /**
   * A worked case of the priority rules: an earlier subject without a
   * keyword is skipped, and "fiction" is tried before "drama" within one
   * subject.
   */
  lemma ClassifySkipsToFiction()
    ensures Classify(["romance", "fiction and drama"]) == "Fiction"
  {
    RomanceHasNoKeyword();
    FictionBeforeDrama();
    var l := ["romance", "fiction and drama"];
    assert l[1..] == ["fiction and drama"];
  }

  /** "fiction and drama" mentions two keywords; "fiction" is tried first. */
  lemma FictionBeforeDrama()
    ensures SubjectGenre("fiction and drama") == Some("Fiction")
  {
    assert Lower("fiction and drama") == "fiction and drama";
    assert OccursAt("fiction and drama", "fiction", 0);
  }

  /** A list with no keyword gives Other. */
  lemma ClassifyFarceIsOther()
    ensures Classify(["farce"]) == "Other"
  {
    FarceHasNoKeyword();
    assert ["farce"][1..] == [];
  }
}
