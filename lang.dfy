/**
 * The few pieces of the Java platform the catalog logic leans on, written out
 * so that their edge cases are explicit: nullable values, `long` and `int`
 * arithmetic, `String.toLowerCase`, `contains` and `equalsIgnoreCase`, and
 * `Stream.distinct`.
 */
module Lang {

  /** A Java reference that may be null, or an `Optional` that may be empty. */
  datatype Option<T> = None | Some(value: T)

  // ---------------------------------------------------------------------------
  // Fixed-width integers
  // ---------------------------------------------------------------------------

  const LONG_MIN: int := -0x8000_0000_0000_0000
  const LONG_MAX: int := 0x7FFF_FFFF_FFFF_FFFF
  const INT_MIN: int := -0x8000_0000
  const INT_MAX: int := 0x7FFF_FFFF

  /** Values of Java's 64-bit `long`. */
  type Long = x: int | -0x8000_0000_0000_0000 <= x <= 0x7FFF_FFFF_FFFF_FFFF

  /** `x + 1` on a Java `long`: two's-complement addition modulo 2^64. */
  function IncLong(x: Long): (r: Long)
    ensures x < LONG_MAX ==> r == x + 1
    ensures x == LONG_MAX ==> r == LONG_MIN
  {
    (x - LONG_MIN + 1) % 0x1_0000_0000_0000_0000 + LONG_MIN
  }

  /** The narrowing cast `(int) n` from a wider integer: keeps the low 32 bits. */
  function ToInt(n: int): (r: int)
    ensures INT_MIN <= r <= INT_MAX
    ensures INT_MIN <= n <= INT_MAX ==> r == n
    ensures (r - n) % 0x1_0000_0000 == 0
  {
    (n - INT_MIN) % 0x1_0000_0000 + INT_MIN
  }

  // ---------------------------------------------------------------------------
  // Strings
  // ---------------------------------------------------------------------------

  /**
   * `Character.toLowerCase` on the upper-case letters of ASCII and Latin-1
   * (U+00C0 to U+00DE, except the multiplication sign U+00D7); every other
   * character is left as it is.
   */
  function LowerChar(c: char): char
  {
    if 'A' <= c <= 'Z' || ('\U{C0}' <= c <= '\U{DE}' && c != '\U{D7}') then
      (c as int + 32) as char
    else
      c
  }

  /** `String.toLowerCase`, character by character. */
  function Lower(s: string): (r: string)
    ensures |r| == |s|
    ensures forall i :: 0 <= i < |s| ==> r[i] == LowerChar(s[i])
  {
    seq(|s|, i requires 0 <= i < |s| => LowerChar(s[i]))
  }

  /** `t` occurs in `s` at position `k`. */
  predicate OccursAt(s: string, t: string, k: nat)
  {
    k + |t| <= |s| && s[k..k + |t|] == t
  }

  /** `t` occurs in `s` at position `i` or later: the scan behind `contains`. */
  predicate ContainsFrom(s: string, t: string, i: nat)
    decreases |s| - i
  {
    i + |t| <= |s| && (OccursAt(s, t, i) || ContainsFrom(s, t, i + 1))
  }

  /** `s.contains(t)`: the empty string occurs in every string. */
  predicate Contains(s: string, t: string)
  {
    ContainsFrom(s, t, 0)
  }

  /** `s.equalsIgnoreCase(t)`, with the case folding of `LowerChar`. */
  predicate EqualsIgnoreCase(s: string, t: string)
  {
    Lower(s) == Lower(t)
  }

  /** The scan `ContainsFrom` finds exactly the occurrences at or after `i`. */
  lemma {:induction false} ContainsFromAt(s: string, t: string, i: nat)
    ensures ContainsFrom(s, t, i) <==> exists k :: i <= k && OccursAt(s, t, k)
    decreases |s| - i
  {
    if i + |t| <= |s| {
      ContainsFromAt(s, t, i + 1);
      if !ContainsFrom(s, t, i) {
        forall k | i <= k
          ensures !OccursAt(s, t, k)
        {
          if k != i {
            assert i + 1 <= k;
          }
        }
      }
    }
  }

  /** `Contains` is substring occurrence: Java's `contains` and nothing else. */
  lemma ContainsIffOccurs(s: string, t: string)
    ensures Contains(s, t) <==> exists k :: OccursAt(s, t, k)
  {
    ContainsFromAt(s, t, 0);
  }

  /** The slice of `s` at `i` is not `t` because of the character at `i + k`. */
  lemma MismatchAt(s: string, t: string, i: nat, k: nat)
    requires i + |t| <= |s| && k < |t| && s[i + k] != t[k]
    ensures !OccursAt(s, t, i)
  {
    assert s[i..i + |t|][k] == s[i + k];
  }

  /** Lower-casing is idempotent: a lower-cased text has no upper-case letter left. */
  lemma LowerIdempotent(s: string)
    ensures Lower(Lower(s)) == Lower(s)
  {
    forall i | 0 <= i < |s|
      ensures Lower(Lower(s))[i] == Lower(s)[i]
    {
      var c := s[i];
      if 'A' <= c <= 'Z' {
        assert 'a' <= LowerChar(c) <= 'z';
      } else if '\U{C0}' <= c <= '\U{DE}' && c != '\U{D7}' {
        assert '\U{E0}' <= LowerChar(c) <= '\U{FE}';
      }
    }
  }

  /** Lower-casing a slice is slicing the lower-cased text. */
  lemma LowerSlice(s: string, i: nat, j: nat)
    requires i <= j <= |s|
    ensures Lower(s[i..j]) == Lower(s)[i..j]
  {
  }

  /**
   * A text that occurs in `s` still occurs once both are lower-cased: the
   * case-insensitive search finds every literal match.
   */
  lemma LowerKeepsContains(s: string, t: string)
    requires Contains(s, t)
    ensures Contains(Lower(s), Lower(t))
  {
    ContainsIffOccurs(s, t);
    var k: nat :| OccursAt(s, t, k);
    LowerSlice(s, k, k + |t|);
    assert OccursAt(Lower(s), Lower(t), k);
    ContainsIffOccurs(Lower(s), Lower(t));
  }

  /** `equalsIgnoreCase` is an equivalence: reflexive, symmetric and transitive. */
  lemma EqualsIgnoreCaseEquivalence(s: string, t: string, u: string)
    ensures EqualsIgnoreCase(s, s)
    ensures EqualsIgnoreCase(s, t) ==> EqualsIgnoreCase(t, s)
    ensures EqualsIgnoreCase(s, t) && EqualsIgnoreCase(t, u) ==> EqualsIgnoreCase(s, u)
  {
  }

  /** A text equals its own lower-cased form ignoring case. */
  lemma EqualsIgnoreCaseLower(s: string)
    ensures EqualsIgnoreCase(Lower(s), s)
  {
    LowerIdempotent(s);
  }

  // ---------------------------------------------------------------------------
  // Sequences
  // ---------------------------------------------------------------------------

  /** No element occurs twice. */
  predicate NoDuplicates<T(==)>(s: seq<T>)
  {
    forall i, j :: 0 <= i < j < |s| ==> s[i] != s[j]
  }

  /** Position of the first occurrence of `x` in `s`. */
  function FirstIndex<T(==)>(s: seq<T>, x: T): (k: nat)
    requires x in s
    ensures k < |s| && s[k] == x
    ensures forall j :: 0 <= j < k ==> s[j] != x
  {
    if s[0] == x then 0 else 1 + FirstIndex(s[1..], x)
  }

  /** `r` is `s` with some elements deleted, the rest kept in order. */
  ghost predicate IsSubsequence<T>(r: seq<T>, s: seq<T>)
    decreases |s|
  {
    r == [] || (s != [] && ((r[0] == s[0] && IsSubsequence(r[1..], s[1..])) || IsSubsequence(r, s[1..])))
  }

  /**
   * `Stream.distinct()` on an ordered stream: the first occurrence of every
   * element is kept, later ones are dropped.
   */
  function Distinct<T(==)>(s: seq<T>): (r: seq<T>)
    ensures forall i :: 0 <= i < |r| ==> r[i] in s
    ensures forall i :: 0 <= i < |s| ==> s[i] in r
    ensures NoDuplicates(r)
    decreases |s|
  {
    if s == [] then []
    else
      var p := Distinct(s[..|s| - 1]);
      var x := s[|s| - 1];
      assert forall i :: 0 <= i < |s| - 1 ==> s[i] == s[..|s| - 1][i];
      if x in p then p else p + [x]
  }

  /** Taking a prefix does not move the first occurrence of an element of it. */
  lemma FirstIndexPrefix<T>(s: seq<T>, n: nat, x: T)
    requires n <= |s| && x in s[..n]
    ensures FirstIndex(s[..n], x) == FirstIndex(s, x)
  {
    var k := FirstIndex(s[..n], x);
    assert s[k] == x;
    var m := FirstIndex(s, x);
    assert m <= k;
  }

  /**
   * The output of `Distinct` is in first-seen order: its elements appear in
   * the order in which each first occurs in the input.
   */
  lemma {:induction false} DistinctFirstSeenOrder<T>(s: seq<T>)
    ensures forall i, j :: 0 <= i < j < |Distinct(s)| ==>
      FirstIndex(s, Distinct(s)[i]) < FirstIndex(s, Distinct(s)[j])
    decreases |s|
  {
    if s != [] {
      var n := |s| - 1;
      var front := s[..n];
      var p := Distinct(front);
      var x := s[n];
      DistinctFirstSeenOrder(front);
      FirstSeenOrderExtends(s, n, p);
      if x !in p {
        assert x !in front;
        assert FirstIndex(s, x) == n;
        FirstSeenOrderAppend(s, p, x);
        assert Distinct(s) == p + [x];
      } else {
        assert Distinct(s) == p;
      }
    }
  }

  /** Elements of a prefix, in first-seen order there, are in first-seen order in the whole sequence, before its end. */
  lemma FirstSeenOrderExtends<T>(s: seq<T>, n: nat, p: seq<T>)
    requires n <= |s| && forall k :: 0 <= k < |p| ==> p[k] in s[..n]
    requires forall i, j :: 0 <= i < j < |p| ==> FirstIndex(s[..n], p[i]) < FirstIndex(s[..n], p[j])
    ensures forall i :: 0 <= i < |p| ==> p[i] in s && FirstIndex(s, p[i]) < n
    ensures forall i, j :: 0 <= i < j < |p| ==> FirstIndex(s, p[i]) < FirstIndex(s, p[j])
  {
    forall i | 0 <= i < |p|
      ensures p[i] in s && FirstIndex(s, p[i]) == FirstIndex(s[..n], p[i]) < n
    {
      FirstIndexPrefix(s, n, p[i]);
    }
  }

  /** An element first seen after all of `p` extends the first-seen order of `p`. */
  lemma FirstSeenOrderAppend<T>(s: seq<T>, p: seq<T>, x: T)
    requires x in s && forall k :: 0 <= k < |p| ==> p[k] in s
    requires forall i, j :: 0 <= i < j < |p| ==> FirstIndex(s, p[i]) < FirstIndex(s, p[j])
    requires forall i :: 0 <= i < |p| ==> FirstIndex(s, p[i]) < FirstIndex(s, x)
    ensures forall i, j :: 0 <= i < j < |p + [x]| ==> FirstIndex(s, (p + [x])[i]) < FirstIndex(s, (p + [x])[j])
  {
    var r := p + [x];
    forall i, j | 0 <= i < j < |r|
      ensures FirstIndex(s, r[i]) < FirstIndex(s, r[j])
    {
      assert r[i] == p[i];
      if j < |p| {
        assert r[j] == p[j];
      }
    }
  }

  /** A sequence without duplicates is its own `Distinct`. */
  lemma {:induction false} DistinctOfDistinct<T>(s: seq<T>)
    requires NoDuplicates(s)
    ensures Distinct(s) == s
    decreases |s|
  {
    if s != [] {
      var front := s[..|s| - 1];
      assert NoDuplicates(front) by {
        forall i, j | 0 <= i < j < |front| ensures front[i] != front[j] {
          assert front[i] == s[i] && front[j] == s[j];
        }
      }
      DistinctOfDistinct(front);
      assert s[|s| - 1] !in front by {
        forall i | 0 <= i < |front| ensures front[i] != s[|s| - 1] {
          assert front[i] == s[i];
        }
      }
      assert front + [s[|s| - 1]] == s;
    }
  }
}
