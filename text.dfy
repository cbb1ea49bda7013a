/**
 * Case-insensitive substring matching as the repository's derived query
 * `findByNameContainingIgnoreCase` performs it: the query compares
 * `upper(name)` against `upper('%' + fragment + '%')`, the fragment's own
 * wildcard characters escaped. Case mapping is restricted to ASCII letters.
 */
module Text {

  function UpperChar(c: char): char
  {
    if 'a' <= c <= 'z' then (c as int - 32) as char else c
  }

  function LowerChar(c: char): char
  {
    if 'A' <= c <= 'Z' then (c as int + 32) as char else c
  }

  function Upper(s: string): string
  {
    seq(|s|, i requires 0 <= i < |s| => UpperChar(s[i]))
  }

  function Lower(s: string): string
  {
    seq(|s|, i requires 0 <= i < |s| => LowerChar(s[i]))
  }

  /** `frag` occurs in `s` starting at position `i`. */
  predicate OccursAt(s: string, frag: string, i: int)
  {
    0 <= i && i + |frag| <= |s| && s[i..i + |frag|] == frag
  }

  /** `frag` occurs in `s` as a contiguous run of characters. */
  predicate Contains(s: string, frag: string)
  {
    exists i | 0 <= i <= |s| :: OccursAt(s, frag, i)
  }

  /**
   * `upper(s) like upper('%' + frag + '%')`, the filter of the derived
   * query: a name containing the fragment verbatim matches, and no name
   * shorter than the fragment does.
   */
  predicate ContainsIgnoreCase(s: string, frag: string)
    ensures Contains(s, frag) ==> ContainsIgnoreCase(s, frag)
    ensures ContainsIgnoreCase(s, frag) ==> |frag| <= |s|
  {
    VerbatimMatches(s, frag);
    Contains(Upper(s), Upper(frag))
  }

  /** Two characters agree after upper-casing exactly when they agree after lower-casing. */
  lemma SameCharUpToCase(a: char, b: char)
    ensures UpperChar(a) == UpperChar(b) <==> LowerChar(a) == LowerChar(b)
  {
  }

  lemma SameUpToCase(x: string, y: string)
    requires |x| == |y|
    ensures Upper(x) == Upper(y) <==> Lower(x) == Lower(y)
  {
    if Upper(x) == Upper(y) {
      forall i | 0 <= i < |x| ensures Lower(x)[i] == Lower(y)[i] {
        assert Upper(x)[i] == Upper(y)[i];
        SameCharUpToCase(x[i], y[i]);
      }
    }
    if Lower(x) == Lower(y) {
      forall i | 0 <= i < |x| ensures Upper(x)[i] == Upper(y)[i] {
        assert Lower(x)[i] == Lower(y)[i];
        SameCharUpToCase(x[i], y[i]);
      }
    }
  }

  /**
   * The upper-casing query agrees with the lower-casing reading of
   * "contains, ignoring case": matching does not depend on which case
   * both sides are folded to.
   */
  lemma ContainsIgnoreCaseByLower(s: string, frag: string)
    ensures ContainsIgnoreCase(s, frag) <==> Contains(Lower(s), Lower(frag))
  {
    var n := |frag|;
    forall i | 0 <= i && i + n <= |s|
      ensures OccursAt(Upper(s), Upper(frag), i) <==> OccursAt(Lower(s), Lower(frag), i)
    {
      assert Upper(s)[i..i + n] == Upper(s[i..i + n]);
      assert Lower(s)[i..i + n] == Lower(s[i..i + n]);
      SameUpToCase(s[i..i + n], frag);
    }
    if ContainsIgnoreCase(s, frag) {
      var i :| 0 <= i <= |Upper(s)| && OccursAt(Upper(s), Upper(frag), i);
      assert OccursAt(Lower(s), Lower(frag), i);
    }
    if Contains(Lower(s), Lower(frag)) {
      var i :| 0 <= i <= |Lower(s)| && OccursAt(Lower(s), Lower(frag), i);
      assert OccursAt(Upper(s), Upper(frag), i);
    }
  }

  /** The empty fragment is contained in every name (`like '%%'`). */
  lemma ContainsEmpty(s: string)
    ensures ContainsIgnoreCase(s, "")
  {
    assert OccursAt(Upper(s), Upper(""), 0);
  }

  /** A verbatim occurrence is still an occurrence once both sides are upper-cased. */
  lemma VerbatimMatches(s: string, frag: string)
    ensures Contains(s, frag) ==> Contains(Upper(s), Upper(frag))
  {
    if Contains(s, frag) {
      var i :| 0 <= i <= |s| && OccursAt(s, frag, i);
      assert Upper(s)[i..i + |frag|] == Upper(frag);
      assert OccursAt(Upper(s), Upper(frag), i);
    }
  }
}
