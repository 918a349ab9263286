/**
 * The pieces of `java.lang.String` and `java.lang.Character` the catalogue relies on:
 * upper- and lower-casing, `equalsIgnoreCase` and `contains`.
 *
 * Character case mapping is that of Java for Basic Latin and Latin-1 (U+0000..U+00FF),
 * where every cased letter maps to the letter 32 code points away. The three Latin-1
 * characters whose Java mapping leaves Latin-1 or changes length (U+00B5, U+00DF, U+00FF)
 * and everything above U+00FF are treated as caseless.
 */
module CaseText {

  /** A string that is never empty: keyword words, surnames and titles. */
  type NonEmptyString = s: string | s != [] witness "?"

  /** `Character.toUpperCase` */
  function Upper(c: char): char {
    if 'a' <= c <= 'z' || ('\U{E0}' <= c <= '\U{FE}' && c != '\U{F7}') then
      (c as int - 32) as char
    else
      c
  }

  /** `Character.toLowerCase` */
  function Lower(c: char): char {
    if 'A' <= c <= 'Z' || ('\U{C0}' <= c <= '\U{DE}' && c != '\U{D7}') then
      (c as int + 32) as char
    else
      c
  }

  /** Upper-casing forgets the case a letter had, and so does lower-casing. */
  lemma CaseForgetting(c: char)
    ensures Lower(Upper(c)) == Lower(c)
    ensures Upper(Lower(c)) == Upper(c)
  {
  }

  /** `String.toUpperCase`, one character at a time */
  function UpperStr(s: string): (r: string)
    ensures |r| == |s|
    ensures forall i :: 0 <= i < |s| ==> r[i] == Upper(s[i])
  {
    if s == [] then [] else [Upper(s[0])] + UpperStr(s[1..])
  }

  /** `String.toLowerCase`, one character at a time */
  function LowerStr(s: string): (r: string)
    ensures |r| == |s|
    ensures forall i :: 0 <= i < |s| ==> r[i] == Lower(s[i])
  {
    if s == [] then [] else [Lower(s[0])] + LowerStr(s[1..])
  }

  /** The comparison `String.equalsIgnoreCase` makes of two characters at the same position. */
  predicate CharEqualsIgnoreCase(a: char, b: char) {
    a == b || Upper(a) == Upper(b) || Lower(Upper(a)) == Lower(Upper(b))
  }

  /** `String.equalsIgnoreCase` on two non-null strings */
  predicate EqualsIgnoreCase(s: string, t: string) {
    |s| == |t| && forall i :: 0 <= i < |s| ==> CharEqualsIgnoreCase(s[i], t[i])
  }

  lemma CharEqualsIgnoreCaseIffSameLower(a: char, b: char)
    ensures CharEqualsIgnoreCase(a, b) <==> Lower(a) == Lower(b)
  {
    CaseForgetting(a);
    CaseForgetting(b);
  }

  /** Two strings are equal ignoring case exactly when their lower-cased forms are equal. */
  lemma EqualsIgnoreCaseIffSameLower(s: string, t: string)
    ensures EqualsIgnoreCase(s, t) <==> LowerStr(s) == LowerStr(t)
  {
    if |s| == |t| {
      forall i | 0 <= i < |s|
        ensures CharEqualsIgnoreCase(s[i], t[i]) <==> LowerStr(s)[i] == LowerStr(t)[i]
      {
        CharEqualsIgnoreCaseIffSameLower(s[i], t[i]);
      }
      if LowerStr(s) != LowerStr(t) {
        var i :| 0 <= i < |s| && LowerStr(s)[i] != LowerStr(t)[i];
        assert !CharEqualsIgnoreCase(s[i], t[i]);
      }
    }
  }

  /** `equalsIgnoreCase` is an equivalence relation. */
  lemma EqualsIgnoreCaseIsEquivalence(s: string, t: string, u: string)
    ensures EqualsIgnoreCase(s, s)
    ensures EqualsIgnoreCase(s, t) ==> EqualsIgnoreCase(t, s)
    ensures EqualsIgnoreCase(s, t) && EqualsIgnoreCase(t, u) ==> EqualsIgnoreCase(s, u)
  {
    EqualsIgnoreCaseIffSameLower(s, s);
    EqualsIgnoreCaseIffSameLower(s, t);
    EqualsIgnoreCaseIffSameLower(t, s);
    EqualsIgnoreCaseIffSameLower(t, u);
    EqualsIgnoreCaseIffSameLower(s, u);
  }

  /** Strings equal ignoring case upper-case to the same string. */
  lemma EqualsIgnoreCaseSameUpper(s: string, t: string)
    requires EqualsIgnoreCase(s, t)
    ensures UpperStr(s) == UpperStr(t)
  {
    EqualsIgnoreCaseIffSameLower(s, t);
    forall i | 0 <= i < |s|
      ensures UpperStr(s)[i] == UpperStr(t)[i]
    {
      assert LowerStr(s)[i] == LowerStr(t)[i];
      CaseForgetting(s[i]);
      CaseForgetting(t[i]);
    }
  }

  /** A string upper-cased is equal to itself ignoring case, and upper-casing it again changes nothing. */
  lemma UpperStrEqualsIgnoreCase(s: string)
    ensures EqualsIgnoreCase(UpperStr(s), s)
    ensures UpperStr(UpperStr(s)) == UpperStr(s)
  {
    forall i | 0 <= i < |s|
      ensures Upper(UpperStr(s)[i]) == UpperStr(s)[i] && Lower(UpperStr(s)[i]) == Lower(s[i])
    {
      CaseForgetting(s[i]);
    }
    EqualsIgnoreCaseIffSameLower(UpperStr(s), s);
  }

  /** A non-empty string capitalized is equal to itself ignoring case. */
  lemma CapitalizedEqualsIgnoreCase(s: string)
    ensures s != "" ==> EqualsIgnoreCase(Capitalized(s), s)
  {
    if s != "" {
      EqualsIgnoreCaseIffSameLower(Capitalized(s), s);
    }
  }

  predicate IsPrefix(p: string, s: string) {
    |p| <= |s| && p == s[..|p|]
  }

  /** `s.contains(sub)`: `sub` occurs in `s` as a run of consecutive characters. */
  predicate Contains(s: string, sub: string) {
    exists i | 0 <= i <= |s| :: IsPrefix(sub, s[i..])
  }

  /** Every string contains the empty string, and contains only strings no longer than itself. */
  lemma ContainsBounds(s: string, sub: string)
    ensures Contains(s, "")
    ensures Contains(s, sub) ==> |sub| <= |s|
  {
    assert IsPrefix("", s[0..]);
  }

  /** A string contains itself and each of its slices. */
  lemma ContainsSlice(s: string, i: nat, j: nat)
    requires i <= j <= |s|
    ensures Contains(s, s[i..j])
  {
    assert IsPrefix(s[i..j], s[i..]);
  }

  /** The first character upper-cased, the rest lower-cased, as the display forms write names. */
  function Capitalized(s: NonEmptyString): (r: NonEmptyString)
    ensures |r| == |s|
    ensures LowerStr(r[1..]) == r[1..] && r[0] == Upper(r[0])
    ensures LowerStr(r) == LowerStr(s)
  {
    CaseForgetting(s[0]);
    var r := [Upper(s[0])] + LowerStr(s[1..]);
    forall i | 0 <= i < |s| - 1
      ensures LowerStr(r[1..])[i] == r[1..][i]
    {
      CaseForgetting(s[1..][i]);
      assert Lower(Lower(s[1..][i])) == Lower(s[1..][i]);
    }
    assert LowerStr(r)[0] == LowerStr(s)[0];
    r
  }

  /** Strings equal ignoring case capitalize to the same string. */
  lemma EqualsIgnoreCaseSameCapitalized(s: NonEmptyString, t: NonEmptyString)
    requires EqualsIgnoreCase(s, t)
    ensures Capitalized(s) == Capitalized(t)
  {
    EqualsIgnoreCaseIffSameLower(s, t);
    assert Lower(s[0]) == Lower(t[0]);
    CaseForgetting(s[0]);
    CaseForgetting(t[0]);
    assert LowerStr(s[1..]) == LowerStr(s)[1..];
    assert LowerStr(t[1..]) == LowerStr(t)[1..];
  }
}
