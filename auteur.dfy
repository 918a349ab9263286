/**
 * Authors (`Auteur`): (surname, first name) pairs unique up to case on both fields, held in
 * a registry that only grows. The first name may be empty; the surname may not.
 */
module Auteurs {
  import opened Wrappers
  import opened CaseText

  /** An author; surname and first name never change. */
  class Auteur {
    const nom: NonEmptyString
    const prenom: string

    constructor (nom: NonEmptyString, prenom: string)
      ensures this.nom == nom && this.prenom == prenom
    {
      this.nom := nom;
      this.prenom := prenom;
    }

    /**
     * `equals`: the same object, or another author equal ignoring case on both fields.
     * Equal authors have the same surname and the same first name once lower-cased.
     */
    predicate Equals(obj: object?): (r: bool)
      ensures obj == this ==> r
      ensures r ==> obj is Auteur
                    && LowerStr(nom) == LowerStr((obj as Auteur).nom)
                    && LowerStr(prenom) == LowerStr((obj as Auteur).prenom)
    {
      obj == this
      || (obj is Auteur
          && (EqualsIgnoreCaseIffSameLower(nom, (obj as Auteur).nom);
              EqualsIgnoreCaseIffSameLower(prenom, (obj as Auteur).prenom);
              EqualsIgnoreCase(nom, (obj as Auteur).nom)
              && EqualsIgnoreCase(prenom, (obj as Auteur).prenom)))
    }

    /**
     * `toString`: see `Display`. The surname shows first, upper-cased; the first name, when
     * there is one, follows a space and reads the same ignoring case.
     */
    function ToString(): (r: string)
      ensures |nom| <= |r| && UpperStr(r[..|nom|]) == r[..|nom|] && EqualsIgnoreCase(r[..|nom|], nom)
      ensures prenom == "" <==> |r| == |nom|
      ensures prenom != "" ==> |nom| < |r| && r[|nom|] == ' ' && EqualsIgnoreCase(r[|nom| + 1..], prenom)
    {
      UpperStrEqualsIgnoreCase(nom);
      CapitalizedEqualsIgnoreCase(prenom);
      Display(nom, prenom)
    }
  }

  /**
   * The display form of an author: the surname upper-cased, then, when the first name is not
   * empty, a space and the first name capitalized.
   */
  function Display(nom: NonEmptyString, prenom: string): (r: string)
    ensures |nom| <= |r| && r[..|nom|] == UpperStr(nom)
    ensures prenom == "" ==> r == UpperStr(nom)
    ensures prenom != "" ==>
              |r| == |nom| + 1 + |prenom| && r[|nom|] == ' ' && r[|nom| + 1..] == Capitalized(prenom)
  {
    UpperStr(nom) + (if |prenom| > 0 then " " + Capitalized(prenom) else "")
  }

  /** `equals` on authors is reflexive, symmetric and transitive, and false for non-authors. */
  lemma EqualsIsEquivalence(a: Auteur, b: Auteur, c: Auteur, other: object?)
    requires !(other is Auteur)
    ensures a.Equals(a)
    ensures a.Equals(b) ==> b.Equals(a)
    ensures a.Equals(b) && b.Equals(c) ==> a.Equals(c)
    ensures !a.Equals(other)
  {
    EqualsIgnoreCaseIsEquivalence(a.nom, b.nom, c.nom);
    EqualsIgnoreCaseIsEquivalence(a.prenom, b.prenom, c.prenom);
  }

  /** Authors that are equal display the same: ("HUGO", "victor") and ("Hugo", "Victor") give "HUGO Victor". */
  lemma EqualsSameToString(a: Auteur, b: Auteur)
    requires a.Equals(b)
    ensures a.ToString() == b.ToString()
  {
    if a != b {
      EqualsIgnoreCaseSameUpper(a.nom, b.nom);
      if a.prenom != "" {
        EqualsIgnoreCaseSameCapitalized(a.prenom, b.prenom);
      }
    }
  }

  /** The author matches a surname and a first name, ignoring case on both. */
  predicate Matches(a: Auteur, nom: string, prenom: string) {
    EqualsIgnoreCase(a.nom, nom) && EqualsIgnoreCase(a.prenom, prenom)
  }

  /** No two authors of the registry are equal. */
  ghost predicate Unique(registry: set<Auteur>) {
    forall a, b :: a in registry && b in registry && a.Equals(b) ==> a == b
  }

  /** Some author of the registry matches the surname and first name. */
  ghost predicate Known(registry: set<Auteur>, nom: string, prenom: string) {
    exists a :: a in registry && Matches(a, nom, prenom)
  }

  /** In a registry without duplicates, at most one author matches a (surname, first name) pair. */
  lemma MatchIsUnique(registry: set<Auteur>, nom: string, prenom: string, a: Auteur, b: Auteur)
    requires Unique(registry)
    requires a in registry && Matches(a, nom, prenom)
    requires b in registry && Matches(b, nom, prenom)
    ensures a == b
  {
    EqualsIgnoreCaseIsEquivalence(a.nom, nom, b.nom);
    EqualsIgnoreCaseIsEquivalence(nom, b.nom, a.nom);
    EqualsIgnoreCaseIsEquivalence(a.prenom, prenom, b.prenom);
    EqualsIgnoreCaseIsEquivalence(prenom, b.prenom, a.prenom);
  }

  /** In a registry without duplicates, `equals` between its authors is identity. */
  lemma EqualsIsIdentity(registry: set<Auteur>, a: Auteur, b: Auteur)
    requires Unique(registry) && a in registry && b in registry
    ensures a.Equals(b) <==> a == b
  {
    EqualsIgnoreCaseIsEquivalence(a.nom, a.nom, a.nom);
    EqualsIgnoreCaseIsEquivalence(a.prenom, a.prenom, a.prenom);
  }

  /** Adding an author that matches none of the registry keeps the registry free of duplicates. */
  lemma AddUnknownKeepsUnique(registry: set<Auteur>, a: Auteur)
    requires Unique(registry) && !Known(registry, a.nom, a.prenom)
    ensures Unique(registry + {a})
  {
    forall b: Auteur | b in registry
      ensures !a.Equals(b) && !b.Equals(a)
    {
      EqualsIgnoreCaseIsEquivalence(b.nom, a.nom, a.nom);
      EqualsIgnoreCaseIsEquivalence(b.prenom, a.prenom, a.prenom);
    }
  }

  /** The scan of `getOrCreate`: the author of the registry matching both fields, if any. */
  method Find(registry: set<Auteur>, nom: string, prenom: string) returns (found: Auteur?)
    ensures found != null ==> found in registry && Matches(found, nom, prenom)
    ensures found == null <==> !Known(registry, nom, prenom)
  {
    var rest := registry;
    while rest != {}
      invariant rest <= registry
      invariant forall a :: a in registry - rest ==> !Matches(a, nom, prenom)
      decreases rest
    {
      var a :| a in rest;
      if Matches(a, nom, prenom) {
        return a;
      }
      rest := rest - {a};
    }
    return null;
  }

  /** The author's lower-cased surname and first name contain the lower-cased queries. */
  predicate Selected(a: Auteur, subNom: string, subPrenom: string) {
    Contains(LowerStr(a.nom), LowerStr(subNom)) && Contains(LowerStr(a.prenom), LowerStr(subPrenom))
  }

  /** Searching with an author's own names, in any case, selects that author. */
  lemma SelectedByOwnName(a: Auteur, nom: string, prenom: string)
    requires Matches(a, nom, prenom)
    ensures Selected(a, nom, prenom)
  {
    EqualsIgnoreCaseIffSameLower(a.nom, nom);
    EqualsIgnoreCaseIffSameLower(a.prenom, prenom);
    ContainsSlice(LowerStr(a.nom), 0, |a.nom|);
    ContainsSlice(LowerStr(a.prenom), 0, |a.prenom|);
    assert LowerStr(a.nom)[0..|a.nom|] == LowerStr(a.nom);
    assert LowerStr(a.prenom)[0..|a.prenom|] == LowerStr(a.prenom);
  }

  /**
   * `select`: the authors of the registry whose surname contains the first query and whose
   * first name contains the second, both ignoring case. Two empty queries select every author.
   */
  method Select(registry: set<Auteur>, subNom: string, subPrenom: string) returns (r: set<Auteur>)
    ensures forall a :: a in r <==> a in registry && Selected(a, subNom, subPrenom)
    ensures subNom == "" && subPrenom == "" ==> r == registry
  {
    r := {};
    var rest := registry;
    while rest != {}
      invariant rest <= registry
      invariant forall a :: a in r <==> a in registry - rest && Selected(a, subNom, subPrenom)
      decreases rest
    {
      var a :| a in rest;
      if Selected(a, subNom, subPrenom) {
        r := r + {a};
      }
      rest := rest - {a};
    }
    if subNom == "" && subPrenom == "" {
      forall a | a in registry
        ensures Selected(a, subNom, subPrenom)
      {
        ContainsBounds(LowerStr(a.nom), "");
        ContainsBounds(LowerStr(a.prenom), "");
      }
    }
  }

  /** The set of all authors (`AUTEURS`). */
  class AuteurRegistry {
    var all: set<Auteur>

    ghost predicate Valid()
      reads this
    {
      Unique(all)
    }

    constructor ()
      ensures Valid() && all == {}
    {
      all := {};
    }

    /**
     * The private `getOrCreate(nom, prenom, getOnly)`: nothing for a null or empty surname
     * or a null first name; the registered author matching both fields if there is one;
     * otherwise nothing when `getOnly`, else a new author, added to the registry.
     */
    method Resolve(nom: Option<string>, prenom: Option<string>, getOnly: bool) returns (a: Auteur?)
      requires Valid()
      modifies this
      ensures Valid()
      ensures nom.None? || nom.value == "" || prenom.None? ==> a == null && all == old(all)
      ensures nom.Some? && prenom.Some? && Known(old(all), nom.value, prenom.value) ==>
                a != null && a in old(all) && Matches(a, nom.value, prenom.value) && all == old(all)
      ensures nom.Some? && nom.value != "" && prenom.Some? && !Known(old(all), nom.value, prenom.value) ==>
                if getOnly then a == null && all == old(all)
                else a != null && fresh(a) && a.nom == nom.value && a.prenom == prenom.value
                     && all == old(all) + {a}
    {
      if nom.None? || nom.value == "" || prenom.None? {
        return null;
      }
      a := Find(all, nom.value, prenom.value);
      if a != null || getOnly {
        return;
      }
      a := new Auteur(nom.value, prenom.value);
      AddUnknownKeepsUnique(all, a);
      all := all + {a};
    }

    /** `getOrCreate(nom, prenom)`: the author for the pair, created and registered when none matches. */
    method GetOrCreate(nom: Option<string>, prenom: Option<string>) returns (a: Auteur?)
      requires Valid()
      modifies this
      ensures Valid()
      ensures nom.None? || nom.value == "" || prenom.None? ==> a == null && all == old(all)
      ensures nom.Some? && prenom.Some? && Known(old(all), nom.value, prenom.value) ==>
                a != null && a in old(all) && Matches(a, nom.value, prenom.value) && all == old(all)
      ensures nom.Some? && nom.value != "" && prenom.Some? && !Known(old(all), nom.value, prenom.value) ==>
                a != null && fresh(a) && a.nom == nom.value && a.prenom == prenom.value
                && all == old(all) + {a}
    {
      a := Resolve(nom, prenom, false);
    }

    /** `get(nom, prenom)`: the registered author for the pair, or null; never adds an author. */
    method Get(nom: Option<string>, prenom: Option<string>) returns (a: Auteur?)
      ensures a == null <==> nom.None? || prenom.None? || !Known(all, nom.value, prenom.value)
      ensures a != null ==> a in all && Matches(a, nom.value, prenom.value)
    {
      if nom.None? || nom.value == "" || prenom.None? {
        return null;
      }
      a := Find(all, nom.value, prenom.value);
    }
  }
}
