/**
 * Books (`Livre`): a title and an author, unique up to case on the title and author
 * equality, each with a keyword set that only grows. The book registry resolves authors
 * through the author registry and keywords through the keyword registry.
 */
module Livres {
  import opened Wrappers
  import opened CaseText
  import MotCles
  import Auteurs

  /** A book; title and author never change, the keyword set only grows. */
  class Livre {
    const titre: NonEmptyString
    const auteur: Auteurs.Auteur
    var motsCles: set<MotCles.MotCle>

    constructor (titre: NonEmptyString, auteur: Auteurs.Auteur)
      ensures this.titre == titre && this.auteur == auteur && motsCles == {}
    {
      this.titre := titre;
      this.auteur := auteur;
      motsCles := {};
    }

    /** `getMotsCles`: the keywords of the book. */
    function GetMotsCles(): set<MotCles.MotCle>
      reads this
    {
      motsCles
    }

    /**
     * `equals`: the same object, or another book whose title is equal ignoring case and whose
     * author is equal. Equal books have the same lower-cased title, and authors equal both ways.
     */
    predicate Equals(obj: object?): (r: bool)
      ensures obj == this ==> r
      ensures r ==> obj is Livre
                    && LowerStr(titre) == LowerStr((obj as Livre).titre)
                    && auteur.Equals((obj as Livre).auteur) && (obj as Livre).auteur.Equals(auteur)
    {
      obj == this
      || (obj is Livre
          && (EqualsIgnoreCaseIffSameLower(titre, (obj as Livre).titre);
              Auteurs.EqualsIsEquivalence(auteur, (obj as Livre).auteur, auteur, null);
              EqualsIgnoreCase(titre, (obj as Livre).titre)
              && auteur.Equals((obj as Livre).auteur)))
    }

    /**
     * `toString`: see `Display`. The title shows between double quotes and reads the same
     * ignoring case; the author's display form follows between parentheses.
     */
    function ToString(): (r: string)
      ensures |r| == |titre| + |auteur.ToString()| + 5
      ensures r[0] == '"' && EqualsIgnoreCase(r[1..|titre| + 1], titre)
      ensures r[|titre| + 1..|titre| + 4] == "\" (" && r[|titre| + 4..|r| - 1] == auteur.ToString()
      ensures r[|r| - 1] == ')'
    {
      DisplayKeepsTitle(titre, auteur.ToString());
      Display(titre, auteur.ToString())
    }
  }

  /**
   * The display form of a book: the title capitalized between double quotes, a space, and
   * the author's display form between parentheses.
   */
  function Display(titre: NonEmptyString, auteur: string): (r: string)
    ensures |r| == |titre| + |auteur| + 5
    ensures r[0] == '"' && r[1..|titre| + 1] == Capitalized(titre)
    ensures r[|titre| + 1..|titre| + 4] == "\" (" && r[|titre| + 4..|r| - 1] == auteur && r[|r| - 1] == ')'
  {
    var c := Capitalized(titre);
    var open := "\"" + c + "\" (";
    assert open[1..|titre| + 1] == c && open[|titre| + 1..] == "\" (";
    var r := open + auteur + ")";
    assert r[..|titre| + 4] == open && r[|titre| + 4..|r| - 1] == auteur;
    r
  }

  /** The display form gives back the title up to case. */
  lemma DisplayKeepsTitle(titre: NonEmptyString, auteur: string)
    ensures EqualsIgnoreCase(Display(titre, auteur)[1..|titre| + 1], titre)
  {
    EqualsIgnoreCaseIffSameLower(Display(titre, auteur)[1..|titre| + 1], titre);
  }

  /** The book matches a title ignoring case and an author under author equality. */
  predicate Matches(l: Livre, titre: string, a: Auteurs.Auteur) {
    EqualsIgnoreCase(l.titre, titre) && l.auteur.Equals(a)
  }

  /** No two books of the registry are equal. */
  ghost predicate Unique(registry: set<Livre>) {
    forall l, n :: l in registry && n in registry && l.Equals(n) ==> l == n
  }

  /** Some book of the registry matches the title and the author. */
  ghost predicate Known(registry: set<Livre>, titre: string, a: Auteurs.Auteur) {
    exists l :: l in registry && Matches(l, titre, a)
  }

  /** `equals` on books is reflexive, symmetric and transitive, and false for non-books. */
  lemma EqualsIsEquivalence(l: Livre, m: Livre, n: Livre, other: object?)
    requires !(other is Livre)
    ensures l.Equals(l)
    ensures l.Equals(m) ==> m.Equals(l)
    ensures l.Equals(m) && m.Equals(n) ==> l.Equals(n)
    ensures !l.Equals(other)
  {
    EqualsIgnoreCaseIsEquivalence(l.titre, m.titre, n.titre);
    Auteurs.EqualsIsEquivalence(l.auteur, m.auteur, n.auteur, null);
  }

  /**
   * With registered authors, book equality is equality of titles ignoring case together with
   * author identity: books by ("Hugo", "Victor") and ("HUGO", "victor") share one author.
   */
  lemma EqualsIffSameTitleAndAuthor(authors: set<Auteurs.Auteur>, l: Livre, n: Livre)
    requires Auteurs.Unique(authors) && l.auteur in authors && n.auteur in authors
    ensures l.Equals(n) <==> EqualsIgnoreCase(l.titre, n.titre) && l.auteur == n.auteur
  {
    Auteurs.EqualsIsIdentity(authors, l.auteur, n.auteur);
    EqualsIgnoreCaseIsEquivalence(l.titre, l.titre, l.titre);
  }

  /** Books that are equal display the same. */
  lemma EqualsSameToString(l: Livre, n: Livre)
    requires l.Equals(n)
    ensures l.ToString() == n.ToString()
  {
    if l != n {
      EqualsIgnoreCaseSameCapitalized(l.titre, n.titre);
      Auteurs.EqualsSameToString(l.auteur, n.auteur);
    }
  }

  /** Adding a book that matches none of the registry keeps the registry free of duplicates. */
  lemma AddUnknownKeepsUnique(registry: set<Livre>, l: Livre)
    requires Unique(registry) && !Known(registry, l.titre, l.auteur)
    ensures Unique(registry + {l})
  {
    forall n: Livre | n in registry
      ensures !l.Equals(n) && !n.Equals(l)
    {
      EqualsIsEquivalence(n, l, l, null);
    }
  }

  /** The scan of `getOrCreate`: the book of the registry matching the title and the author, if any. */
  method Find(registry: set<Livre>, titre: string, a: Auteurs.Auteur) returns (found: Livre?)
    ensures found != null ==> found in registry && Matches(found, titre, a)
    ensures found == null <==> !Known(registry, titre, a)
  {
    var rest := registry;
    while rest != {}
      invariant rest <= registry
      invariant forall l :: l in registry - rest ==> !Matches(l, titre, a)
      decreases rest
    {
      var l :| l in rest;
      if Matches(l, titre, a) {
        return l;
      }
      rest := rest - {l};
    }
    return null;
  }

  /**
   * `select`: the books of the registry whose lower-cased title contains the lower-cased
   * query. The empty query selects every book.
   */
  method Select(registry: set<Livre>, sub: string) returns (r: set<Livre>)
    ensures forall l :: l in r <==> l in registry && Contains(LowerStr(l.titre), LowerStr(sub))
    ensures sub == "" ==> r == registry
  {
    var low := LowerStr(sub);
    r := {};
    var rest := registry;
    while rest != {}
      invariant rest <= registry
      invariant forall l :: l in r <==> l in registry - rest && Contains(LowerStr(l.titre), low)
      decreases rest
    {
      var l :| l in rest;
      if Contains(LowerStr(l.titre), low) {
        r := r + {l};
      }
      rest := rest - {l};
    }
    if sub == "" {
      forall l | l in registry
        ensures Contains(LowerStr(l.titre), low)
      {
        ContainsBounds(LowerStr(l.titre), low);
      }
    }
  }

  /**
   * `selectParAuteur`: the books of the registry whose author is among the authors that
   * the author search selects.
   */
  method SelectParAuteur(registry: set<Livre>, authors: set<Auteurs.Auteur>, subNom: string, subPrenom: string)
    returns (r: set<Livre>)
    ensures forall l :: l in r <==>
              l in registry && l.auteur in authors && Auteurs.Selected(l.auteur, subNom, subPrenom)
    ensures subNom == "" && subPrenom == "" ==> r == set l | l in registry && l.auteur in authors
  {
    var candidats := Auteurs.Select(authors, subNom, subPrenom);
    r := {};
    var rest := registry;
    while rest != {}
      invariant rest <= registry
      invariant forall l :: l in r <==> l in registry - rest && l.auteur in candidats
      decreases rest
    {
      var l :| l in rest;
      if l.auteur in candidats {
        r := r + {l};
      }
      rest := rest - {l};
    }
  }

  /** The book carries a keyword of the keyword registry whose lower-cased word contains the lower-cased query. */
  ghost predicate TaggedWith(l: Livre, keywords: set<MotCles.MotCle>, sub: string)
    reads l
  {
    exists k :: k in l.motsCles && k in keywords && Contains(LowerStr(k.mot), LowerStr(sub))
  }

  /**
   * `selectParMotCle`: the books of the registry whose keyword set meets the keywords that
   * the keyword search selects.
   */
  method SelectParMotCle(registry: set<Livre>, keywords: set<MotCles.MotCle>, sub: string) returns (r: set<Livre>)
    ensures forall l :: l in r <==> l in registry && TaggedWith(l, keywords, sub)
  {
    var candidats := MotCles.Select(keywords, sub);
    r := {};
    var rest := registry;
    while rest != {}
      invariant rest <= registry
      invariant forall l :: l in r <==> l in registry - rest && l.motsCles * candidats != {}
      decreases rest
    {
      var l :| l in rest;
      if l.motsCles * candidats != {} {
        r := r + {l};
      }
      rest := rest - {l};
    }
    forall l | l in registry
      ensures l.motsCles * candidats != {} <==> TaggedWith(l, keywords, sub)
    {
      if TaggedWith(l, keywords, sub) {
        var k :| k in l.motsCles && k in keywords && Contains(LowerStr(k.mot), LowerStr(sub));
        assert k in l.motsCles * candidats;
      }
    }
  }

  /** The set of all books (`LIVRES`), with the keyword and author registries it draws on. */
  class LivreRegistry {
    const motsCles: MotCles.MotCleRegistry
    const auteurs: Auteurs.AuteurRegistry
    var all: set<Livre>

    /** No duplicate books, and every book's author and keywords are registered ones. */
    ghost predicate Valid()
      reads this, motsCles, auteurs, all
    {
      && motsCles.Valid()
      && auteurs.Valid()
      && Unique(all)
      && (forall l :: l in all ==> l.auteur in auteurs.all && l.motsCles <= motsCles.all)
    }

    constructor (motsCles: MotCles.MotCleRegistry, auteurs: Auteurs.AuteurRegistry)
      requires motsCles.Valid() && auteurs.Valid()
      ensures Valid() && all == {}
      ensures this.motsCles == motsCles && this.auteurs == auteurs
    {
      this.motsCles := motsCles;
      this.auteurs := auteurs;
      all := {};
    }

    /**
     * The private `getOrCreate(titre, nomAuteur, prenomAuteur, getOnly)`: nothing for a null
     * or empty title; otherwise the author is resolved by the CREATING author lookup, whatever
     * `getOnly` says, and nothing is returned if that fails; then the registered book with an
     * equal title and that author if there is one; otherwise nothing when `getOnly`, else a
     * new book with no keywords, added to the registry. `auteur` names the resolved author.
     */
    method Resolve(titre: Option<string>, nom: Option<string>, prenom: Option<string>, getOnly: bool)
      returns (l: Livre?, ghost auteur: Auteurs.Auteur?)
      requires Valid()
      modifies this, auteurs
      ensures Valid()
      ensures titre.None? || titre.value == "" ==>
                l == null && auteur == null && all == old(all) && auteurs.all == old(auteurs.all)
      ensures titre.Some? && titre.value != "" ==> AuthorResolved(old(auteurs.all), auteurs.all, nom, prenom, auteur)
      ensures auteur == null ==> l == null && all == old(all)
      ensures auteur != null && Known(old(all), titre.value, auteur) ==>
                l != null && l in old(all) && EqualsIgnoreCase(l.titre, titre.value) && l.auteur == auteur
                && all == old(all)
      ensures auteur != null && !Known(old(all), titre.value, auteur) && getOnly ==>
                l == null && all == old(all)
      ensures auteur != null && !Known(old(all), titre.value, auteur) && !getOnly ==>
                l != null && fresh(l) && l.titre == titre.value && l.auteur == auteur && l.motsCles == {}
                && all == old(all) + {l}
    {
      if titre.None? || titre.value == "" {
        return null, null;
      }
      var a := auteurs.GetOrCreate(nom, prenom);
      auteur := a;
      if a == null {
        return null, auteur;
      }
      l := Find(all, titre.value, a);
      if l != null {
        Auteurs.EqualsIsIdentity(auteurs.all, l.auteur, a);
        return;
      }
      if getOnly {
        return;
      }
      l := new Livre(titre.value, a);
      AddUnknownKeepsUnique(all, l);
      all := all + {l};
    }

    /** `getOrCreate(titre, nomAuteur, prenomAuteur)`: the book for the triple, created when none matches. */
    method GetOrCreate(titre: Option<string>, nom: Option<string>, prenom: Option<string>)
      returns (l: Livre?, ghost auteur: Auteurs.Auteur?)
      requires Valid()
      modifies this, auteurs
      ensures Valid()
      ensures titre.None? || titre.value == "" ==>
                l == null && auteur == null && all == old(all) && auteurs.all == old(auteurs.all)
      ensures titre.Some? && titre.value != "" ==> AuthorResolved(old(auteurs.all), auteurs.all, nom, prenom, auteur)
      ensures auteur == null ==> l == null && all == old(all)
      ensures auteur != null && Known(old(all), titre.value, auteur) ==>
                l != null && l in old(all) && EqualsIgnoreCase(l.titre, titre.value) && l.auteur == auteur
                && all == old(all)
      ensures auteur != null && !Known(old(all), titre.value, auteur) ==>
                l != null && fresh(l) && l.titre == titre.value && l.auteur == auteur && l.motsCles == {}
                && all == old(all) + {l}
    {
      l, auteur := Resolve(titre, nom, prenom, false);
    }

    /**
     * `get(titre, nomAuteur, prenomAuteur)`: the registered book for the triple, or null; it
     * never adds a book, but it resolves the author with the creating author lookup and so
     * may add an author.
     */
    method Get(titre: Option<string>, nom: Option<string>, prenom: Option<string>)
      returns (l: Livre?, ghost auteur: Auteurs.Auteur?)
      requires Valid()
      modifies this, auteurs
      ensures Valid() && all == old(all)
      ensures titre.None? || titre.value == "" ==> l == null && auteurs.all == old(auteurs.all)
      ensures titre.Some? && titre.value != "" ==> AuthorResolved(old(auteurs.all), auteurs.all, nom, prenom, auteur)
      ensures l == null <==> titre.None? || auteur == null || !Known(all, titre.value, auteur)
      ensures l != null ==> l in all && EqualsIgnoreCase(l.titre, titre.value) && l.auteur == auteur
    {
      l, auteur := Resolve(titre, nom, prenom, true);
    }

    /**
     * `addMotCle(mot)` on book `l`: the keyword is resolved by the creating keyword lookup;
     * false and no change for a null or empty word; otherwise the keyword joins the book's
     * set, and the result says whether it was not there before. `k` names the keyword.
     */
    method AddMotCle(l: Livre, mot: Option<string>) returns (added: bool, ghost k: MotCles.MotCle?)
      requires Valid() && l in all
      modifies l, motsCles
      ensures Valid()
      ensures k == null <==> mot.None? || mot.value == ""
      ensures k == null ==> !added && l.motsCles == old(l.motsCles) && motsCles.all == old(motsCles.all)
      ensures k != null ==>
                k in motsCles.all && EqualsIgnoreCase(k.mot, mot.value)
                && l.motsCles == old(l.motsCles) + {k} && (added <==> k !in old(l.motsCles))
      ensures k != null && MotCles.Known(old(motsCles.all), mot.value) ==> motsCles.all == old(motsCles.all)
      ensures k != null && !MotCles.Known(old(motsCles.all), mot.value) ==>
                fresh(k) && k.mot == mot.value && motsCles.all == old(motsCles.all) + {k}
      ensures added <==> mot.Some? && mot.value != "" && !MotCles.Known(old(l.motsCles), mot.value)
    {
      var m := motsCles.GetOrCreate(mot);
      k := m;
      if m == null {
        return false, k;
      }
      added := m !in l.motsCles;
      if MotCles.Known(old(l.motsCles), mot.value) {
        var j :| j in old(l.motsCles) && EqualsIgnoreCase(j.mot, mot.value);
        MotCles.MatchIsUnique(motsCles.all, mot.value, m, j);
      }
      l.motsCles := l.motsCles + {m};
    }
  }

  /**
   * What the creating author lookup did, from the registry before to the registry after,
   * with `a` the author it returned.
   */
  ghost predicate AuthorResolved(
    before: set<Auteurs.Auteur>, after: set<Auteurs.Auteur>,
    nom: Option<string>, prenom: Option<string>, a: Auteurs.Auteur?)
  {
    && (nom.None? || nom.value == "" || prenom.None? ==> a == null && after == before)
    && (nom.Some? && prenom.Some? && Auteurs.Known(before, nom.value, prenom.value) ==>
          a != null && a in before && Auteurs.Matches(a, nom.value, prenom.value) && after == before)
    && (nom.Some? && nom.value != "" && prenom.Some? && !Auteurs.Known(before, nom.value, prenom.value) ==>
          a != null && a !in before && a.nom == nom.value && a.prenom == prenom.value && after == before + {a})
  }
}
