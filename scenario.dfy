/**
 * Clients of the three registries: what a sequence of calls guarantees, and the answers the
 * registries give for part of the sample catalogue of the demonstration driver.
 */
module Scenario {
  import opened Wrappers
  import opened CaseText
  import MotCles
  import Auteurs
  import Livres

  /** Two books created with spellings of one author that differ only in case share one author. */
  method SameAuthorAnySpelling(
    livres: Livres.LivreRegistry,
    titre1: NonEmptyString, nom1: NonEmptyString, prenom1: string,
    titre2: NonEmptyString, nom2: string, prenom2: string)
    returns (l1: Livres.Livre, l2: Livres.Livre)
    requires livres.Valid()
    requires EqualsIgnoreCase(nom1, nom2) && EqualsIgnoreCase(prenom1, prenom2)
    modifies livres, livres.auteurs
    ensures livres.Valid()
    ensures l1 in livres.all && l2 in livres.all && l1.auteur == l2.auteur
    ensures EqualsIgnoreCase(titre1, titre2) <==> l1 == l2
  {
    var b1: Livres.Livre?;
    var b2: Livres.Livre?;
    ghost var a1: Auteurs.Auteur?;
    ghost var a2: Auteurs.Auteur?;
    b1, a1 := livres.GetOrCreate(Some(titre1), Some(nom1), Some(prenom1));
    EqualsIgnoreCaseIsEquivalence(nom1, nom2, nom2);
    EqualsIgnoreCaseIsEquivalence(prenom1, prenom2, prenom2);
    assert Auteurs.Matches(a1, nom2, prenom2);
    assert a1 in livres.auteurs.all;
    b2, a2 := livres.GetOrCreate(Some(titre2), Some(nom2), Some(prenom2));
    Auteurs.MatchIsUnique(livres.auteurs.all, nom2, prenom2, a1, a2);
    l1, l2 := b1, b2;
    EqualsIgnoreCaseIsEquivalence(l1.titre, titre1, titre2);
    EqualsIgnoreCaseIsEquivalence(titre1, titre2, l2.titre);
    if EqualsIgnoreCase(titre1, titre2) {
      assert Livres.Matches(l1, titre2, a2);
    }
  }

  /**
   * Tagging a book twice with spellings of one word that differ only in case: the second
   * call reports nothing new and leaves the book's keywords as the first call left them.
   */
  method TagTwice(livres: Livres.LivreRegistry, l: Livres.Livre, mot1: NonEmptyString, mot2: string)
    returns (added1: bool, added2: bool)
    requires livres.Valid() && l in livres.all
    requires EqualsIgnoreCase(mot1, mot2)
    modifies l, livres.motsCles
    ensures livres.Valid()
    ensures added1 <==> !MotCles.Known(old(l.motsCles), mot1)
    ensures !added2
    ensures |l.motsCles| == |old(l.motsCles)| + (if added1 then 1 else 0)
  {
    ghost var k1: MotCles.MotCle?;
    ghost var k2: MotCles.MotCle?;
    added1, k1 := livres.AddMotCle(l, Some(mot1));
    ghost var afterFirst := l.motsCles;
    if added1 {
      assert afterFirst == old(l.motsCles) + {k1} && k1 !in old(l.motsCles);
    } else {
      assert afterFirst == old(l.motsCles);
    }
    EqualsIgnoreCaseIsEquivalence(k1.mot, mot1, mot2);
    assert MotCles.Known(l.motsCles, mot2);
    added2, k2 := livres.AddMotCle(l, Some(mot2));
    assert l.motsCles == afterFirst;
  }

  /** ("HUGO", "victor") designates the author created as ("Hugo", "Victor"). */
  lemma HugoSpellings()
    ensures EqualsIgnoreCase("Hugo", "HUGO") && EqualsIgnoreCase("Victor", "victor")
  {
    EqualsIgnoreCaseIffSameLower("Hugo", "HUGO");
    EqualsIgnoreCaseIffSameLower("Victor", "victor");
  }

  /** "THÉATRE" designates the keyword created as "théatre". */
  lemma TheatreSpellings()
    ensures EqualsIgnoreCase("théatre", "THÉATRE")
  {
    EqualsIgnoreCaseIffSameLower("théatre", "THÉATRE");
  }

  /** An author without first name displays as the surname alone. */
  lemma MoliereDisplay()
    ensures Auteurs.Display("Molière", "") == "MOLIÈRE"
    ensures Auteurs.Display("HUGO", "victor") == "HUGO Victor"
  {
  }

  lemma TudorCapitalized()
    ensures Capitalized("Marie Tudor") == "Marie tudor"
  {
  }

  /** A 27-character string is the display of "Marie Tudor" by "HUGO Victor" when its pieces are. */
  lemma TudorPieces(r: string)
    requires |r| == 27 && r[0] == '"' && r[1..12] == "Marie tudor" && r[12..15] == "\" ("
    requires r[15..26] == "HUGO Victor" && r[26] == ')'
    ensures r == "\"Marie tudor\" (HUGO Victor)"
  {
    assert r == r[..1] + r[1..12] + r[12..15] + r[15..26] + r[26..];
  }

  /** The display form of a book lower-cases its title after the first letter. */
  lemma TudorDisplay()
    ensures Livres.Display("Marie Tudor", "HUGO Victor") == "\"Marie tudor\" (HUGO Victor)"
  {
    TudorCapitalized();
    TudorPieces(Livres.Display("Marie Tudor", "HUGO Victor"));
  }
}
