/**
 * Keywords (`MotCle`): words unique up to case, held in a registry that only grows.
 */
module MotCles {
  import opened Wrappers
  import opened CaseText

  /** A keyword; its word never changes. */
  class MotCle {
    const mot: NonEmptyString

    constructor (mot: NonEmptyString)
      ensures this.mot == mot
    {
      this.mot := mot;
    }

    /**
     * `equals`: another keyword whose word is equal ignoring case; false for anything else.
     * A keyword equals itself, and equal keywords have the same word once lower-cased.
     */
    predicate Equals(obj: object?): (r: bool)
      ensures obj == this ==> r
      ensures r ==> obj is MotCle && LowerStr(mot) == LowerStr((obj as MotCle).mot)
    {
      obj is MotCle
      && (EqualsIgnoreCaseIffSameLower(mot, (obj as MotCle).mot);
          EqualsIgnoreCase(mot, (obj as MotCle).mot))
    }

    /** `toString`: the word upper-cased. */
    function ToString(): (r: string)
      ensures |r| == |mot|
      ensures UpperStr(r) == r
      ensures EqualsIgnoreCase(r, mot)
    {
      UpperStrEqualsIgnoreCase(mot);
      UpperStr(mot)
    }
  }

  /** `equals` on keywords is reflexive, symmetric and transitive, and false for non-keywords. */
  lemma EqualsIsEquivalence(a: MotCle, b: MotCle, c: MotCle, other: object?)
    requires !(other is MotCle)
    ensures a.Equals(a)
    ensures a.Equals(b) ==> b.Equals(a)
    ensures a.Equals(b) && b.Equals(c) ==> a.Equals(c)
    ensures !a.Equals(other)
  {
    EqualsIgnoreCaseIsEquivalence(a.mot, b.mot, c.mot);
  }

  /** Keywords that are equal display the same: "roman" and "ROMAN" both display as "ROMAN". */
  lemma EqualsSameToString(a: MotCle, b: MotCle)
    requires a.Equals(b)
    ensures a.ToString() == b.ToString()
  {
    EqualsIgnoreCaseSameUpper(a.mot, b.mot);
  }

  /** No two keywords of the registry are equal. */
  ghost predicate Unique(registry: set<MotCle>) {
    forall m, n :: m in registry && n in registry && m.Equals(n) ==> m == n
  }

  /** Some keyword of the registry has the given word, ignoring case. */
  ghost predicate Known(registry: set<MotCle>, mot: string) {
    exists m :: m in registry && EqualsIgnoreCase(m.mot, mot)
  }

  /** In a registry without duplicates, at most one keyword matches a word. */
  lemma MatchIsUnique(registry: set<MotCle>, mot: string, m: MotCle, n: MotCle)
    requires Unique(registry)
    requires m in registry && EqualsIgnoreCase(m.mot, mot)
    requires n in registry && EqualsIgnoreCase(n.mot, mot)
    ensures m == n
  {
    EqualsIgnoreCaseIsEquivalence(m.mot, mot, n.mot);
    EqualsIgnoreCaseIsEquivalence(mot, n.mot, m.mot);
  }

  /** Adding a keyword whose word matches none of the registry keeps the registry free of duplicates. */
  lemma AddUnknownKeepsUnique(registry: set<MotCle>, m: MotCle)
    requires Unique(registry) && !Known(registry, m.mot)
    ensures Unique(registry + {m})
  {
    forall n: MotCle | n in registry
      ensures !m.Equals(n) && !n.Equals(m)
    {
      EqualsIgnoreCaseIsEquivalence(n.mot, m.mot, m.mot);
    }
  }

  /** The scan of `getOrCreate`: the keyword of the registry equal to `mot` ignoring case, if any. */
  method Find(registry: set<MotCle>, mot: string) returns (found: MotCle?)
    ensures found != null ==> found in registry && EqualsIgnoreCase(found.mot, mot)
    ensures found == null <==> !Known(registry, mot)
  {
    var rest := registry;
    while rest != {}
      invariant rest <= registry
      invariant forall m :: m in registry - rest ==> !EqualsIgnoreCase(m.mot, mot)
      decreases rest
    {
      var m :| m in rest;
      if EqualsIgnoreCase(m.mot, mot) {
        return m;
      }
      rest := rest - {m};
    }
    return null;
  }

  /** Searching with a keyword's own word, in any case, selects that keyword. */
  lemma SelectedByOwnWord(m: MotCle, mot: string)
    requires EqualsIgnoreCase(m.mot, mot)
    ensures Contains(LowerStr(m.mot), LowerStr(mot))
  {
    EqualsIgnoreCaseIffSameLower(m.mot, mot);
    ContainsSlice(LowerStr(m.mot), 0, |m.mot|);
    assert LowerStr(m.mot)[0..|m.mot|] == LowerStr(m.mot);
  }

  /**
   * `select`: the keywords of the registry whose lower-cased word contains the lower-cased
   * query. The empty query selects every keyword; a query longer than a word never selects it.
   */
  method Select(registry: set<MotCle>, sub: string) returns (r: set<MotCle>)
    ensures forall m :: m in r <==> m in registry && Contains(LowerStr(m.mot), LowerStr(sub))
    ensures sub == "" ==> r == registry
    ensures forall m :: m in r ==> |sub| <= |m.mot|
  {
    var low := LowerStr(sub);
    r := {};
    var rest := registry;
    while rest != {}
      invariant rest <= registry
      invariant forall m :: m in r <==> m in registry - rest && Contains(LowerStr(m.mot), low)
      decreases rest
    {
      var m :| m in rest;
      if Contains(LowerStr(m.mot), low) {
        r := r + {m};
      }
      rest := rest - {m};
    }
    if sub == "" {
      forall m | m in registry
        ensures Contains(LowerStr(m.mot), low)
      {
        ContainsBounds(LowerStr(m.mot), low);
      }
    }
    forall m | m in r
      ensures |sub| <= |m.mot|
    {
      ContainsBounds(LowerStr(m.mot), low);
    }
  }

  /** The set of all keywords (`MOTSCLES`). */
  class MotCleRegistry {
    var all: set<MotCle>

    ghost predicate Valid()
      reads this
    {
      Unique(all)
    }

    constructor ()
      ensures Valid() && all == {}
    {
      all := {};
    }

    /**
     * The private `getOrCreate(mot, getOnly)`: nothing for a null or empty word; the
     * registered keyword equal to it ignoring case if there is one; otherwise nothing when
     * `getOnly`, else a new keyword holding `mot`, added to the registry.
     */
    method Resolve(mot: Option<string>, getOnly: bool) returns (m: MotCle?)
      requires Valid()
      modifies this
      ensures Valid()
      ensures mot.None? || mot.value == "" ==> m == null && all == old(all)
      ensures mot.Some? && Known(old(all), mot.value) ==>
                m != null && m in old(all) && EqualsIgnoreCase(m.mot, mot.value) && all == old(all)
      ensures mot.Some? && mot.value != "" && !Known(old(all), mot.value) && getOnly ==>
                m == null && all == old(all)
      ensures mot.Some? && mot.value != "" && !Known(old(all), mot.value) && !getOnly ==>
                m != null && fresh(m) && m.mot == mot.value && all == old(all) + {m}
    {
      if mot.None? || mot.value == "" {
        return null;
      }
      m := Find(all, mot.value);
      if m != null || getOnly {
        return;
      }
      m := new MotCle(mot.value);
      AddUnknownKeepsUnique(all, m);
      all := all + {m};
    }

    /** `getOrCreate(mot)`: the keyword for `mot`, created and registered when none matches. */
    method GetOrCreate(mot: Option<string>) returns (m: MotCle?)
      requires Valid()
      modifies this
      ensures Valid()
      ensures mot.None? || mot.value == "" ==> m == null && all == old(all)
      ensures mot.Some? && Known(old(all), mot.value) ==>
                m != null && m in old(all) && EqualsIgnoreCase(m.mot, mot.value) && all == old(all)
      ensures mot.Some? && mot.value != "" && !Known(old(all), mot.value) ==>
                m != null && fresh(m) && m.mot == mot.value && all == old(all) + {m}
    {
      m := Resolve(mot, false);
    }

    /** `get(mot)`: the registered keyword for `mot`, or null; never adds a keyword. */
    method Get(mot: Option<string>) returns (m: MotCle?)
      ensures m == null <==> mot.None? || !Known(all, mot.value)
      ensures m != null ==> m in all && EqualsIgnoreCase(m.mot, mot.value)
    {
      if mot.None? || mot.value == "" {
        return null;
      }
      m := Find(all, mot.value);
    }
  }
}
