# liborga catalogue, modelled in Dafny

The library organiser `liborga` keeps three registries in memory:

- **keywords** (`MotCle`): one word each, unique up to case;
- **authors** (`Auteur`): a surname and a first name, unique up to case on both;
- **books** (`Livre`): a title and an author, unique up to case on the title and author
  equality. Each book has a keyword set that only grows.

Each registry offers the same operations. `getOrCreate` returns the registered entry that
equals the input, or creates and registers a new one. `get` returns the registered entry
or `null`. `select` is a case-insensitive substring search. The entities also have
`equals` and a display form (`toString`). Creating a book resolves its author through the
author registry. Tagging a book resolves the keyword through the keyword registry. Books
can also be searched by author and by keyword, by composing the searches.

## Layout

- `wrappers.dfy`, module `Wrappers`: `Option`. A Java `null` string argument is `None`.
- `case_text.dfy`, module `CaseText`: Java's character and string case mapping,
  `equalsIgnoreCase`, `contains`, and the capitalized form used by the display strings.
- `mot_cle.dfy`, module `MotCles`: class `MotCle` and its registry class `MotCleRegistry`
  (the static set `MOTSCLES`).
- `auteur.dfy`, module `Auteurs`: class `Auteur` and `AuteurRegistry` (`AUTEURS`).
- `livre.dfy`, module `Livres`: class `Livre` and `LivreRegistry` (`LIVRES`). The book
  registry holds the keyword and author registries it draws on.
- `scenario.dfy`, module `Scenario`: clients that chain several calls, and facts about
  the sample catalogue of the demonstration driver.

Each Java class keeps its static registry in a registry object of its own. The methods
that change a registry (`Resolve`, `GetOrCreate`, `addMotCle`) belong to that object, and
their `ensures` give the new registry in terms of the old one. Every registry object keeps
the invariant `Valid()`: no two entries are equal under the entity's `equals`. The book
registry's invariant also says that every book's author and keywords are registered ones.
The linear scans of the source are module-level methods over the registry's set: `Find`
(the loop of `getOrCreate`), `Select`, `SelectParAuteur` and `SelectParMotCle`. Each is
proved against its specification with loop invariants. Java `null` results are `null`
references (`MotCle?`, `Auteur?`, `Livre?`).

Two behaviours of the code are worth knowing:

- `Livre.get` resolves the author with the *creating* `Auteur.getOrCreate`
  (`liborga/Livre.java:117`), whatever its `getOnly` flag says. So a get-only book lookup
  never adds a book, but it can add an author. `Livres.LivreRegistry.Get` models this, and
  its contract says which author it may add.
- `Livre.toString` lower-cases everything after the first letter of the title
  (`liborga/Livre.java:183`). The expected output recorded in `liborga/Test.java:44-57`
  prints titles with their stored case (`"Marie Tudor" (HUGO Victor)`). The code gives
  `"Marie tudor" (HUGO Victor)`. The model follows the code; `Scenario.TudorDisplay` states
  that display.

## Model

| member | source | states |
|---|---|---|
| CaseText.UpperStr | liborga/MotCle.java:125 | `toUpperCase` keeps the length and upper-cases every character in place |
| CaseText.LowerStr | liborga/MotCle.java:155 | `toLowerCase` keeps the length and lower-cases every character in place |
| CaseText.EqualsIgnoreCaseIffSameLower | liborga/MotCle.java:134 | `equalsIgnoreCase`, compared character by character as Java does, holds exactly when the two lower-cased strings are equal (both directions) |
| CaseText.EqualsIgnoreCaseIsEquivalence | liborga/Auteur.java:155 | `equalsIgnoreCase` is reflexive, symmetric and transitive |
| CaseText.EqualsIgnoreCaseSameUpper | liborga/MotCle.java:125 | strings equal ignoring case upper-case to the same string |
| CaseText.ContainsBounds | liborga/MotCle.java:155 | every string contains the empty query; a contained query is no longer than the string |
| CaseText.UpperStrEqualsIgnoreCase | liborga/MotCle.java:125 | an upper-cased string is equal to the original ignoring case, and upper-casing it again changes nothing |
| CaseText.CapitalizedEqualsIgnoreCase | liborga/Auteur.java:138 | a capitalized non-empty string is equal to the original ignoring case |
| CaseText.ContainsSlice | liborga/MotCle.java:155 | a string contains each of its slices, itself included |
| CaseText.Capitalized | liborga/Auteur.java:138 | first character upper-cased and the rest lower-cased: same length, same lower-cased form as the input, already in that form |
| CaseText.EqualsIgnoreCaseSameCapitalized | liborga/Auteur.java:138 | strings equal ignoring case capitalize to the same string |
| MotCles.MotCle.constructor | liborga/MotCle.java:33-35 | a new keyword holds the given non-empty word |
| MotCles.MotCle.Equals | liborga/MotCle.java:129-136 | `equals` holds for the keyword itself, and only for keywords whose word has the same lower-cased form |
| MotCles.MotCle.ToString | liborga/MotCle.java:122-126 | the display is the word upper-cased: same length, equal to the word ignoring case, unchanged by upper-casing |
| MotCles.EqualsIsEquivalence | liborga/MotCle.java:128-136 | keyword `equals` is reflexive, symmetric and transitive, and false for anything that is not a keyword |
| MotCles.EqualsSameToString | liborga/MotCle.java:122-136 | equal keywords display the same ("roman" and "ROMAN" display "ROMAN") |
| MotCles.MatchIsUnique | liborga/MotCle.java:69-71 | in a registry without duplicates, at most one keyword matches a word ignoring case |
| MotCles.AddUnknownKeepsUnique | liborga/MotCle.java:68-75 | adding a keyword that matches no registered keyword keeps the registry free of duplicates |
| MotCles.Find | liborga/MotCle.java:69-71 | the scan returns a registered keyword equal to the word ignoring case, and returns null exactly when there is none |
| MotCles.SelectedByOwnWord | liborga/MotCle.java:149-160 | searching with a keyword's own word, in any case, matches that keyword |
| MotCles.Select | liborga/MotCle.java:149-160 | `select` returns exactly the registered keywords whose lower-cased word contains the lower-cased query; the empty query returns the whole registry; no selected word is shorter than the query |
| MotCles.MotCleRegistry.constructor | liborga/MotCle.java:17 | the keyword registry starts empty and without duplicates |
| MotCles.MotCleRegistry.Resolve | liborga/MotCle.java:64-76 | null or empty word: null and no change. A registered match: that keyword and no change. No match: null if get-only, else one fresh keyword holding the word, added to the registry. The registry keeps no duplicates |
| MotCles.MotCleRegistry.GetOrCreate | liborga/MotCle.java:96-98 | as `Resolve` with creation: the existing keyword for any spelling of the word, or a fresh registered one |
| MotCles.MotCleRegistry.Get | liborga/MotCle.java:116-118 | null exactly for a null word or when no keyword matches; otherwise the registered match. It cannot change the registry |
| Auteurs.Auteur.constructor | liborga/Auteur.java:39-42 | a new author holds the given non-empty surname and first name |
| Auteurs.Auteur.Equals | liborga/Auteur.java:146-157 | `equals` holds for the author itself, and only for authors whose surname and first name have the same lower-cased forms |
| Auteurs.Auteur.ToString | liborga/Auteur.java:133-143 | the display starts with the surname, upper-cased and equal to it ignoring case; it is exactly that long when the first name is empty; otherwise a space and the first name, equal to it ignoring case, follow |
| Auteurs.Display | liborga/Auteur.java:133-143 | the display starts with the upper-cased surname. It is the surname alone for an empty first name, otherwise the surname, a space and the capitalized first name |
| Auteurs.EqualsIsEquivalence | liborga/Auteur.java:146-157 | author `equals` is reflexive, symmetric and transitive, and false for anything that is not an author |
| Auteurs.EqualsSameToString | liborga/Auteur.java:133-157 | equal authors display the same (("HUGO", "victor") and ("Hugo", "Victor") give "HUGO Victor") |
| Auteurs.MatchIsUnique | liborga/Auteur.java:77-79 | in a registry without duplicates, at most one author matches a (surname, first name) pair ignoring case |
| Auteurs.EqualsIsIdentity | liborga/Auteur.java:146-157 | between authors of a registry without duplicates, `equals` is identity |
| Auteurs.AddUnknownKeepsUnique | liborga/Auteur.java:76-83 | adding an author that matches no registered author keeps the registry free of duplicates |
| Auteurs.Find | liborga/Auteur.java:77-79 | the scan returns a registered author equal on both fields ignoring case, and returns null exactly when there is none |
| Auteurs.SelectedByOwnName | liborga/Auteur.java:172-184 | searching with an author's own names, in any case, selects that author |
| Auteurs.Select | liborga/Auteur.java:172-184 | `select` returns exactly the registered authors whose lower-cased surname contains the first query and whose lower-cased first name contains the second; two empty queries return the whole registry |
| Auteurs.AuteurRegistry.constructor | liborga/Auteur.java:17 | the author registry starts empty and without duplicates |
| Auteurs.AuteurRegistry.Resolve | liborga/Auteur.java:72-84 | null or empty surname, or null first name (an empty first name is accepted): null and no change. A registered match: that author and no change. No match: null if get-only, else one fresh author, added to the registry. The registry keeps no duplicates |
| Auteurs.AuteurRegistry.GetOrCreate | liborga/Auteur.java:105-107 | as `Resolve` with creation |
| Auteurs.AuteurRegistry.Get | liborga/Auteur.java:126-128 | null exactly for invalid names or when no author matches; otherwise the registered match. It cannot change the registry |
| Livres.Livre.constructor | liborga/Livre.java:54-58 | a new book has the given non-empty title and author and an empty keyword set. Title and author are constants |
| Livres.Livre.GetMotsCles | liborga/Livre.java:67-69 | the keywords of the book, as the set stands at the call (no contract: it reads the field) |
| Livres.Livre.Equals | liborga/Livre.java:187-199 | `equals` holds for the book itself, and only for books with the same lower-cased title and an author equal in both directions |
| Livres.Livre.ToString | liborga/Livre.java:180-185 | the display is the title between double quotes, equal to it ignoring case, then `" (`, the author's display and `)` |
| Livres.Display | liborga/Livre.java:180-185 | the display is a double quote, the capitalized title, `" (`, the author's display and `)` |
| Livres.DisplayKeepsTitle | liborga/Livre.java:183 | the title can be read back from the display, up to case |
| Livres.EqualsIsEquivalence | liborga/Livre.java:187-199 | book `equals` is reflexive, symmetric and transitive, and false for anything that is not a book |
| Livres.EqualsIffSameTitleAndAuthor | liborga/Livre.java:197 | with registered authors, two books are equal exactly when their titles are equal ignoring case and they have the same author object |
| Livres.EqualsSameToString | liborga/Livre.java:180-199 | equal books display the same |
| Livres.AddUnknownKeepsUnique | liborga/Livre.java:121-126 | adding a book that matches no registered book keeps the registry free of duplicates |
| Livres.Find | liborga/Livre.java:121-123 | the scan returns a registered book whose title is equal ignoring case and whose author is equal, and returns null exactly when there is none |
| Livres.Select | liborga/Livre.java:211-222 | `select` returns exactly the registered books whose lower-cased title contains the lower-cased query; the empty query returns the whole registry |
| Livres.SelectParAuteur | liborga/Livre.java:224-235 | exactly the registered books whose author is in the author registry and is selected by the author search |
| Livres.SelectParMotCle | liborga/Livre.java:245-255 | exactly the registered books that carry a registered keyword whose lower-cased word contains the lower-cased query |
| Livres.LivreRegistry.constructor | liborga/Livre.java:19 | the book registry starts empty over the given keyword and author registries |
| Livres.LivreRegistry.Resolve | liborga/Livre.java:114-128 | null or empty title: null and no change. Otherwise the author is resolved by the creating author lookup, even when get-only. Invalid author names give null. A registered book with an equal title and that same author is returned with no change to the books. Otherwise: null if get-only, else a fresh book with no keywords, added to the registry |
| Livres.LivreRegistry.GetOrCreate | liborga/Livre.java:151-153 | as `Resolve` with creation |
| Livres.LivreRegistry.Get | liborga/Livre.java:174-176 | never adds a book, but may add the author it resolves. Returns null exactly when the title is invalid, the author is invalid, or no book matches |
| Livres.LivreRegistry.AddMotCle | liborga/Livre.java:78-84 | null or empty word: false and no change. Otherwise the canonical keyword joins the book's set, and the result is true exactly when no keyword of the book already matched the word. Only that book and the keyword registry change |
| Scenario.SameAuthorAnySpelling | liborga/Test.java:7-13 | two books created with spellings of one author that differ only in case share one author object, and are one book exactly when their titles are equal ignoring case |
| Scenario.TagTwice | liborga/Livre.java:78-84 | tagging a book twice with one word in two casings: the second call returns false and the keyword set grows by at most one |
| Scenario.HugoSpellings | liborga/Test.java:7-13 | "HUGO"/"victor" equals "Hugo"/"Victor" ignoring case |
| Scenario.TheatreSpellings | liborga/Test.java:56 | the keyword printed "THÉATRE" equals the word "théatre" added at lines 14 and 21, ignoring case, in Latin-1 |
| Scenario.MoliereDisplay | liborga/Test.java:44-57 | the author ("Molière", "") displays "MOLIÈRE"; ("HUGO", "victor") displays "HUGO Victor" |
| Scenario.TudorDisplay | liborga/Livre.java:183 | the book "Marie Tudor" by HUGO Victor displays `"Marie tudor" (HUGO Victor)` |

## Left out

- Case mapping covers Basic Latin and Latin-1 only, where each cased letter maps to the
  letter 32 code points away. U+00B5, U+00DF, U+00FF and every character above U+00FF are
  caseless here. Java maps some of them outside Latin-1 or to two characters. Locales are
  not modelled either.
- Hashing and iteration order of `HashSet`: registries and search results are Dafny sets
  of object references. A `HashSet` finds an element by `hashCode` and then `equals`. None
  of the Java classes overrides `hashCode`, so the identity hash decides first. Every set
  holds canonical entries that are pairwise not equal. So membership behaves as identity
  here, and identity is what the sets model. The printed order of results is not modelled.
- A `null` query passed to `select`, `selectParAuteur` or `selectParMotCle` raises
  `NullPointerException` in the source. Here the query is a plain string, so that case
  cannot arise.
- Livres.Livre.GetMotsCles: returns the keyword set as it stands at the call. The source
  returns `Collections.unmodifiableSet`, a live read-only view that also shows keywords added
  later by `addMotCle`; the model returns a snapshot instead.
- Livre.motsCles is private in the source, so only `addMotCle` can write it and the set can
  only grow. Here it is a public `var`: in this project only `LivreRegistry.AddMotCle`
  writes it, but Dafny does not prevent another method with `modifies l` from assigning it,
  even a smaller set.
- `addMotCle` is an instance method of `Livre` in the source. Here it is
  `LivreRegistry.AddMotCle(l, mot)`, because it needs the keyword registry and the registry
  invariant that covers the book.
- The source builds a throw-away candidate object (`new MotCle(mot)`, `new Auteur(...)`,
  `new Livre(...)`) before each scan, even when it then returns an existing entry. That
  allocation cannot be observed and is not modelled. The source calls the registered
  entry's `equals` with the candidate as argument (MotCle.java:70, Auteur.java:78,
  Livre.java:122); the scan here compares the registered entry's fields with the
  arguments directly, which is what that call decides.
- Process-wide static registries and the absence of locking: the registries are explicit
  objects, and the model is sequential.
- The demonstration driver `liborga/Test.java` and its printing are not part of this model.
  Its sample data and expected output appear only in the `Scenario` facts.
- `toString` of whole result sets, as printed by the driver, is not modelled.
