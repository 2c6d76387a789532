# Bottin: a verified model of a phone directory

This project models the phone directory `TP3::Bottin` (Bottin.h, Bottin.cpp).
The directory keeps three pieces of state:

- an append-only vector of records (`Entree`: last name, first name, fixed-line
  phone, mobile phone, e-mail);
- two indices that map a key to a position in that vector, one keyed by
  `nom + prenom`, one keyed by the fixed-line phone;
- an entry counter.

Records are added only through `ajouter`. `ajouter` validates its five fields and
refuses a duplicate key before it changes anything. Records are read through two
lookups. The file constructor reads one line per person. It splits the name on
the first `", "`, deletes the punctuation of both phone numbers, and calls
`ajouter`.

Modules, one per part of the program:

- `Resultats` (resultats.dfy): the error kinds and the `Option`/`Result`/`Outcome`
  wrappers. Each throw of the source becomes an error value:
  - a failed PRECONDITION becomes `ErreurPrecondition`;
  - the explicit "introuvable" throw of a lookup becomes `EntreeIntrouvable`;
  - the `std::out_of_range` of `substr` becomes `HorsLimites`.
- `Entrees` (entree.dfy): the record `Entree` as a datatype. Its constructor
  stores the five arguments unchanged, like the C++ constructor at Bottin.h:69-72.
  The module also holds:
  - the composite key `nom + prenom`;
  - the digit and field checks of `ajouter`;
  - `Admissible`, the condition under which `ajouter` accepts a record, stated
    over the records alone.
- `Lecture` (lecture.dfy): the two string steps of the file constructor.
  - Phone normalisation is an in-place compaction of a `char` array (the
    `remove_if`), followed by truncation (the `erase`). It is proved equal to
    the reference function `SansSeparateurs`.
  - The name split models `find(", ")` and the two `substr` calls.
- `Bottins` (bottin.dfy): the class `Bottin`.
  - Its fields are the vector (`seq<Entree>`), the two indices
    (`map<string, nat>`), the counter and the table size.
  - `Valid()` is the directory invariant.
  - `Ajouter` is the imperative insertion. `ChargerLignes` is the constructor's
    loop. Both are proved against specifications.
  - The lookups are functions.

The two indices are modelled by what the directory uses of them. `contient(k)` is
`k in m`, `element(k)` is `m[k]`, and `inserer(k, v)` on an absent key is
`m[k := v]`.

The composite key has no separator, so `("A", "BC")` and `("AB", "C")` share a key.
This is modelled as written. `TrouverAvecNomPrenom` promises a record whose
*concatenated* key matches, not one whose two name fields match.

On these points the model follows the code:

- Every failure of `ajouter` is the same precondition error (Bottin.cpp:69-75). A
  malformed field and a duplicate key are not reported as different kinds.
- The file constructor splits names and strips phones itself. It does not receive
  pre-validated tuples.
- Bottin.cpp gives table size 0 no special error.

## Model

| member | source | states |
|---|---|---|
| `Entrees.AdmissibleConserveUnicite` | Bottin.cpp:74-76 | accepting a record whose name key and fixed phone are both unused keeps all keys of the directory unique |
| `Lecture.SansSeparateursConcat` | Bottin.cpp:41-47 | phone normalisation distributes over concatenation: it treats each character on its own and keeps the order of what it keeps |
| `Lecture.SansSeparateursMultiset` | Bottin.cpp:41-47 | normalisation removes exactly `(`, `)`, `-` and space; every other character occurs as many times as before |
| `Lecture.SansSeparateursIdentite` | Bottin.cpp:41-47 | a string without those four characters is left unchanged |
| `Lecture.SansSeparateursIdempotent` | Bottin.cpp:41-47 | normalising twice gives the same result as normalising once |
| `Lecture.DixChiffresInchanges` | Bottin.cpp:41-47 | a well-formed ten-digit number (the form `ajouter` demands at lines 72-73) is not altered by normalisation |
| `Lecture.SupprimerSeparateurs` | Bottin.cpp:41-43 | the in-place `remove_if` moves the kept characters, in order, to the front of the array and returns how many there are; that prefix is the normalised string |
| `Lecture.NormaliserTelephone` | Bottin.cpp:41-47 | `remove_if` followed by `erase` yields exactly the normalised string |
| `Lecture.TrouverSeparateur` | Bottin.cpp:37 | `find(", ")` returns the first position where `", "` starts, with none before it, or none (npos) when there is no such position |
| `Lecture.SousChaineDepuis` | Bottin.cpp:39 | `substr(debut)` succeeds exactly when `debut <= size()`, returning the rest of the string, and otherwise fails with `out_of_range` |
| `Lecture.SeparerNomPrenom` | Bottin.cpp:37-39 | when `", "` occurs, nom + ", " + prenom rebuilds the input and nom holds no `", "`; when it is absent, the npos + 2 wrap gives nom = whole string and prenom = all but the first character, or `out_of_range` on the empty string |
| `Lecture.PrefixeAvantSeparateur` | Bottin.cpp:37-39 | the text before and after the first `", "` rebuilds the string, and the text before holds no `", "` |
| `Lecture.SeparerJoindre` | Bottin.cpp:37-39 | splitting inverts joining: when nom holds no `", "`, splitting nom + ", " + prenom gives back (nom, prenom) |
| `Lecture.EntreeDeLigne` | Bottin.cpp:32-49 | a line yields a record exactly when its name field is non-empty, and otherwise fails with `out_of_range`; the record's names are the result of the name split (so they rebuild the name field when it contains `", "`), its phones are the normalised phones and its e-mail is unchanged |
| `Bottins.AjoutConserveCoherence` | Bottin.cpp:76-90 | appending a valid record with fresh keys and indexing it at position old size under both keys preserves the directory invariant |
| `Bottins.Bottin.constructor` | Bottin.cpp:20-21 | the table size defaults to 100 (Bottin.h:37); the new directory has no records, both indices are empty, the count is 0, and the invariant holds |
| `Bottins.Bottin.ClesUniquesSiValide` | Bottin.h:81-84 | in a valid directory, no two records share a name key or a fixed phone |
| `Bottins.Bottin.IndicesRefletentEntrees` | Bottin.cpp:74-75 | an index contains a key exactly when some record carries it, so the index checks of `ajouter` decide `Admissible` |
| `Bottins.Bottin.EntreesTrouvables` | Bottin.cpp:103-134 | every stored record is returned by `TrouverAvecNomPrenom` on its own names and by `TrouverAvecTelephone` on its own fixed phone |
| `Bottins.Bottin.CleSansSeparateur` | Bottin.cpp:106-114 | any non-empty split of a stored record's concatenated key, such as ("AB", "C") for a record stored as ("A", "BC"), makes `TrouverAvecNomPrenom` return that record |
| `Bottins.Bottin.NombreEntrees` | Bottin.cpp:150-152 | the counter equals the number of records |
| `Bottins.Bottin.TrouverAvecNomPrenom` | Bottin.cpp:103-115 | precondition error exactly when an argument is empty; not found exactly when no record has key nom + prenom; `Ok` exactly when both arguments are non-empty and some record has that key, and then a stored record with that key |
| `Bottins.Bottin.TrouverAvecTelephone` | Bottin.cpp:124-134 | precondition error exactly when the argument is empty; not found exactly when no record has that fixed phone; `Ok` exactly when the argument is non-empty and some record has that phone, and then the stored record with that phone |
| `Bottins.Bottin.Ajouter` | Bottin.cpp:66-93 | succeeds exactly when the record is `Admissible` (five non-empty fields, two ten-digit phones, both keys unused). On failure nothing changes. On success: one record is appended, both keys map to position old size, the count grows by 1, and both lookups return the new record. The invariant is kept |
| `Bottins.Bottin.ChargerLignes` | Bottin.cpp:26-50 | the records and the outcome after the loop over the lines are those of `Chargement`: each line is split, normalised and offered to `ajouter`, and the load stops at the first failure |
| `Bottins.ChargementEtendPrefixe` | Bottin.cpp:26-50 | a load only appends, at most one record per line, and exactly one per line when every line is accepted |
| `Bottins.ChargementSuitLesLignes` | Bottin.cpp:26-50 | the k-th record a load adds is the record built from the k-th line |
| `Bottins.ChargementConserveUnicite` | Bottin.cpp:26-50 | a load keeps the keys unique and every record well-formed |
| `Bottins.ScenarioDoeJohn` | Test/Test_Bottin.cpp:49-324 | the unit-test scenario on an empty directory. After adding Doe/John, both lookups return the full record and empty lookup arguments are precondition errors. Re-adding the same name, or the same fixed phone, is refused |

## Left out

- The hash table `labTableHachage::TableHachage` and its hash functor (TableHachage.h, FoncteurHachage.hpp) are not part of this model. Each index is the map it implements, with no buckets, hashing or chain order. The table size is stored but has no effect.
- Collision statistics (`ratioDeCollisions*`, `maximumNbCollision*`, Bottin.cpp:158-201) are left out. They delegate to `TableHachage::statistiques`, which is not modelled, and return a floating-point ratio.
- File reading in the constructor is left out. This covers the `ifstream`, the `getline` that discards the header line, and the tab split of each line. `ChargerLignes` receives the data lines already split into four fields.
- The line-format regex PRECONDITION (Bottin.cpp:22, 27) is left out. `ChargerLignes` processes every line as if it matched, so the model also covers lines the source would refuse.
- In the source, a failed line ends the constructor with an exception, which destroys the object. In the model, `ChargerLignes` returns the failure and keeps the records of the earlier lines.
- Output is left out: `afficherBottin` and both `operator<<`.
- The default constructor `Bottin(){}` is left out. It leaves the counter uninitialised.
- The `ContratException` machinery is left out. Its message texts are reduced to the three error kinds.
- `::isdigit` is taken in the "C" locale: a digit is `'0'..'9'`.
- `Bottins.Bottin.NombreEntrees`: the `int` counter is unbounded in the model. It does not model overflow past 2^31 - 1 entries, which is undefined behaviour in C++.
- Strings are sequences of characters, while C++ `std::string` holds bytes. When `", "` is absent, `substr(1)` drops the first byte, and the model drops the first character. The two differ only when that character is not ASCII, which only lines the line-format regex refuses can reach.
- The lookups return a `const Entree&` into the vector. A later `ajouter` that makes the vector reallocate invalidates that reference. The model returns a copy of the record, so it does not capture this aliasing.
- Positions (`size_t`) are unbounded naturals. The one place where `size_t` wrap-around matters, npos + 2 in the name split, is modelled explicitly.
- The test expectations that come from the external data file (1438 entries, the Abplanalp records, the maxima 9 and 11) are left out. That file is not part of this model.
