/** The two string steps that the file constructor of `Bottin` applies to
    each line before handing its fields to `ajouter` (Bottin.cpp:37-47):
    splitting "Nom, Prenom" on its first ", " and deleting the punctuation
    of the phone numbers. */
module Lecture {
  import opened Resultats
  import opened Entrees

  // ---------------------------------------------------------------------
  // Phone normalisation: erase(remove_if(...), end)
  // ---------------------------------------------------------------------

  /** The characters the normalisation deletes. */
  predicate EstSeparateur(c: char)
  {
    c == '(' || c == ')' || c == '-' || c == ' '
  }

  /** `s` with every separator removed and every other character kept,
      in order. */
  function SansSeparateurs(s: string): string
  {
    if s == [] then []
    else (if EstSeparateur(s[0]) then [] else [s[0]]) + SansSeparateurs(s[1..])
  }

  /** The normalisation distributes over concatenation, so it acts on each
      character independently and keeps the order of what it keeps. */
  lemma {:induction false} SansSeparateursConcat(a: string, b: string)
    ensures SansSeparateurs(a + b) == SansSeparateurs(a) + SansSeparateurs(b)
  {
    if a == [] {
      assert a + b == b;
    } else {
      assert (a + b)[1..] == a[1..] + b;
      SansSeparateursConcat(a[1..], b);
    }
  }

  /** The normalisation removes exactly the separators: a separator no
      longer occurs, and every other character occurs as often as before. */
  lemma {:induction false} SansSeparateursMultiset(s: string)
    ensures forall c :: multiset(SansSeparateurs(s))[c] ==
                          if EstSeparateur(c) then 0 else multiset(s)[c]
  {
    if s != [] {
      SansSeparateursMultiset(s[1..]);
      assert s == [s[0]] + s[1..];
    }
  }

  /** A string without separators is left as it is. */
  lemma {:induction false} SansSeparateursIdentite(s: string)
    requires forall i :: 0 <= i < |s| ==> !EstSeparateur(s[i])
    ensures SansSeparateurs(s) == s
  {
    if s != [] {
      SansSeparateursIdentite(s[1..]);
    }
  }

  /** Normalising twice is normalising once. */
  lemma {:induction false} SansSeparateursIdempotent(s: string)
    ensures SansSeparateurs(SansSeparateurs(s)) == SansSeparateurs(s)
  {
    SansSeparateursMultiset(s);
    var r := SansSeparateurs(s);
    forall i | 0 <= i < |r| ensures !EstSeparateur(r[i]) {
      assert r[i] in multiset(r);
    }
    SansSeparateursIdentite(r);
  }

  /** A well-formed ten-digit phone number is not altered. */
  lemma DixChiffresInchanges(s: string)
    requires DixChiffres(s)
    ensures SansSeparateurs(s) == s
  {
    SansSeparateursIdentite(s);
  }

  /** `std::remove_if` on the characters of `a`: the kept characters are
      moved, in order, to the front of the array, and their number is
      returned. */
  method SupprimerSeparateurs(a: array<char>) returns (n: nat)
    modifies a
    ensures n <= a.Length
    ensures a[..n] == SansSeparateurs(old(a[..]))
  {
    ghost var s := a[..];
    n := 0;
    var i := 0;
    while i < a.Length
      invariant n <= i <= a.Length
      invariant a[..n] == SansSeparateurs(s[..i])
      invariant forall k :: i <= k < a.Length ==> a[k] == s[k]
    {
      var c := a[i];
      assert s[..i + 1] == s[..i] + [c];
      SansSeparateursConcat(s[..i], [c]);
      if !EstSeparateur(c) {
        a[n] := c;
        n := n + 1;
      }
      i := i + 1;
    }
    assert s[..i] == s;
  }

  /** The phone step of the file constructor: remove the separators in
      place, then `erase` the tail left behind. */
  method NormaliserTelephone(s: string) returns (r: string)
    ensures r == SansSeparateurs(s)
  {
    var a := new char[|s|](i requires 0 <= i < |s| => s[i]);
    assert a[..] == s;
    var n := SupprimerSeparateurs(a);
    r := a[..n];
  }

  // ---------------------------------------------------------------------
  // Name split: find(", "), substr(0, pos), substr(pos + 2)
  // ---------------------------------------------------------------------

  /** `std::string::npos`, the largest `size_t`. */
  const NPOS: nat := 0xFFFF_FFFF_FFFF_FFFF

  /** `size_t` arithmetic is modulo 2^64. */
  const MODULE_SIZE_T: nat := 0x1_0000_0000_0000_0000

  /** ", " starts at position `j` of `s`. */
  predicate SeparateurEn(s: string, j: int)
  {
    0 <= j && j + 1 < |s| && s[j] == ',' && s[j + 1] == ' '
  }

  predicate ContientSeparateur(s: string)
  {
    exists j :: 0 <= j < |s| && SeparateurEn(s, j)
  }

  /** `s.find(", ", depuis)`: the first position at or after `depuis`
      where ", " starts, or `None` where the library returns npos. */
  function TrouverSeparateur(s: string, depuis: nat): (r: Option<nat>)
    decreases |s| - depuis
    ensures r.Some? ==> depuis <= r.value && SeparateurEn(s, r.value)
    ensures r.Some? ==> forall j :: depuis <= j < r.value ==> !SeparateurEn(s, j)
    ensures r.None? ==> forall j :: depuis <= j ==> !SeparateurEn(s, j)
  {
    if depuis + 1 >= |s| then None
    else if s[depuis] == ',' && s[depuis + 1] == ' ' then Some(depuis)
    else TrouverSeparateur(s, depuis + 1)
  }

  /** `std::string::substr(debut)`: throws `out_of_range` when `debut`
      lies past the end. */
  function SousChaineDepuis(s: string, debut: nat): (r: Result<string>)
    ensures r.Ok? <==> debut <= |s|
    ensures r.Err? ==> r.error == HorsLimites
    ensures r.Ok? ==> s == s[..debut] + r.value
  {
    if debut > |s| then Err(HorsLimites) else Ok(s[debut..])
  }

  /** Lines 37-39 of the file constructor. `substr(0, pos)` keeps the
      text before the first ", " and `substr(pos + 2)` the text after it.
      When ", " is absent `pos` is npos: `substr(0, npos)` keeps the whole
      string, and `pos + 2`, computed in `size_t`, wraps round to 1. */
  function SeparerNomPrenom(nomPrenom: string): (r: Result<(string, string)>)
    ensures ContientSeparateur(nomPrenom) ==>
              && r.Ok?
              && r.value.0 + ", " + r.value.1 == nomPrenom
              && !ContientSeparateur(r.value.0)
    ensures !ContientSeparateur(nomPrenom) ==>
              (r.Ok? <==> nomPrenom != [])
              && (r.Ok? ==> r.value.0 == nomPrenom && r.value.1 == nomPrenom[1..])
    ensures r.Err? ==> r.error == HorsLimites
  {
    match TrouverSeparateur(nomPrenom, 0)
    case Some(pos) =>
      // pos + 2 <= |nomPrenom|, far below 2^64: no wrap on this path.
      PrefixeAvantSeparateur(nomPrenom, pos);
      Ok((nomPrenom[..pos], nomPrenom[pos + 2..]))
    case None =>
      var debut := (NPOS + 2) % MODULE_SIZE_T;
      match SousChaineDepuis(nomPrenom, debut)
      case Err(e) => Err(e)
      case Ok(prenom) => Ok((nomPrenom, prenom))
  }

  /** The text around the first ", " of `s` rebuilds `s`, and the text
      before it holds no ", ". */
  lemma PrefixeAvantSeparateur(s: string, pos: nat)
    requires SeparateurEn(s, pos)
    requires forall j :: 0 <= j < pos ==> !SeparateurEn(s, j)
    ensures s[..pos] + ", " + s[pos + 2..] == s
    ensures !ContientSeparateur(s[..pos])
  {
    assert s == s[..pos] + s[pos..pos + 2] + s[pos + 2..];
    if ContientSeparateur(s[..pos]) {
      var j :| 0 <= j < pos && SeparateurEn(s[..pos], j);
      assert SeparateurEn(s, j);
    }
  }

  /** Splitting inverts joining with ", ", provided the last name holds no
      ", " of its own. */
  lemma SeparerJoindre(nom: string, prenom: string)
    requires !ContientSeparateur(nom)
    ensures SeparerNomPrenom(nom + ", " + prenom) == Ok((nom, prenom))
  {
    var s := nom + ", " + prenom;
    assert SeparateurEn(s, |nom|);
    forall j | 0 <= j < |nom| ensures !SeparateurEn(s, j) {
      if j + 1 < |nom| {
        if SeparateurEn(s, j) {
          assert SeparateurEn(nom, j);
        }
      } else {
        assert s[j + 1] == ',';
      }
    }
    var r := SeparerNomPrenom(s);
    assert r.value.0 + ", " + r.value.1 == s;
    var t := TrouverSeparateur(s, 0);
    assert t == Some(|nom|);
    assert r.value.0 == nom;
    assert r.value.1 == s[|nom| + 2..];
    assert s[|nom| + 2..] == prenom;
  }

  // ---------------------------------------------------------------------
  // One line of the input file
  // ---------------------------------------------------------------------

  /** The four tab-separated fields of one data line, as `getline` splits
      them: "Nom, Prenom", fixed phone, mobile phone, e-mail. */
  datatype Ligne = Ligne(nomPrenom: string, telFixe: string, telCell: string, courriel: string)

  /** The record that a line yields after the name split and the two phone
      normalisations, or the error the split throws. */
  function EntreeDeLigne(l: Ligne): (r: Result<Entree>)
    ensures r.Ok? <==> l.nomPrenom != []
    ensures r.Err? ==> r.error == HorsLimites
    ensures r.Ok? ==> SeparerNomPrenom(l.nomPrenom) == Ok((r.value.nom, r.value.prenom))
    ensures r.Ok? ==> r.value.telephoneFixe == SansSeparateurs(l.telFixe)
                      && r.value.cellulaire == SansSeparateurs(l.telCell)
                      && r.value.courriel == l.courriel
    ensures r.Ok? && ContientSeparateur(l.nomPrenom) ==>
              r.value.nom + ", " + r.value.prenom == l.nomPrenom
  {
    match SeparerNomPrenom(l.nomPrenom)
    case Err(e) => Err(e)
    case Ok((nom, prenom)) =>
      Ok(Entree(nom, prenom, SansSeparateurs(l.telFixe), SansSeparateurs(l.telCell), l.courriel))
  }
}
