/** The directory record `Bottin::Entree` and the field formats that
    `Bottin::ajouter` demands of it. */
module Entrees {

  /** One person: last name, first name, fixed-line phone, mobile phone
      and e-mail address. The C++ constructor copies its five arguments
      into the five fields unchanged, which is what a datatype constructor
      does. */
  datatype Entree = Entree(
    nom: string,
    prenom: string,
    telephoneFixe: string,
    cellulaire: string,
    courriel: string)

  /** The key of the name index: last name and first name concatenated,
      with no separator. Two different splits of one string, such as
      ("A", "BC") and ("AB", "C"), therefore share a key. */
  function CleNomPrenom(nom: string, prenom: string): string
  {
    nom + prenom
  }

  /** The name-index key of a record. */
  function Cle(e: Entree): string
  {
    CleNomPrenom(e.nom, e.prenom)
  }

  /** A decimal digit; the locale of `::isdigit` is taken to be "C". */
  predicate EstChiffre(c: char)
  {
    '0' <= c <= '9'
  }

  /** Exactly ten decimal digits, as a phone number must be. */
  predicate DixChiffres(s: string)
  {
    |s| == 10 && forall i :: 0 <= i < |s| ==> EstChiffre(s[i])
  }

  /** The field checks of `ajouter`: no field is empty and both phone
      numbers are ten digits. */
  predicate ChampsValides(e: Entree)
  {
    && e.nom != [] && e.prenom != []
    && e.telephoneFixe != [] && e.cellulaire != []
    && e.courriel != []
    && DixChiffres(e.telephoneFixe)
    && DixChiffres(e.cellulaire)
  }

  /** No two records of `es` share a name key or a fixed-line phone. */
  predicate ClesUniques(es: seq<Entree>)
  {
    forall i, j :: 0 <= i < j < |es| ==>
      Cle(es[i]) != Cle(es[j]) && es[i].telephoneFixe != es[j].telephoneFixe
  }

  /** Whether `ajouter` accepts `e` into a directory holding `es`:
      valid fields, and neither key already taken. This is stated over
      the records themselves, independently of the two indices. */
  predicate Admissible(es: seq<Entree>, e: Entree)
  {
    && ChampsValides(e)
    && (forall x :: x in es ==> Cle(x) != Cle(e))
    && (forall x :: x in es ==> x.telephoneFixe != e.telephoneFixe)
  }

  /** Accepting an admissible record keeps the keys unique. */
  lemma AdmissibleConserveUnicite(es: seq<Entree>, e: Entree)
    requires ClesUniques(es)
    requires Admissible(es, e)
    ensures ClesUniques(es + [e])
  {
    var es' := es + [e];
    forall i, j | 0 <= i < j < |es'|
      ensures Cle(es'[i]) != Cle(es'[j]) && es'[i].telephoneFixe != es'[j].telephoneFixe
    {
      if j == |es| {
        assert es'[i] in es;
      }
    }
  }
}
