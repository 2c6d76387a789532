/** The phone directory `TP3::Bottin`: an append-only vector of records
    and two indices that map a key to a position in that vector, one keyed
    by last name + first name, one keyed by the fixed-line phone.

    The hash tables behind the indices are not part of this model; each
    index is the map it implements: `contient(k)` is `k in m`,
    `element(k)` is `m[k]`, and `inserer(k, v)` on an absent key is
    `m[k := v]`. */
module Bottins {
  import opened Resultats
  import opened Entrees
  import opened Lecture

  /** The directory invariant over its four fields: the counter is the
      number of records; every index value is a valid position whose
      record carries the key that indexes it; every record is indexed
      under both of its keys; and every record passed the field checks of
      `ajouter`. */
  ghost predicate Coherent(es: seq<Entree>, parNom: map<string, nat>,
                           parTel: map<string, nat>, nombre: int)
  {
    && nombre == |es|
    && (forall k :: k in parNom ==> parNom[k] < |es| && Cle(es[parNom[k]]) == k)
    && (forall k :: k in parTel ==> parTel[k] < |es| && es[parTel[k]].telephoneFixe == k)
    && (forall i :: 0 <= i < |es| ==> Cle(es[i]) in parNom && parNom[Cle(es[i])] == i)
    && (forall i :: 0 <= i < |es| ==>
          es[i].telephoneFixe in parTel && parTel[es[i].telephoneFixe] == i)
    && (forall i :: 0 <= i < |es| ==> ChampsValides(es[i]))
  }

  /** Appending an admissible record at position `|es|` and indexing it
      there under both keys keeps the invariant. */
  lemma AjoutConserveCoherence(es: seq<Entree>, parNom: map<string, nat>,
                               parTel: map<string, nat>, nombre: int, e: Entree)
    requires Coherent(es, parNom, parTel, nombre)
    requires ChampsValides(e) && Cle(e) !in parNom && e.telephoneFixe !in parTel
    ensures Coherent(es + [e], parNom[Cle(e) := |es|], parTel[e.telephoneFixe := |es|], nombre + 1)
  {
    var es' := es + [e];
    var parNom' := parNom[Cle(e) := |es|];
    var parTel' := parTel[e.telephoneFixe := |es|];
    forall k | k in parNom' ensures parNom'[k] < |es'| && Cle(es'[parNom'[k]]) == k {
      if k != Cle(e) {
        assert es'[parNom[k]] == es[parNom[k]];
      }
    }
    forall k | k in parTel' ensures parTel'[k] < |es'| && es'[parTel'[k]].telephoneFixe == k {
      if k != e.telephoneFixe {
        assert es'[parTel[k]] == es[parTel[k]];
      }
    }
    forall i | 0 <= i < |es'|
      ensures Cle(es'[i]) in parNom' && parNom'[Cle(es'[i])] == i
      ensures es'[i].telephoneFixe in parTel' && parTel'[es'[i].telephoneFixe] == i
      ensures ChampsValides(es'[i])
    {
      if i < |es| {
        assert es'[i] == es[i];
        assert Cle(es[i]) in parNom;
        assert es[i].telephoneFixe in parTel;
      }
    }
  }

  class Bottin {
    /** m_tableauDesEntrees: the records, in insertion order. */
    var entrees: seq<Entree>
    /** m_tableParNomPrenom: name key -> position in `entrees`. */
    var parNomPrenom: map<string, nat>
    /** m_tableParTelephone: fixed-line phone -> position in `entrees`. */
    var parTelephone: map<string, nat>
    /** m_nombreEntrees. */
    var nombreEntrees: int
    /** The size given to both hash tables at construction. */
    const tailleTable: nat

    /** The directory invariant: the counter is the number of records;
        every index value is a valid position whose record carries the key
        that indexes it; every record is indexed under both of its keys;
        and every record passed the field checks of `ajouter`. */
    ghost predicate Valid()
      reads this
    {
      Coherent(entrees, parNomPrenom, parTelephone, nombreEntrees)
    }

    /** The initialiser list of the file constructor: no record, both
        indices empty, the counter at 0. The table size defaults to 100. */
    constructor (tailleTable: nat := 100)
      ensures Valid()
      ensures entrees == [] && parNomPrenom == map[] && parTelephone == map[]
      ensures nombreEntrees == 0
      ensures this.tailleTable == tailleTable
    {
      entrees := [];
      parNomPrenom := map[];
      parTelephone := map[];
      nombreEntrees := 0;
      this.tailleTable := tailleTable;
    }

    /** No two records share a name key or a fixed-line phone. */
    lemma ClesUniquesSiValide()
      requires Valid()
      ensures ClesUniques(entrees)
    {
      forall i, j | 0 <= i < j < |entrees|
        ensures Cle(entrees[i]) != Cle(entrees[j])
        ensures entrees[i].telephoneFixe != entrees[j].telephoneFixe
      {
        assert parNomPrenom[Cle(entrees[i])] == i;
        assert parTelephone[entrees[i].telephoneFixe] == i;
      }
    }

    /** Under the invariant, an index holds a key exactly when some record
        carries it, so the index-based checks of `ajouter` decide
        `Admissible`, which is stated over the records alone. */
    lemma IndicesRefletentEntrees(e: Entree)
      requires Valid()
      ensures Cle(e) in parNomPrenom <==> exists x :: x in entrees && Cle(x) == Cle(e)
      ensures e.telephoneFixe in parTelephone <==>
                exists x :: x in entrees && x.telephoneFixe == e.telephoneFixe
      ensures Admissible(entrees, e) <==>
                ChampsValides(e) && Cle(e) !in parNomPrenom && e.telephoneFixe !in parTelephone
    {
      if Cle(e) in parNomPrenom {
        assert entrees[parNomPrenom[Cle(e)]] in entrees;
      }
      if e.telephoneFixe in parTelephone {
        assert entrees[parTelephone[e.telephoneFixe]] in entrees;
      }
    }

    /** Every stored record is found again by its name and by its
        fixed-line phone. */
    lemma EntreesTrouvables(i: nat)
      requires Valid()
      requires i < |entrees|
      ensures TrouverAvecNomPrenom(entrees[i].nom, entrees[i].prenom) == Ok(entrees[i])
      ensures TrouverAvecTelephone(entrees[i].telephoneFixe) == Ok(entrees[i])
    {
      assert ChampsValides(entrees[i]);
      assert parNomPrenom[Cle(entrees[i])] == i;
      assert parTelephone[entrees[i].telephoneFixe] == i;
    }

    /** The name lookup sees only the concatenated key: any non-empty split
        of a stored record's key, such as ("AB", "C") for a record stored
        as ("A", "BC"), returns that record. */
    lemma CleSansSeparateur(i: nat, nom: string, prenom: string)
      requires Valid()
      requires i < |entrees|
      requires nom != [] && prenom != []
      requires CleNomPrenom(nom, prenom) == Cle(entrees[i])
      ensures TrouverAvecNomPrenom(nom, prenom) == Ok(entrees[i])
    {
      assert parNomPrenom[Cle(entrees[i])] == i;
    }

    /** `nombreEntrees()`: the number of records. */
    function NombreEntrees(): (n: int)
      reads this
      requires Valid()
      ensures n == |entrees|
    {
      nombreEntrees
    }

    /** `trouverAvecNomPrenom`: a precondition error when either argument
        is empty, not found when no record has the key `nom + prenom`, and
        otherwise the record that has it. */
    function TrouverAvecNomPrenom(nom: string, prenom: string): (r: Result<Entree>)
      reads this
      requires Valid()
      ensures r == Err(ErreurPrecondition) <==> nom == [] || prenom == []
      ensures r == Err(EntreeIntrouvable) <==>
                nom != [] && prenom != [] &&
                forall x :: x in entrees ==> Cle(x) != CleNomPrenom(nom, prenom)
      ensures r.Ok? <==>
                nom != [] && prenom != [] &&
                exists x :: x in entrees && Cle(x) == CleNomPrenom(nom, prenom)
      ensures r.Ok? ==> r.value in entrees && Cle(r.value) == CleNomPrenom(nom, prenom)
    {
      if nom == [] || prenom == [] then
        Err(ErreurPrecondition)
      else
        var cle := CleNomPrenom(nom, prenom);
        if cle !in parNomPrenom then
          assert forall x :: x in entrees ==> Cle(x) != cle by {
            forall x | x in entrees ensures Cle(x) != cle {
              var i :| 0 <= i < |entrees| && entrees[i] == x;
            }
          }
          Err(EntreeIntrouvable)
        else
          Ok(entrees[parNomPrenom[cle]])
    }

    /** `trouverAvecTelephone`: a precondition error when the argument is
        empty, not found when no record has that fixed-line phone, and
        otherwise the record that has it. */
    function TrouverAvecTelephone(telephone: string): (r: Result<Entree>)
      reads this
      requires Valid()
      ensures r == Err(ErreurPrecondition) <==> telephone == []
      ensures r == Err(EntreeIntrouvable) <==>
                telephone != [] && forall x :: x in entrees ==> x.telephoneFixe != telephone
      ensures r.Ok? <==>
                telephone != [] && exists x :: x in entrees && x.telephoneFixe == telephone
      ensures r.Ok? ==> r.value in entrees && r.value.telephoneFixe == telephone
    {
      if telephone == [] then
        Err(ErreurPrecondition)
      else if telephone !in parTelephone then
        assert forall x :: x in entrees ==> x.telephoneFixe != telephone by {
          forall x | x in entrees ensures x.telephoneFixe != telephone {
            var i :| 0 <= i < |entrees| && entrees[i] == x;
          }
        }
        Err(EntreeIntrouvable)
      else
        Ok(entrees[parTelephone[telephone]])
    }

    /** `ajouter`. Every check comes before the first change: on failure
        nothing changes; on success the record is appended at position
        `old(|entrees|)`, both indices map their new key to that position,
        the counter grows by one, and both lookups now find the record. */
    method Ajouter(nom: string, prenom: string, telephoneFixe: string,
                   cellulaire: string, courriel: string)
      returns (r: Outcome)
      requires Valid()
      modifies this
      ensures Valid()
      ensures r.Pass? <==>
                Admissible(old(entrees), Entree(nom, prenom, telephoneFixe, cellulaire, courriel))
      ensures r.Fail? ==>
                && r.error == ErreurPrecondition
                && entrees == old(entrees)
                && parNomPrenom == old(parNomPrenom)
                && parTelephone == old(parTelephone)
                && nombreEntrees == old(nombreEntrees)
      ensures r.Pass? ==>
                && entrees == old(entrees) + [Entree(nom, prenom, telephoneFixe, cellulaire, courriel)]
                && parNomPrenom == old(parNomPrenom)[CleNomPrenom(nom, prenom) := old(|entrees|)]
                && parTelephone == old(parTelephone)[telephoneFixe := old(|entrees|)]
                && nombreEntrees == old(nombreEntrees) + 1
      ensures r.Pass? ==>
                && TrouverAvecNomPrenom(nom, prenom) == Ok(Entree(nom, prenom, telephoneFixe, cellulaire, courriel))
                && TrouverAvecTelephone(telephoneFixe) == Ok(Entree(nom, prenom, telephoneFixe, cellulaire, courriel))
    {
      var e := Entree(nom, prenom, telephoneFixe, cellulaire, courriel);
      IndicesRefletentEntrees(e);
      if nom == [] || prenom == [] {
        return Fail(ErreurPrecondition);
      }
      if telephoneFixe == [] || cellulaire == [] {
        return Fail(ErreurPrecondition);
      }
      if courriel == [] {
        return Fail(ErreurPrecondition);
      }
      if !DixChiffres(telephoneFixe) {
        return Fail(ErreurPrecondition);
      }
      if !DixChiffres(cellulaire) {
        return Fail(ErreurPrecondition);
      }
      if CleNomPrenom(nom, prenom) in parNomPrenom {
        return Fail(ErreurPrecondition);
      }
      if telephoneFixe in parTelephone {
        return Fail(ErreurPrecondition);
      }
      AjoutConserveCoherence(entrees, parNomPrenom, parTelephone, nombreEntrees, e);
      entrees := entrees + [e];
      var index := |entrees| - 1;
      var cle := CleNomPrenom(nom, prenom);
      // Both guards always hold here: the checks above found neither key.
      if cle !in parNomPrenom {
        parNomPrenom := parNomPrenom[cle := index];
      }
      if telephoneFixe !in parTelephone {
        parTelephone := parTelephone[telephoneFixe := index];
      }
      nombreEntrees := nombreEntrees + 1;
      EntreesTrouvables(index);
      r := Pass;
    }

    /** The loop of the file constructor over the data lines: each line is
        split, its phones normalised, and the result handed to `ajouter`.
        The first line that fails stops the load with that failure, the
        records of the lines before it staying in the directory. */
    method ChargerLignes(lignes: seq<Ligne>) returns (r: Outcome)
      requires Valid()
      modifies this
      ensures Valid()
      ensures (entrees, r) == Chargement(old(entrees), lignes)
    {
      var i := 0;
      while i < |lignes|
        invariant 0 <= i <= |lignes|
        invariant Valid()
        invariant Chargement(old(entrees), lignes) == Chargement(entrees, lignes[i..])
      {
        var l := lignes[i];
        assert lignes[i..][0] == l && lignes[i..][1..] == lignes[i + 1..];
        match SeparerNomPrenom(l.nomPrenom)
        case Err(e) =>
          return Fail(e);
        case Ok((nom, prenom)) =>
          var telFixe := NormaliserTelephone(l.telFixe);
          var telCell := NormaliserTelephone(l.telCell);
          var ok := Ajouter(nom, prenom, telFixe, telCell, l.courriel);
          if ok.Fail? {
            return ok;
          }
        i := i + 1;
      }
      r := Pass;
    }
  }

  /** What loading `lignes` into a directory holding `es` leaves: the
      records afterwards and whether every line was accepted. */
  function Chargement(es: seq<Entree>, lignes: seq<Ligne>): (seq<Entree>, Outcome)
    decreases |lignes|
  {
    if lignes == [] then (es, Pass)
    else
      match EntreeDeLigne(lignes[0])
      case Err(e) => (es, Fail(e))
      case Ok(x) =>
        if Admissible(es, x) then Chargement(es + [x], lignes[1..])
        else (es, Fail(ErreurPrecondition))
  }

  /** A load only appends: the records already present stay first, at
      most one record is added per line, and when every line is accepted
      there is exactly one new record per line. */
  lemma {:induction false} ChargementEtendPrefixe(es: seq<Entree>, lignes: seq<Ligne>)
    decreases |lignes|
    ensures |es| <= |Chargement(es, lignes).0| <= |es| + |lignes|
    ensures Chargement(es, lignes).0[..|es|] == es
    ensures Chargement(es, lignes).1.Pass? ==> |Chargement(es, lignes).0| == |es| + |lignes|
  {
    if lignes != [] {
      match EntreeDeLigne(lignes[0])
      case Err(_) =>
      case Ok(x) =>
        if Admissible(es, x) {
          ChargementEtendPrefixe(es + [x], lignes[1..]);
          var es' := Chargement(es + [x], lignes[1..]).0;
          assert es'[..|es|] == (es'[..|es| + 1])[..|es|];
        }
    }
  }

  /** Each record a load adds comes from one line, in line order: the
      k-th new record is the record of the k-th line. */
  lemma {:induction false} ChargementSuitLesLignes(es: seq<Entree>, lignes: seq<Ligne>, k: nat)
    requires |es| + k < |Chargement(es, lignes).0|
    decreases |lignes|
    ensures k < |lignes|
    ensures EntreeDeLigne(lignes[k]) == Ok(Chargement(es, lignes).0[|es| + k])
  {
    ChargementEtendPrefixe(es, lignes);
    match EntreeDeLigne(lignes[0])
    case Err(_) =>
    case Ok(x) =>
      if Admissible(es, x) {
        var es' := Chargement(es + [x], lignes[1..]).0;
        ChargementEtendPrefixe(es + [x], lignes[1..]);
        if k == 0 {
          assert es'[..|es| + 1][|es|] == x;
        } else {
          ChargementSuitLesLignes(es + [x], lignes[1..], k - 1);
          assert lignes[1..][k - 1] == lignes[k];
        }
      }
  }

  /** A load keeps the keys of the directory unique and every record
      well-formed. */
  lemma {:induction false} ChargementConserveUnicite(es: seq<Entree>, lignes: seq<Ligne>)
    requires ClesUniques(es)
    requires forall i :: 0 <= i < |es| ==> ChampsValides(es[i])
    decreases |lignes|
    ensures var es' := Chargement(es, lignes).0;
            ClesUniques(es') && forall i :: 0 <= i < |es'| ==> ChampsValides(es'[i])
  {
    if lignes != [] {
      match EntreeDeLigne(lignes[0])
      case Err(_) =>
      case Ok(x) =>
        if Admissible(es, x) {
          AdmissibleConserveUnicite(es, x);
          ChargementConserveUnicite(es + [x], lignes[1..]);
        }
    }
  }

  /** The scenario of the directory's unit tests, on an empty directory:
      an entry added is found by name and by phone with all five fields;
      a second entry with the same name, or with the same fixed phone, is
      refused; empty lookup arguments are precondition errors. */
  method ScenarioDoeJohn() returns (b: Bottin, doublonNom: Outcome, doublonTel: Outcome)
    ensures b.Valid() && b.NombreEntrees() == 1
    ensures b.TrouverAvecNomPrenom("Doe", "John") ==
              Ok(Entree("Doe", "John", "1234567890", "0987654321", "john.doe@example.com"))
    ensures b.TrouverAvecTelephone("1234567890") == b.TrouverAvecNomPrenom("Doe", "John")
    ensures b.TrouverAvecNomPrenom("", "John") == Err(ErreurPrecondition)
    ensures b.TrouverAvecNomPrenom("Doe", "") == Err(ErreurPrecondition)
    ensures b.TrouverAvecTelephone("") == Err(ErreurPrecondition)
    ensures doublonNom == Fail(ErreurPrecondition) && doublonTel == Fail(ErreurPrecondition)
  {
    b := new Bottin();
    var r := b.Ajouter("Doe", "John", "1234567890", "0987654321", "john.doe@example.com");
    assert r.Pass? by {
      assert DixChiffres("1234567890") && DixChiffres("0987654321");
    }
    doublonNom := b.Ajouter("Doe", "John", "1122334455", "5566778899", "john.duplicate@example.com");
    doublonTel := b.Ajouter("Do", "John", "1234567890", "5566778899", "john.duplicate@example.com");
  }
}
