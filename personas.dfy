/**
  Queries over a set of people: how many there are, who is of age, and the
  most common name.  The set is an ordered list of records; the most common
  name is found by folding the list into a name-to-count dictionary and
  taking a name with the largest count.
 */
module Personas {
  import opened Wrappers


  datatype Persona = Persona(nombre: string, edad: int)

  datatype ConjuntoDePersonas = ConjuntoDePersonas(personas: seq<Persona>)

  /** The age from which a person counts as of age. */
  const MayoriaDeEdad: int := 18

  // ---------------------------------------------------------------------
  // Counting
  // ---------------------------------------------------------------------

  /** The number of people in the set: no name is borne, and nobody is of
      age, more often than that. */
  function CantidadDePersonas(c: ConjuntoDePersonas): (r: nat)
    ensures forall nombre :: Ocurrencias(c.personas, nombre) <= r
    ensures |MayoresDeEdad(c.personas)| <= r
  {
    assert forall nombre :: Ocurrencias(c.personas, nombre) <= |c.personas| by {
      forall nombre
        ensures Ocurrencias(c.personas, nombre) <= |c.personas|
      {
        OcurrenciasPositivas(c.personas, nombre);
      }
    }
    |c.personas|
  }

  /** How many people in `ps` are called `nombre`. */
  function Ocurrencias(ps: seq<Persona>, nombre: string): nat {
    if |ps| == 0 then 0
    else Ocurrencias(ps[..|ps| - 1], nombre) + (if ps[|ps| - 1].nombre == nombre then 1 else 0)
  }

  /** A name occurs at least once exactly when somebody bears it. */
  lemma {:induction false} OcurrenciasPositivas(ps: seq<Persona>, nombre: string)
    ensures Ocurrencias(ps, nombre) > 0 <==> exists i :: 0 <= i < |ps| && ps[i].nombre == nombre
    ensures Ocurrencias(ps, nombre) <= |ps|
  {
    if |ps| > 0 {
      var init := ps[..|ps| - 1];
      OcurrenciasPositivas(init, nombre);
      if exists i :: 0 <= i < |ps| && ps[i].nombre == nombre {
        var i :| 0 <= i < |ps| && ps[i].nombre == nombre;
        if i < |ps| - 1 {
          assert init[i].nombre == nombre;
        }
      }
      if exists i :: 0 <= i < |init| && init[i].nombre == nombre {
        var i :| 0 <= i < |init| && init[i].nombre == nombre;
        assert ps[i].nombre == nombre;
      }
    }
  }

  // ---------------------------------------------------------------------
  // People of age
  // ---------------------------------------------------------------------

  predicate EsMayor(p: Persona) {
    p.edad >= MayoriaDeEdad
  }

  /** The people of age, in their original order. */
  function MayoresDeEdad(ps: seq<Persona>): (r: seq<Persona>)
    ensures forall i :: 0 <= i < |r| ==> EsMayor(r[i])
    ensures |r| <= |ps|
  {
    if |ps| == 0 then []
    else MayoresDeEdad(ps[..|ps| - 1]) + (if EsMayor(ps[|ps| - 1]) then [ps[|ps| - 1]] else [])
  }

  /** `sub` can be obtained from `s` by deleting elements. */
  predicate IsSubseq<T(==)>(sub: seq<T>, s: seq<T>)
    decreases |s|
  {
    if |sub| == 0 then true
    else if |s| == 0 then false
    else if sub[|sub| - 1] == s[|s| - 1] then IsSubseq(sub[..|sub| - 1], s[..|s| - 1])
    else IsSubseq(sub, s[..|s| - 1])
  }

  /** Everybody selected is of age, nobody of age is missed, and each person
      is kept as often as they appear. */
  lemma {:induction false} MayoresDeEdadExactos(ps: seq<Persona>)
    ensures forall i :: 0 <= i < |MayoresDeEdad(ps)| ==> EsMayor(MayoresDeEdad(ps)[i])
    ensures forall p :: multiset(MayoresDeEdad(ps))[p] == if EsMayor(p) then multiset(ps)[p] else 0
  {
    if |ps| > 0 {
      var init := ps[..|ps| - 1];
      MayoresDeEdadExactos(init);
      assert ps == init + [ps[|ps| - 1]];
    }
  }

  /** The people of age keep their original order: the result is a
      subsequence of the set, hence no longer than it. */
  lemma {:induction false} MayoresDeEdadSubsecuencia(ps: seq<Persona>)
    ensures IsSubseq(MayoresDeEdad(ps), ps)
    ensures |MayoresDeEdad(ps)| <= |ps|
  {
    if |ps| > 0 {
      var init := ps[..|ps| - 1];
      MayoresDeEdadSubsecuencia(init);
      var r := MayoresDeEdad(ps);
      if EsMayor(ps[|ps| - 1]) {
        assert r[..|r| - 1] == MayoresDeEdad(init);
      } else {
        assert r == MayoresDeEdad(init);
        assert ps == init + [ps[|ps| - 1]];
        SubseqExtend(r, init, ps[|ps| - 1]);
      }
    }
  }

  /** A subsequence stays one when the sequence grows at the end. */
  lemma {:induction false} SubseqExtend<T>(sub: seq<T>, s: seq<T>, x: T)
    requires IsSubseq(sub, s)
    ensures IsSubseq(sub, s + [x])
    decreases |s|, 1
  {
    assert (s + [x])[..|s|] == s;
    if |sub| > 0 && sub[|sub| - 1] == x {
      SubseqInit(sub, s);
    }
  }

  /** Dropping the last element of a subsequence keeps it a subsequence. */
  lemma {:induction false} SubseqInit<T>(sub: seq<T>, s: seq<T>)
    requires |sub| > 0 && IsSubseq(sub, s)
    ensures IsSubseq(sub[..|sub| - 1], s)
    decreases |s|, 0
  {
    var init, last := s[..|s| - 1], s[|s| - 1];
    assert s == init + [last];
    if sub[|sub| - 1] == last {
      SubseqExtend(sub[..|sub| - 1], init, last);
    } else {
      SubseqInit(sub, init);
      SubseqExtend(sub[..|sub| - 1], init, last);
    }
  }

  // ---------------------------------------------------------------------
  // The most common name
  // ---------------------------------------------------------------------

  /** The fold over the people that adds one to the entry of each person's
      name, starting it at 0. */
  function Conteo(ps: seq<Persona>): map<string, nat> {
    if |ps| == 0 then map[]
    else
      var f := Conteo(ps[..|ps| - 1]);
      var nombre := ps[|ps| - 1].nombre;
      f[nombre := (if nombre in f then f[nombre] else 0) + 1]
  }

  /** The fold's keys are the names present, each counted. */
  lemma {:induction false} ConteoCuenta(ps: seq<Persona>)
    ensures forall n :: n in Conteo(ps) <==> exists i :: 0 <= i < |ps| && ps[i].nombre == n
    ensures forall n :: n in Conteo(ps) ==> Conteo(ps)[n] == Ocurrencias(ps, n)
  {
    if |ps| > 0 {
      var init := ps[..|ps| - 1];
      ConteoCuenta(init);
      var f := Conteo(init);
      var nombre := ps[|ps| - 1].nombre;
      var g := Conteo(ps);
      forall n
        ensures n in g <==> exists i :: 0 <= i < |ps| && ps[i].nombre == n
      {
        if n in f {
          var i :| 0 <= i < |init| && init[i].nombre == n;
          assert ps[i].nombre == n;
        }
        if n != nombre && exists i :: 0 <= i < |ps| && ps[i].nombre == n {
          var i :| 0 <= i < |ps| && ps[i].nombre == n;
          assert init[i].nombre == n;
        }
      }
      forall n | n in g
        ensures g[n] == Ocurrencias(ps, n)
      {
        if n == nombre && n !in f {
          OcurrenciasPositivas(init, n);
        }
      }
    }
  }

  /** The name-to-count dictionary of `nombreMasComun`: its keys are exactly
      the names present, and each maps to the number of people bearing it. */
  function Frecuencias(ps: seq<Persona>): (f: map<string, nat>)
    ensures forall n :: n in f <==> exists i :: 0 <= i < |ps| && ps[i].nombre == n
    ensures forall n :: n in f ==> f[n] == Ocurrencias(ps, n)
  {
    ConteoCuenta(ps);
    Conteo(ps)
  }

  /** The sum of the counts of a dictionary. */
  ghost function SumaValores(f: map<string, nat>): nat
    decreases |f.Keys|
  {
    if f == map[] then 0
    else
      var k :| k in f;
      assert (f - {k}).Keys == f.Keys - {k};
      f[k] + SumaValores(f - {k})
  }

  /** Any entry can be taken out of the sum first. */
  lemma {:induction false} SumaValoresQuitar(f: map<string, nat>, k: string)
    requires k in f
    ensures SumaValores(f) == f[k] + SumaValores(f - {k})
    decreases |f.Keys|
  {
    var j :| j in f && SumaValores(f) == f[j] + SumaValores(f - {j});
    if j != k {
      assert (f - {j}).Keys == f.Keys - {j};
      assert (f - {k}).Keys == f.Keys - {k};
      SumaValoresQuitar(f - {j}, k);
      SumaValoresQuitar(f - {k}, j);
      assert f - {j} - {k} == f - {k} - {j};
    }
  }

  /** Adding one to the entry of `k`, starting it at 0, adds one to the sum. */
  lemma SumaValoresIncrementa(f: map<string, nat>, k: string)
    ensures SumaValores(f[k := (if k in f then f[k] else 0) + 1]) == SumaValores(f) + 1
  {
    var g := f[k := (if k in f then f[k] else 0) + 1];
    assert g - {k} == f - {k};
    SumaValoresQuitar(g, k);
    if k in f {
      SumaValoresQuitar(f, k);
    } else {
      assert f - {k} == f;
    }
  }

  /** Every person is counted once: the counts add up to the number of
      people. */
  lemma {:induction false} FrecuenciasSuman(ps: seq<Persona>)
    ensures SumaValores(Frecuencias(ps)) == |ps|
  {
    ConteoSuma(ps);
  }

  lemma {:induction false} ConteoSuma(ps: seq<Persona>)
    ensures SumaValores(Conteo(ps)) == |ps|
  {
    if |ps| > 0 {
      ConteoSuma(ps[..|ps| - 1]);
      SumaValoresIncrementa(Conteo(ps[..|ps| - 1]), ps[|ps| - 1].nombre);
    }
  }

  /** A candidate with the largest count, scanning `candidatos` in order and
      keeping the earlier one on a tie. */
  function MasFrecuente(candidatos: seq<string>, f: map<string, nat>): (r: string)
    requires |candidatos| > 0
    requires forall i :: 0 <= i < |candidatos| ==> candidatos[i] in f
    ensures r in f
    ensures exists i :: 0 <= i < |candidatos| && candidatos[i] == r
    ensures forall i :: 0 <= i < |candidatos| ==> f[candidatos[i]] <= f[r]
  {
    if |candidatos| == 1 then candidatos[0]
    else
      var init := candidatos[..|candidatos| - 1];
      var mejor := MasFrecuente(init, f);
      var ultimo := candidatos[|candidatos| - 1];
      assert forall i :: 0 <= i < |init| ==> init[i] == candidatos[i];
      if f[mejor] < f[ultimo] then ultimo else mejor
  }

  function Nombres(ps: seq<Persona>): (ns: seq<string>)
    ensures |ns| == |ps|
    ensures forall i :: 0 <= i < |ps| ==> ns[i] == ps[i].nombre
  {
    seq(|ps|, i requires 0 <= i < |ps| => ps[i].nombre)
  }

  /** The most common name: none for an empty set, otherwise a name that
      somebody bears and that no other name outnumbers. */
  function NombreMasComun(c: ConjuntoDePersonas): (r: Option<string>)
    ensures r.None? <==> |c.personas| == 0
    ensures r.Some? ==> exists i :: 0 <= i < |c.personas| && c.personas[i].nombre == r.value
    ensures r.Some? ==> forall i :: 0 <= i < |c.personas| ==>
      Ocurrencias(c.personas, c.personas[i].nombre) <= Ocurrencias(c.personas, r.value)
  {
    var ps := c.personas;
    var f := Frecuencias(ps);
    if |ps| == 0 then None
    else
      var ns := Nombres(ps);
      assert forall i :: 0 <= i < |ns| ==> ns[i] in f;
      Some(MasFrecuente(ns, f))
  }

  /** The counts add up to the number of people. */
  lemma CantidadEsSumaDeFrecuencias(c: ConjuntoDePersonas)
    ensures CantidadDePersonas(c) == SumaValores(Frecuencias(c.personas))
    ensures |MayoresDeEdad(c.personas)| <= CantidadDePersonas(c)
  {
    FrecuenciasSuman(c.personas);
    MayoresDeEdadSubsecuencia(c.personas);
  }

  // ---------------------------------------------------------------------
  // The sample set
  // ---------------------------------------------------------------------

  /** One more person at the end adds to the count of their own name only. */
  lemma OcurrenciasAlFinal(ps: seq<Persona>, p: Persona, nombre: string)
    ensures Ocurrencias(ps + [p], nombre) == Ocurrencias(ps, nombre) + (if p.nombre == nombre then 1 else 0)
  {
    assert (ps + [p])[..|ps|] == ps;
  }

  /** One more person at the end is selected exactly when of age. */
  lemma MayoresAlFinal(ps: seq<Persona>, p: Persona)
    ensures MayoresDeEdad(ps + [p]) == MayoresDeEdad(ps) + (if EsMayor(p) then [p] else [])
  {
    assert (ps + [p])[..|ps|] == ps;
  }

  const Ana20: Persona := Persona("Ana", 20)
  const Luis17: Persona := Persona("Luis", 17)
  const Ana22: Persona := Persona("Ana", 22)
  const Pedro30: Persona := Persona("Pedro", 30)
  const Luis25: Persona := Persona("Luis", 25)

  const Ejemplo: ConjuntoDePersonas := ConjuntoDePersonas([Ana20, Luis17, Ana22, Pedro30, Luis25])

  lemma EjemploMayores()
    ensures CantidadDePersonas(Ejemplo) == 5
    ensures Nombres(MayoresDeEdad(Ejemplo.personas)) == ["Ana", "Ana", "Pedro", "Luis"]
  {
    MayoresAlFinal([], Ana20);
    MayoresAlFinal([Ana20], Luis17);
    MayoresAlFinal([Ana20, Luis17], Ana22);
    MayoresAlFinal([Ana20, Luis17, Ana22], Pedro30);
    MayoresAlFinal([Ana20, Luis17, Ana22, Pedro30], Luis25);
    assert [Ana20] == [] + [Ana20];
    assert [Ana20, Luis17] == [Ana20] + [Luis17];
    assert [Ana20, Luis17, Ana22] == [Ana20, Luis17] + [Ana22];
    assert [Ana20, Luis17, Ana22, Pedro30] == [Ana20, Luis17, Ana22] + [Pedro30];
    assert Ejemplo.personas == [Ana20, Luis17, Ana22, Pedro30] + [Luis25];
    assert MayoresDeEdad(Ejemplo.personas) == [Ana20, Ana22, Pedro30, Luis25];
  }

  /** "Ana" and "Luis" appear twice each and "Pedro" once. */
  lemma EjemploOcurrencias(nombre: string)
    ensures Ocurrencias(Ejemplo.personas, nombre)
         == (if nombre == "Ana" || nombre == "Luis" then 2 else if nombre == "Pedro" then 1 else 0)
  {
    OcurrenciasAlFinal([], Ana20, nombre);
    OcurrenciasAlFinal([Ana20], Luis17, nombre);
    OcurrenciasAlFinal([Ana20, Luis17], Ana22, nombre);
    OcurrenciasAlFinal([Ana20, Luis17, Ana22], Pedro30, nombre);
    OcurrenciasAlFinal([Ana20, Luis17, Ana22, Pedro30], Luis25, nombre);
    assert [Ana20] == [] + [Ana20];
    assert [Ana20, Luis17] == [Ana20] + [Luis17];
    assert [Ana20, Luis17, Ana22] == [Ana20, Luis17] + [Ana22];
    assert [Ana20, Luis17, Ana22, Pedro30] == [Ana20, Luis17, Ana22] + [Pedro30];
    assert Ejemplo.personas == [Ana20, Luis17, Ana22, Pedro30] + [Luis25];
  }

  /** The most common name of the sample is one of the two names that tie
      for first place; which of them depends on the dictionary's order. */
  lemma EjemploNombreMasComun()
    ensures NombreMasComun(Ejemplo) == Some("Ana") || NombreMasComun(Ejemplo) == Some("Luis")
  {
    var ps := Ejemplo.personas;
    var r := NombreMasComun(Ejemplo);
    EjemploOcurrencias("Ana");
    EjemploOcurrencias(r.value);
    assert Ocurrencias(ps, ps[0].nombre) <= Ocurrencias(ps, r.value);
  }
}
