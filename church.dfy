/**
  Church numerals as an inductive type: zero, or the successor of a
  numeral.  Addition and multiplication recurse on the left operand, and a
  numeral prints as nested `Suc(...)` around `Cero`.
 */
module ChurchNumerals {

  datatype Church = Cero | Sucesor(anterior: Church)

  /** The number a numeral denotes: how many successors it holds. */
  function ToNat(c: Church): nat {
    match c
    case Cero => 0
    case Sucesor(anterior) => ToNat(anterior) + 1
  }

  /** The numeral with `n` successors. */
  function FromNat(n: nat): (c: Church)
    ensures ToNat(c) == n
  {
    if n == 0 then Cero else Sucesor(FromNat(n - 1))
  }

  /** Addition: zero plus `otro` is `otro`, and a successor plus `otro` is the
      successor of the sum of its predecessor and `otro`. */
  function Sumar(c: Church, otro: Church): (r: Church)
    ensures ToNat(r) == ToNat(c) + ToNat(otro)
  {
    match c
    case Cero => otro
    case Sucesor(anterior) => Sucesor(Sumar(anterior, otro))
  }

  /** Multiplication: zero times anything is zero, and a successor times
      `otro` adds `otro` to the product of its predecessor and `otro`. */
  function Multiplicar(c: Church, otro: Church): (r: Church)
    ensures ToNat(r) == ToNat(c) * ToNat(otro)
  {
    match c
    case Cero => Cero
    case Sucesor(anterior) =>
      var r := Sumar(otro, Multiplicar(anterior, otro));
      assert ToNat(r) == ToNat(otro) + ToNat(anterior) * ToNat(otro);
      assert (ToNat(anterior) + 1) * ToNat(otro) == ToNat(anterior) * ToNat(otro) + ToNat(otro);
      r
  }

  /** `s` written `n` times in a row. */
  function Repeat(s: string, n: nat): string {
    if n == 0 then [] else s + Repeat(s, n - 1)
  }

  /** One more copy may go at the end as well as at the front. */
  lemma {:induction false} RepeatAppend(s: string, n: nat)
    ensures Repeat(s, n) + s == Repeat(s, n + 1)
    ensures |Repeat(s, n)| == n * |s|
  {
    if n > 0 {
      RepeatAppend(s, n - 1);
      assert Repeat(s, n) + s == s + (Repeat(s, n - 1) + s);
    }
  }

  /** The text of a numeral: each successor adds five characters around the
      four of `Cero`. */
  function Imprimir(c: Church): (r: string)
    ensures |r| == 5 * ToNat(c) + 4
  {
    match c
    case Cero => "Cero"
    case Sucesor(anterior) => "Suc(" + Imprimir(anterior) + ")"
  }

  /** The numeral with n successors prints as n opening `Suc(`, then `Cero`,
      then n closing parentheses. */
  lemma {:induction false} ImprimirForma(c: Church)
    ensures Imprimir(c) == Repeat("Suc(", ToNat(c)) + "Cero" + Repeat(")", ToNat(c))
  {
    if c.Sucesor? {
      var n := ToNat(c.anterior);
      ImprimirForma(c.anterior);
      RepeatAppend(")", n);
      assert "Suc(" + Imprimir(c.anterior) + ")"
          == ("Suc(" + Repeat("Suc(", n)) + "Cero" + (Repeat(")", n) + ")");
    }
  }

  /** A numeral is determined by the number it denotes. */
  lemma {:induction false} ToNatInjective(a: Church, b: Church)
    ensures ToNat(a) == ToNat(b) ==> a == b
  {
    if a.Sucesor? && b.Sucesor? {
      ToNatInjective(a.anterior, b.anterior);
    }
  }

  /** The two conversions are mutually inverse. */
  lemma FromNatToNat(c: Church)
    ensures FromNat(ToNat(c)) == c
  {
    ToNatInjective(FromNat(ToNat(c)), c);
  }

  /** Zero is a right unit of addition as well as a left one. */
  lemma {:induction false} SumarCeroDerecha(c: Church)
    ensures Sumar(c, Cero) == c
  {
    if c.Sucesor? {
      SumarCeroDerecha(c.anterior);
    }
  }

  /** A successor on the right comes out of the sum. */
  lemma {:induction false} SumarSucesorDerecha(c: Church, otro: Church)
    ensures Sumar(c, Sucesor(otro)) == Sucesor(Sumar(c, otro))
  {
    if c.Sucesor? {
      SumarSucesorDerecha(c.anterior, otro);
    }
  }

  lemma SumarConmutativa(a: Church, b: Church)
    ensures Sumar(a, b) == Sumar(b, a)
  {
    ToNatInjective(Sumar(a, b), Sumar(b, a));
  }

  lemma SumarAsociativa(a: Church, b: Church, c: Church)
    ensures Sumar(Sumar(a, b), c) == Sumar(a, Sumar(b, c))
  {
    ToNatInjective(Sumar(Sumar(a, b), c), Sumar(a, Sumar(b, c)));
  }

  /** Zero annihilates multiplication on the right as well as on the left. */
  lemma {:induction false} MultiplicarCeroDerecha(c: Church)
    ensures Multiplicar(c, Cero) == Cero
  {
    if c.Sucesor? {
      MultiplicarCeroDerecha(c.anterior);
    }
  }

  lemma MultiplicarConmutativa(a: Church, b: Church)
    ensures Multiplicar(a, b) == Multiplicar(b, a)
  {
    ToNatInjective(Multiplicar(a, b), Multiplicar(b, a));
  }

  /** Different numerals print differently. */
  lemma ImprimirInjective(a: Church, b: Church)
    ensures Imprimir(a) == Imprimir(b) ==> a == b
  {
    ToNatInjective(a, b);
  }

  const Uno: Church := Sucesor(Cero)
  const Dos: Church := Sucesor(Uno)
  const Tres: Church := Sucesor(Dos)

  /** Two plus three is the numeral with five successors. */
  lemma SumaEjemplo()
    ensures Sumar(Dos, Tres) == FromNat(5)
  {
    ToNatInjective(Sumar(Dos, Tres), FromNat(5));
  }

  /** Two times three is the numeral with six successors. */
  lemma MultiplicacionEjemplo()
    ensures Multiplicar(Dos, Tres) == FromNat(6)
  {
    ToNatInjective(Multiplicar(Dos, Tres), FromNat(6));
  }

  lemma ImprimirCinco()
    ensures Imprimir(FromNat(5)) == "Suc(Suc(Suc(Suc(Suc(Cero)))))"
  {
    var tres := FromNat(3);
    assert tres == Sucesor(Sucesor(Sucesor(Cero)));
    assert Imprimir(tres) == "Suc(Suc(Suc(Cero)))";
    assert FromNat(5) == Sucesor(Sucesor(tres));
    EnvolverDos("Suc(Suc(Suc(Cero)))");
  }

  lemma ImprimirSeis()
    ensures Imprimir(FromNat(6)) == "Suc(Suc(Suc(Suc(Suc(Suc(Cero))))))"
  {
    ImprimirCinco();
    assert FromNat(6) == Sucesor(FromNat(5));
    EnvolverUno("Suc(Suc(Suc(Suc(Suc(Cero)))))");
  }

  lemma EnvolverDos(s: string)
    requires s == "Suc(Suc(Suc(Cero)))"
    ensures "Suc(" + ("Suc(" + s + ")") + ")" == "Suc(Suc(Suc(Suc(Suc(Cero)))))"
  {
  }

  lemma EnvolverUno(s: string)
    requires s == "Suc(Suc(Suc(Suc(Suc(Cero)))))"
    ensures "Suc(" + s + ")" == "Suc(Suc(Suc(Suc(Suc(Suc(Cero))))))"
  {
  }
}
