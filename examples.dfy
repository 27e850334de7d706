/**
  The scenarios of the library's demonstration script, each stated as a lemma
  about the specifications the algorithms are proved against (so, through the
  methods' postconditions, about what the algorithms return).
 */
module Examples {
  import opened Components
  import opened Algorithms

  const A := Attribute("A")
  const B := Attribute("B")
  const C := Attribute("C")
  const D := Attribute("D")

  /** The triviality checks of the script. */
  lemma TrivialityExamples()
    ensures FunctionalDependency({A, B}, {A}).IsTrivial()
    ensures !FunctionalDependency({A}, {B}).IsTrivial()
    ensures MultivaluedDependency({A, B}, {A}).IsTrivial({A, B, C, D})
    ensures MultivaluedDependency({A, B}, {C, D}).IsTrivial({A, B, C, D})
    ensures !MultivaluedDependency({A}, {B}).IsTrivial({A, B, C, D})
  {
  }

  // ---------------------------------------------------------------------------
  // The invoice schema
  // ---------------------------------------------------------------------------

  const Nombre := Attribute("Nombre")
  const Rfc := Attribute("RFC")
  const Cp := Attribute("CP")
  const RegimenF := Attribute("RegimenF")
  const RegimenC := Attribute("RegimenC")
  const Cfdi := Attribute("CFDI")
  const FolioF := Attribute("FolioF")
  const MontoF := Attribute("MontoF")
  const Iva := Attribute("IVA")
  const FechaF := Attribute("FechaF")
  const Producto := Attribute("Producto")
  const FolioP := Attribute("FolioP")
  const MontoP := Attribute("MontoP")
  const FechaP := Attribute("FechaP")

  const InvoiceHeading := {Nombre, Rfc, Cp, RegimenF, RegimenC, Cfdi, FolioF, MontoF, Iva, FechaF,
                           Producto, FolioP, MontoP, FechaP}

  const InvoiceFds := [
    FunctionalDependency({Rfc}, {Nombre, Cp}),
    FunctionalDependency({FolioF}, {Rfc}),
    FunctionalDependency({FolioF}, {MontoF, Iva, FechaF}),
    FunctionalDependency({FolioF}, {RegimenF, Cfdi}),
    FunctionalDependency({FolioP}, {MontoP, FechaP}),
    FunctionalDependency({FolioP}, {FolioF})
  ]

  const InvoiceMvd := MultivaluedDependency({Rfc}, {RegimenC})

  const Invoice := Relvar(InvoiceHeading, InvoiceFds, [InvoiceMvd])

  /** Everything `{FolioP}` determines: the heading except `Producto` and `RegimenC`. */
  const FolioPClosure := {FolioP, MontoP, FechaP, FolioF, Rfc, Nombre, Cp, MontoF, Iva, FechaF, RegimenF, Cfdi}

  /** The invoice relvar satisfies the construction invariants. */
  lemma InvoiceIsValid()
    ensures Invoice.Valid()
  {
  }

  /** `{RFC}` determines exactly `{RFC, Nombre, CP}`. */
  lemma ClosureOfRfc()
    ensures ClosureOf({Rfc}, InvoiceFds) == {Rfc, Nombre, Cp}
  {
    var s := {Rfc, Nombre, Cp};
    assert Closed(s, InvoiceFds);
    ClosureIsLeast({Rfc}, InvoiceFds, s);
    ClosureIsClosed({Rfc}, InvoiceFds);
    assert InvoiceFds[0] in InvoiceFds;
  }

  /** `{FolioP}` determines every attribute but `Producto` and `RegimenC`. */
  lemma ClosureOfFolioP()
    ensures ClosureOf({FolioP}, InvoiceFds) == FolioPClosure
  {
    assert Closed(FolioPClosure, InvoiceFds);
    ClosureIsLeast({FolioP}, InvoiceFds, FolioPClosure);
    ClosureIsClosed({FolioP}, InvoiceFds);
    var c := ClosureOf({FolioP}, InvoiceFds);
    assert InvoiceFds[4] in InvoiceFds && InvoiceFds[5] in InvoiceFds;
    assert FolioF in c;
    assert InvoiceFds[1] in InvoiceFds && InvoiceFds[2] in InvoiceFds && InvoiceFds[3] in InvoiceFds;
    assert Rfc in c;
    assert InvoiceFds[0] in InvoiceFds;
  }

  /** A closed set around `x` that misses part of the heading shows that `x` is not a superkey. */
  lemma NotSuperkeyWitness(x: set<Attribute>, heading: set<Attribute>, fds: seq<FunctionalDependency>,
                           s: set<Attribute>, missing: Attribute)
    requires x <= s && Closed(s, fds) && missing in heading && missing !in s
    ensures !Superkey(x, heading, fds)
  {
    ClosureIsLeast(x, fds, s);
  }

  /** `{FolioP}` is neither a superkey nor a candidate key of the invoice relvar. */
  lemma FolioPIsNotAKey()
    ensures !Superkey({FolioP}, InvoiceHeading, InvoiceFds)
    ensures !KeyByRemoval({FolioP}, InvoiceHeading, InvoiceFds)
  {
    assert Closed(FolioPClosure, InvoiceFds);
    NotSuperkeyWitness({FolioP}, InvoiceHeading, InvoiceFds, FolioPClosure, Producto);
  }

  /** `{FolioP, Producto, RegimenC}` is a superkey: `{FolioP}` brings in everything else. */
  lemma InvoiceKeyIsSuperkey()
    ensures Superkey({FolioP, Producto, RegimenC}, InvoiceHeading, InvoiceFds)
  {
    var key := {FolioP, Producto, RegimenC};
    ClosureOfFolioP();
    ClosureMonotone({FolioP}, key, InvoiceFds);
    ClosureIsClosed(key, InvoiceFds);
    assert forall a :: a in InvoiceHeading ==> a in FolioPClosure || a in key;
  }

  /** Without `FolioP` nothing fires. */
  lemma InvoiceKeyNeedsFolioP()
    ensures !Superkey({FolioP, Producto, RegimenC} - {FolioP}, InvoiceHeading, InvoiceFds)
  {
  }

  /** Nothing determines `Producto`. */
  lemma InvoiceKeyNeedsProducto()
    ensures !Superkey({FolioP, Producto, RegimenC} - {Producto}, InvoiceHeading, InvoiceFds)
  {
  }

  /** Nothing determines `RegimenC`. */
  lemma InvoiceKeyNeedsRegimenC()
    ensures !Superkey({FolioP, Producto, RegimenC} - {RegimenC}, InvoiceHeading, InvoiceFds)
  {
  }

  /** `{FolioP, Producto, RegimenC}` is a candidate key of the invoice relvar. */
  lemma InvoiceKey()
    ensures KeyByRemoval({FolioP, Producto, RegimenC}, InvoiceHeading, InvoiceFds)
    ensures CandidateKey({FolioP, Producto, RegimenC}, InvoiceHeading, InvoiceFds)
  {
    var key := {FolioP, Producto, RegimenC};
    InvoiceKeyIsSuperkey();
    forall a | a in key
      ensures !Superkey(key - {a}, InvoiceHeading, InvoiceFds)
    {
      if a == FolioP {
        InvoiceKeyNeedsFolioP();
      } else if a == Producto {
        InvoiceKeyNeedsProducto();
      } else {
        InvoiceKeyNeedsRegimenC();
      }
    }
    InvoiceIsValid();
    KeyByRemovalIffCandidateKey(key, InvoiceHeading, InvoiceFds);
  }

  /** The invoice relvar is in neither BCNF nor 4NF: `{RFC}` is not a superkey. */
  lemma InvoiceNotInBcnf()
    ensures !InvoiceMvd.IsTrivial(InvoiceHeading)
    ensures !InBcnf(Invoice)
    ensures !In4nf(Invoice)
  {
    ClosureOfRfc();
    assert InvoiceFds[0] in InvoiceFds && !InvoiceFds[0].IsTrivial();
    assert FolioF !in {Rfc, Nombre, Cp};
    assert RegimenC !in {Rfc};
  }

  // ---------------------------------------------------------------------------
  // Small schemas over A, B, C
  // ---------------------------------------------------------------------------

  const AbToC := FunctionalDependency({A, B}, {C})
  const CToB := FunctionalDependency({C}, {B})

  /** Under `AB -> C`, `{A, B}` determines the whole of `{A, B, C}`. */
  lemma AbcClosure()
    ensures ClosureOf({A, B}, [AbToC]) == {A, B, C}
  {
  }

  /** `R(A, B, C)` with `AB -> C` is in BCNF and, having no MVDs, in 4NF. */
  lemma AbcInBcnf()
    ensures InBcnf(Relvar({A, B, C}, [AbToC], []))
    ensures In4nf(Relvar({A, B, C}, [AbToC], []))
  {
  }

  /** Under `AB -> C`, `{A, B}` is a candidate key of `{A, B, C}` and `{A}` is not. */
  lemma AbcKeys()
    ensures KeyByRemoval({A, B}, {A, B, C}, [AbToC])
    ensures !KeyByRemoval({A}, {A, B, C}, [AbToC])
  {
    AbcClosure();
    assert Closed({A}, [AbToC]) && Closed({B}, [AbToC]);
    NotSuperkeyWitness({A}, {A, B, C}, [AbToC], {A}, C);
    NotSuperkeyWitness({B}, {A, B, C}, [AbToC], {B}, C);
    forall a | a in {A, B}
      ensures !Superkey({A, B} - {a}, {A, B, C}, [AbToC])
    {
      if a == A {
        assert {A, B} - {a} == {B};
      } else {
        assert {A, B} - {a} == {A};
      }
    }
  }

  /** `R(A, B, C)` with `AB -> C` and `C -> B` is not in BCNF: `{C}` determines only `{B, C}`. */
  lemma AbcWithCToB()
    ensures ClosureOf({C}, [AbToC, CToB]) == {B, C}
    ensures !InBcnf(Relvar({A, B, C}, [AbToC, CToB], []))
  {
  }

  // ---------------------------------------------------------------------------
  // Courses, teachers and texts
  // ---------------------------------------------------------------------------

  const T := Attribute("T")
  const X := Attribute("X")

  /** `R(C, T, X)` with no FDs and `C ->-> T`, `C ->-> X` is in BCNF but not in 4NF. */
  lemma CourseTeacherText()
    ensures InBcnf(Relvar({C, T, X}, [], [MultivaluedDependency({C}, {T}), MultivaluedDependency({C}, {X})]))
    ensures !In4nf(Relvar({C, T, X}, [], [MultivaluedDependency({C}, {T}), MultivaluedDependency({C}, {X})]))
  {
  }
}
