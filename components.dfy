/**
  The data model the normalization algorithms work on: attributes, functional
  dependencies (FDs), multivalued dependencies (MVDs) and relation variables
  (relvars). All of them are immutable values.
 */
module Components {

  /** An attribute is a name; two attributes are equal exactly when their names are. */
  datatype Attribute = Attribute(name: string)

  /** A functional dependency `determinant -> dependant`. */
  datatype FunctionalDependency = FunctionalDependency(determinant: set<Attribute>, dependant: set<Attribute>)
  {
    /** An FD is trivial when its dependant already lies inside its determinant. */
    predicate IsTrivial()
      ensures IsTrivial() <==> dependant - determinant == {}
    {
      assert dependant - determinant == {} ==> forall a :: a in dependant ==> a !in dependant - determinant;
      dependant <= determinant
    }

    /** A parsed FD never has an empty side. */
    predicate WellFormed()
    {
      determinant != {} && dependant != {}
    }
  }

  /** A multivalued dependency `determinant ->-> dependant`. */
  datatype MultivaluedDependency = MultivaluedDependency(determinant: set<Attribute>, dependant: set<Attribute>)
  {
    /**
      An MVD is trivial in a heading when its dependant lies inside its
      determinant, or when the two sides together make up the whole heading.
     */
    predicate IsTrivial(heading: set<Attribute>)
      ensures determinant + dependant <= heading ==>
                (IsTrivial(heading) <==> dependant - determinant == {} || heading - (determinant + dependant) == {})
    {
      assert dependant - determinant == {} ==> forall a :: a in dependant ==> a !in dependant - determinant;
      assert heading - (determinant + dependant) == {} ==>
               forall a :: a in heading ==> a !in heading - (determinant + dependant);
      dependant <= determinant || determinant + dependant == heading
    }

    /** A parsed MVD never has an empty side. */
    predicate WellFormed()
    {
      determinant != {} && dependant != {}
    }
  }

  /**
    A relation variable: its heading and its dependencies. The dependencies are
    kept as sequences, so the order in which the algorithms visit them is explicit.
   */
  datatype Relvar = Relvar(
    heading: set<Attribute>,
    functionalDependencies: seq<FunctionalDependency>,
    multivaluedDependencies: seq<MultivaluedDependency>)
  {
    /**
      What construction of a relvar guarantees: a non-empty heading, and
      dependencies with non-empty sides that mention only heading attributes.
     */
    predicate Valid()
    {
      && heading != {}
      && (forall fd :: fd in functionalDependencies ==>
            fd.WellFormed() && fd.determinant <= heading && fd.dependant <= heading)
      && (forall mvd :: mvd in multivaluedDependencies ==>
            mvd.WellFormed() && mvd.determinant <= heading && mvd.dependant <= heading)
    }
  }
}
