/**
  The dependency-theory engine: attribute closure under a list of functional
  dependencies, the superkey and candidate-key tests built on it, and the
  BCNF and 4NF classifiers built on those.

  Each algorithm is a method that follows the loops of the library; each is
  proved against a ghost specification (`ClosureOf`, `Superkey`,
  `KeyByRemoval`, `InBcnf`, `In4nf`) whose properties are proved as lemmas.
 */
module Algorithms {
  import opened Components

  // ---------------------------------------------------------------------------
  // Closure: specification
  // ---------------------------------------------------------------------------

  /** Every attribute that appears in the dependant of some FD of `fds`. */
  ghost function Dependants(fds: seq<FunctionalDependency>): set<Attribute>
  {
    set fd, a | fd in fds && a in fd.dependant :: a
  }

  /** `s` is closed under `fds`: an FD whose determinant lies in `s` has its dependant in `s`. */
  ghost predicate Closed(s: set<Attribute>, fds: seq<FunctionalDependency>)
  {
    forall fd :: fd in fds && fd.determinant <= s ==> fd.dependant <= s
  }

  /** What one FD does to the running closure: add its missing dependants once its determinant is covered. */
  ghost function Apply(current: set<Attribute>, fd: FunctionalDependency): (r: set<Attribute>)
    ensures current <= r <= current + fd.dependant
    ensures fd.determinant <= current ==> fd.dependant <= r
    ensures !(fd.determinant <= current) ==> r == current
    ensures r == current + fd.dependant || r == current
  {
    if fd.determinant <= current then current + (fd.dependant - current) else current
  }

  /** One full pass of the closure loop over `fds`, visiting them in order. */
  ghost function Pass(current: set<Attribute>, fds: seq<FunctionalDependency>): (r: set<Attribute>)
    ensures current <= r
    decreases |fds|
  {
    if fds == [] then current
    else Apply(Pass(current, fds[..|fds| - 1]), fds[|fds| - 1])
  }

  /** A pass only adds attributes that some FD has as dependant. */
  lemma {:induction false} PassBounded(current: set<Attribute>, fds: seq<FunctionalDependency>)
    ensures Pass(current, fds) <= current + Dependants(fds)
    decreases |fds|
  {
    if fds != [] {
      var prefix := fds[..|fds| - 1];
      assert forall fd :: fd in prefix ==> fd in fds;
      PassBounded(current, prefix);
      assert fds[|fds| - 1] in fds;
    }
  }

  /** Repeat passes until one adds nothing: the attribute closure of `attributes` under `fds`. */
  ghost function ClosureOf(attributes: set<Attribute>, fds: seq<FunctionalDependency>): (r: set<Attribute>)
    ensures attributes <= r <= attributes + Dependants(fds)
    decreases |Dependants(fds) - attributes|
  {
    var next := Pass(attributes, fds);
    if next == attributes then attributes
    else
      PassBounded(attributes, fds);
      FewerMissing(attributes, next, Dependants(fds));
      ClosureOf(next, fds)
  }

  /** A proper subset misses some element. */
  lemma StrictSubsetMissing(x: set<Attribute>, y: set<Attribute>)
    requires x < y
    ensures y - x != {}
  {
    if y - x == {} {
      forall e | e in y
        ensures e in x
      {
        assert e !in y - x;
      }
    }
  }

  /** A proper subset is smaller. */
  lemma StrictSubsetSmaller(x: set<Attribute>, y: set<Attribute>)
    requires x < y
    ensures |x| < |y|
  {
    StrictSubsetMissing(x, y);
    assert y == x + (y - x);
  }

  /** Growing the running closure inside its bound leaves strictly fewer attributes to add. */
  lemma FewerMissing(current: set<Attribute>, next: set<Attribute>, bound: set<Attribute>)
    requires current < next <= current + bound
    ensures |bound - next| < |bound - current|
  {
    StrictSubsetMissing(current, next);
    var e :| e in next - current;
    assert e in bound - current && e !in bound - next;
    StrictSubsetSmaller(bound - next, bound - current);
  }

  /** A pass over one more FD is the shorter pass followed by that FD. */
  lemma PassExtend(current: set<Attribute>, fds: seq<FunctionalDependency>, i: nat)
    requires i < |fds|
    ensures Pass(current, fds[..i + 1]) == Apply(Pass(current, fds[..i]), fds[i])
  {
    assert fds[..i + 1][..i] == fds[..i];
  }

  // ---------------------------------------------------------------------------
  // Closure: properties of the specification
  // ---------------------------------------------------------------------------

  /** A pass never leaves a closed superset of where it started. */
  lemma {:induction false} PassStaysWithin(current: set<Attribute>, fds: seq<FunctionalDependency>, y: set<Attribute>)
    requires current <= y && Closed(y, fds)
    ensures Pass(current, fds) <= y
    decreases |fds|
  {
    if fds != [] {
      var prefix := fds[..|fds| - 1];
      assert forall fd :: fd in prefix ==> fd in fds;
      PassStaysWithin(current, prefix, y);
      assert fds[|fds| - 1] in fds;
    }
  }

  /** A pass that adds nothing ends on a closed set: the loop's exit condition is sound. */
  lemma {:induction false} PassFixedIsClosed(current: set<Attribute>, fds: seq<FunctionalDependency>)
    requires Pass(current, fds) == current
    ensures Closed(current, fds)
    decreases |fds|
  {
    if fds != [] {
      var prefix, last := fds[..|fds| - 1], fds[|fds| - 1];
      assert fds == prefix + [last];
      PassFixedIsClosed(current, prefix);
    }
  }

  /** The closure contains its input and is closed under the FDs. */
  lemma {:induction false} ClosureIsClosed(attributes: set<Attribute>, fds: seq<FunctionalDependency>)
    ensures attributes <= ClosureOf(attributes, fds)
    ensures Closed(ClosureOf(attributes, fds), fds)
    decreases |Dependants(fds) - attributes|
  {
    var next := Pass(attributes, fds);
    if next == attributes {
      PassFixedIsClosed(attributes, fds);
    } else {
      PassBounded(attributes, fds);
      FewerMissing(attributes, next, Dependants(fds));
      ClosureIsClosed(next, fds);
    }
  }

  /** The closure lies inside every closed superset of its input. */
  lemma {:induction false} ClosureIsLeast(attributes: set<Attribute>, fds: seq<FunctionalDependency>, y: set<Attribute>)
    requires attributes <= y && Closed(y, fds)
    ensures ClosureOf(attributes, fds) <= y
    decreases |Dependants(fds) - attributes|
  {
    var next := Pass(attributes, fds);
    if next != attributes {
      PassStaysWithin(attributes, fds, y);
      PassBounded(attributes, fds);
      FewerMissing(attributes, next, Dependants(fds));
      ClosureIsLeast(next, fds, y);
    }
  }

  /** The closure is the least closed superset of its input. */
  lemma ClosureIsLeastClosedSuperset(attributes: set<Attribute>, fds: seq<FunctionalDependency>)
    ensures attributes <= ClosureOf(attributes, fds) && Closed(ClosureOf(attributes, fds), fds)
    ensures forall y :: attributes <= y && Closed(y, fds) ==> ClosureOf(attributes, fds) <= y
  {
    ClosureIsClosed(attributes, fds);
    forall y | attributes <= y && Closed(y, fds)
      ensures ClosureOf(attributes, fds) <= y
    {
      ClosureIsLeast(attributes, fds, y);
    }
  }

  /** A set that is already closed is its own closure. */
  lemma ClosureOfClosed(attributes: set<Attribute>, fds: seq<FunctionalDependency>)
    requires Closed(attributes, fds)
    ensures ClosureOf(attributes, fds) == attributes
  {
    ClosureIsLeast(attributes, fds, attributes);
  }

  /** Closure is idempotent. */
  lemma ClosureIdempotent(attributes: set<Attribute>, fds: seq<FunctionalDependency>)
    ensures ClosureOf(ClosureOf(attributes, fds), fds) == ClosureOf(attributes, fds)
  {
    ClosureIsClosed(attributes, fds);
    ClosureOfClosed(ClosureOf(attributes, fds), fds);
  }

  /** Closure is monotone in the attribute set. */
  lemma ClosureMonotone(x: set<Attribute>, y: set<Attribute>, fds: seq<FunctionalDependency>)
    requires x <= y
    ensures ClosureOf(x, fds) <= ClosureOf(y, fds)
  {
    ClosureIsClosed(y, fds);
    ClosureIsLeast(x, fds, ClosureOf(y, fds));
  }

  /** Two FD lists with the same closed sets around a given input give it the same closure. */
  lemma SameClosure(attributes: set<Attribute>, f: seq<FunctionalDependency>, g: seq<FunctionalDependency>)
    requires Closed(ClosureOf(attributes, f), g) && Closed(ClosureOf(attributes, g), f)
    ensures ClosureOf(attributes, f) == ClosureOf(attributes, g)
  {
    ClosureIsLeast(attributes, g, ClosureOf(attributes, f));
    ClosureIsLeast(attributes, f, ClosureOf(attributes, g));
  }

  /** The closure depends only on which FDs there are, not on the order the loop visits them. */
  lemma ClosureIgnoresOrder(attributes: set<Attribute>, f: seq<FunctionalDependency>, g: seq<FunctionalDependency>)
    requires forall fd :: fd in f <==> fd in g
    ensures ClosureOf(attributes, f) == ClosureOf(attributes, g)
  {
    ClosureIsClosed(attributes, f);
    ClosureIsClosed(attributes, g);
    SameClosure(attributes, f, g);
  }

  /** Adding a trivial FD changes no closure. */
  lemma ClosureIgnoresTrivial(attributes: set<Attribute>, fds: seq<FunctionalDependency>, t: FunctionalDependency)
    requires t.IsTrivial()
    ensures ClosureOf(attributes, fds + [t]) == ClosureOf(attributes, fds)
  {
    ClosureIsClosed(attributes, fds);
    ClosureIsClosed(attributes, fds + [t]);
    assert forall fd :: fd in fds ==> fd in fds + [t];
    SameClosure(attributes, fds, fds + [t]);
  }

  /** With non-empty determinants nothing fires on the empty set, so its closure is empty. */
  lemma ClosureOfEmpty(fds: seq<FunctionalDependency>)
    requires forall fd :: fd in fds ==> fd.determinant != {}
    ensures ClosureOf({}, fds) == {}
  {
    ClosureOfClosed({}, fds);
  }

  // ---------------------------------------------------------------------------
  // Closure: the loop of the library
  // ---------------------------------------------------------------------------

  /**
    Start from a copy of `attributes` and make full passes over `fds`, adding
    the missing dependants of every FD whose determinant is covered, until a
    pass adds nothing.
   */
  method Closure(attributes: set<Attribute>, fds: seq<FunctionalDependency>) returns (result: set<Attribute>)
    ensures result == ClosureOf(attributes, fds)
    ensures attributes <= result && Closed(result, fds)
    ensures forall y :: attributes <= y && Closed(y, fds) ==> result <= y
    ensures result <= attributes + Dependants(fds)
    ensures fds == [] ==> result == attributes
  {
    result := attributes;
    ghost var bound := attributes + Dependants(fds);
    while true
      invariant attributes <= result <= bound
      invariant ClosureOf(result, fds) == ClosureOf(attributes, fds)
      decreases |bound - result|
    {
      var closureChanged := false;
      ghost var start := result;
      ghost var added := Attribute("");
      for i := 0 to |fds|
        invariant result == Pass(start, fds[..i])
        invariant !closureChanged ==> result == start
        invariant closureChanged ==> added in result && added !in start
      {
        var fd := fds[i];
        PassExtend(start, fds, i);
        if fd.determinant <= result {
          var newAttributes := fd.dependant - result;
          if newAttributes != {} {
            added :| added in newAttributes;
            result := result + newAttributes;
            closureChanged := true;
          }
        }
      }
      assert fds[..|fds|] == fds;
      if !closureChanged {
        break;
      }
      PassBounded(start, fds);
      FewerMissing(start, result, bound);
    }
    ClosureIsLeastClosedSuperset(attributes, fds);
  }

  // ---------------------------------------------------------------------------
  // Superkeys
  // ---------------------------------------------------------------------------

  /** `attributes` is a superkey of `heading` under `fds`: its closure covers the heading. */
  ghost predicate Superkey(attributes: set<Attribute>, heading: set<Attribute>, fds: seq<FunctionalDependency>)
  {
    heading <= ClosureOf(attributes, fds)
  }

  /** A superkey is exactly a set whose every closed superset covers the heading. */
  lemma SuperkeyIffClosedSupersetsCover(attributes: set<Attribute>, heading: set<Attribute>, fds: seq<FunctionalDependency>)
    ensures Superkey(attributes, heading, fds) <==>
            forall y :: attributes <= y && Closed(y, fds) ==> heading <= y
  {
    ClosureIsClosed(attributes, fds);
    forall y | attributes <= y && Closed(y, fds)
      ensures ClosureOf(attributes, fds) <= y
    {
      ClosureIsLeast(attributes, fds, y);
    }
  }

  /** Every superset of a superkey is a superkey. */
  lemma SupersetOfSuperkey(x: set<Attribute>, y: set<Attribute>, heading: set<Attribute>, fds: seq<FunctionalDependency>)
    requires x <= y && Superkey(x, heading, fds)
    ensures Superkey(y, heading, fds)
  {
    ClosureMonotone(x, y, fds);
  }

  /** The superkey test: compute the closure and compare it with the heading. */
  method IsSuperkey(attributes: set<Attribute>, heading: set<Attribute>, fds: seq<FunctionalDependency>) returns (b: bool)
    ensures b == Superkey(attributes, heading, fds)
    ensures b <==> forall y :: attributes <= y && Closed(y, fds) ==> heading <= y
  {
    var attributeClosure := Closure(attributes, fds);
    b := heading <= attributeClosure;
  }

  // ---------------------------------------------------------------------------
  // Candidate keys
  // ---------------------------------------------------------------------------

  /**
    What the key test decides: a superkey that has at most one attribute, or
    from which removing any one attribute leaves an empty set or a non-superkey.
   */
  ghost predicate KeyByRemoval(attributes: set<Attribute>, heading: set<Attribute>, fds: seq<FunctionalDependency>)
    ensures CandidateKey(attributes, heading, fds) ==> KeyByRemoval(attributes, heading, fds)
  {
    assert forall a :: a in attributes ==> attributes - {a} < attributes;
    && Superkey(attributes, heading, fds)
    && (|attributes| <= 1 ||
        forall a :: a in attributes && attributes - {a} != {} ==> !Superkey(attributes - {a}, heading, fds))
  }

  /** The textbook candidate key: a superkey of which no proper subset is a superkey. */
  ghost predicate CandidateKey(attributes: set<Attribute>, heading: set<Attribute>, fds: seq<FunctionalDependency>)
  {
    Superkey(attributes, heading, fds) && forall y :: y < attributes ==> !Superkey(y, heading, fds)
  }

  /**
    When the heading and every determinant are non-empty (as in any valid
    relvar), testing one-attribute removals decides minimality exactly.
   */
  lemma KeyByRemovalIffCandidateKey(attributes: set<Attribute>, heading: set<Attribute>, fds: seq<FunctionalDependency>)
    requires heading != {}
    requires forall fd :: fd in fds ==> fd.determinant != {}
    ensures KeyByRemoval(attributes, heading, fds) <==> CandidateKey(attributes, heading, fds)
  {
    if KeyByRemoval(attributes, heading, fds) {
      forall y | y < attributes
        ensures !Superkey(y, heading, fds)
      {
        NoSmallerSuperkey(attributes, heading, fds, y);
      }
    }
    if CandidateKey(attributes, heading, fds) {
      forall a | a in attributes
        ensures !Superkey(attributes - {a}, heading, fds)
      {
        assert attributes - {a} < attributes;
      }
    }
  }

  /** One proper subset at a time: a set that passes the removal test has no smaller superkey. */
  lemma NoSmallerSuperkey(attributes: set<Attribute>, heading: set<Attribute>, fds: seq<FunctionalDependency>, y: set<Attribute>)
    requires heading != {}
    requires forall fd :: fd in fds ==> fd.determinant != {}
    requires KeyByRemoval(attributes, heading, fds) && y < attributes
    ensures !Superkey(y, heading, fds)
  {
    if y == {} {
      ClosureOfEmpty(fds);
    } else {
      StrictSubsetSmaller(y, attributes);
      StrictSubsetMissing(y, attributes);
      var a :| a in attributes - y;
      assert y <= attributes - {a};
      if Superkey(y, heading, fds) {
        SupersetOfSuperkey(y, attributes - {a}, heading, fds);
      }
    }
  }

  /**
    Without those conditions the shortcut for one-attribute sets can accept a
    non-minimal key: with an empty heading the empty set is already a superkey.
   */
  lemma KeyByRemovalNeedsNonEmptyHeading()
    ensures KeyByRemoval({Attribute("A")}, {}, [])
    ensures !CandidateKey({Attribute("A")}, {}, [])
  {
  }

  /**
    Without non-empty determinants the shortcut fails the same way: an FD
    with an empty determinant makes the empty set a superkey.
   */
  lemma KeyByRemovalNeedsNonEmptyDeterminants()
    ensures KeyByRemoval({Attribute("A")}, {Attribute("A")}, [FunctionalDependency({}, {Attribute("A")})])
    ensures !CandidateKey({Attribute("A")}, {Attribute("A")}, [FunctionalDependency({}, {Attribute("A")})])
  {
  }

  /** In a valid relvar the removal test decides textbook minimality exactly. */
  lemma ValidRelvarKeyTest(r: Relvar, attributes: set<Attribute>)
    requires r.Valid()
    ensures KeyByRemoval(attributes, r.heading, r.functionalDependencies) <==>
            CandidateKey(attributes, r.heading, r.functionalDependencies)
  {
    KeyByRemovalIffCandidateKey(attributes, r.heading, r.functionalDependencies);
  }

  /**
    The key test: reject a non-superkey, accept a superkey with at most one
    attribute, otherwise reject as soon as removing one attribute leaves a
    non-empty superkey.
   */
  method IsKey(attributes: set<Attribute>, heading: set<Attribute>, fds: seq<FunctionalDependency>) returns (b: bool)
    ensures b == KeyByRemoval(attributes, heading, fds)
    ensures !Superkey(attributes, heading, fds) ==> !b
    ensures b ==> forall a :: a in attributes && attributes - {a} != {} ==> !Superkey(attributes - {a}, heading, fds)
  {
    var isSuperkey := IsSuperkey(attributes, heading, fds);
    if !isSuperkey {
      return false;
    }
    if |attributes| <= 1 {
      forall a | a in attributes
        ensures attributes - {a} == {}
      {
        if attributes - {a} != {} {
          StrictSubsetSmaller({a}, attributes);
        }
      }
      return true;
    }
    var remaining := attributes;
    while remaining != {}
      invariant remaining <= attributes
      invariant forall a :: a in attributes - remaining && attributes - {a} != {} ==>
                  !Superkey(attributes - {a}, heading, fds)
      decreases |remaining|
    {
      var attrToRemove :| attrToRemove in remaining;
      remaining := remaining - {attrToRemove};
      var properSubset := attributes - {attrToRemove};
      if properSubset == {} {
        continue;
      }
      var properIsSuperkey := IsSuperkey(properSubset, heading, fds);
      if properIsSuperkey {
        return false;
      }
    }
    return true;
  }

  // ---------------------------------------------------------------------------
  // Normal forms
  // ---------------------------------------------------------------------------

  /** BCNF: the determinant of every non-trivial FD is a superkey under the relvar's FDs. */
  ghost predicate InBcnf(r: Relvar)
  {
    forall fd :: fd in r.functionalDependencies && !fd.IsTrivial() ==>
      Superkey(fd.determinant, r.heading, r.functionalDependencies)
  }

  /**
    4NF: BCNF, and the determinant of every MVD that is non-trivial in the
    heading is a superkey, judged under the FDs alone.
   */
  ghost predicate In4nf(r: Relvar)
  {
    && InBcnf(r)
    && forall mvd :: mvd in r.multivaluedDependencies && !mvd.IsTrivial(r.heading) ==>
         Superkey(mvd.determinant, r.heading, r.functionalDependencies)
  }

  /** Adding a trivial FD to a relvar never changes its BCNF verdict. */
  lemma BcnfIgnoresTrivialFd(r: Relvar, t: FunctionalDependency)
    requires t.IsTrivial()
    ensures InBcnf(r.(functionalDependencies := r.functionalDependencies + [t])) == InBcnf(r)
  {
    var fds := r.functionalDependencies;
    forall x: set<Attribute>
      ensures ClosureOf(x, fds + [t]) == ClosureOf(x, fds)
    {
      ClosureIgnoresTrivial(x, fds, t);
    }
    assert forall fd :: fd in fds + [t] <==> fd in fds || fd == t;
  }

  /** The BCNF verdict depends only on which FDs there are, not on their order. */
  lemma BcnfIgnoresOrder(r: Relvar, fds: seq<FunctionalDependency>)
    requires forall fd :: fd in fds <==> fd in r.functionalDependencies
    ensures InBcnf(r.(functionalDependencies := fds)) == InBcnf(r)
  {
    forall x: set<Attribute>
      ensures ClosureOf(x, fds) == ClosureOf(x, r.functionalDependencies)
    {
      ClosureIgnoresOrder(x, fds, r.functionalDependencies);
    }
  }

  /** The BCNF test: reject at the first non-trivial FD whose determinant is not a superkey. */
  method IsRelvarInBcnf(r: Relvar) returns (ok: bool)
    ensures ok == InBcnf(r)
  {
    var fds := r.functionalDependencies;
    for i := 0 to |fds|
      invariant forall j :: 0 <= j < i && !fds[j].IsTrivial() ==> Superkey(fds[j].determinant, r.heading, fds)
    {
      var fd := fds[i];
      if !fd.IsTrivial() {
        var determinantIsSuperkey := IsSuperkey(fd.determinant, r.heading, fds);
        if !determinantIsSuperkey {
          return false;
        }
      }
    }
    return true;
  }

  /**
    The 4NF test: reject unless in BCNF, then reject at the first MVD that is
    non-trivial in the heading and whose determinant is not a superkey.
   */
  method IsRelvarIn4nf(r: Relvar) returns (ok: bool)
    ensures ok == In4nf(r)
    ensures ok ==> InBcnf(r)
    ensures !InBcnf(r) ==> !ok
  {
    var inBcnf := IsRelvarInBcnf(r);
    if !inBcnf {
      return false;
    }
    var mvds := r.multivaluedDependencies;
    for i := 0 to |mvds|
      invariant forall j :: 0 <= j < i && !mvds[j].IsTrivial(r.heading) ==>
                  Superkey(mvds[j].determinant, r.heading, r.functionalDependencies)
    {
      var mvd := mvds[i];
      if !mvd.IsTrivial(r.heading) {
        var determinantIsSuperkey := IsSuperkey(mvd.determinant, r.heading, r.functionalDependencies);
        if !determinantIsSuperkey {
          return false;
        }
      }
    }
    return true;
  }
}
