# Normalization engine in Dafny

A model of the dependency-theory engine of a small relational-normalization
library. Given a relation variable (a heading of attributes, a collection of
functional dependencies and a collection of multivalued dependencies), the engine:

- computes the attribute closure of a set under the FDs;
- decides whether a set is a superkey or a candidate key;
- decides whether the relvar is in Boyce-Codd normal form (BCNF) or in fourth normal form (4NF).

Files:

- `components.dfy`, module `Components`: the data model as immutable values.
  - `Attribute` is a name.
  - `FunctionalDependency` and `MultivaluedDependency` are pairs of attribute sets, each with its triviality test.
  - `Relvar` holds a heading and sequences of FDs and MVDs.
  - `Relvar.Valid` states what relvar construction guarantees: a non-empty heading, and dependencies with non-empty sides inside the heading.
- `algorithms.dfy`, module `Algorithms`: the five operations of `algorithms.py`.
  - Each is a method that follows the library's loops, with the same early returns and the same order of checks.
  - Each is proved against a ghost specification: `ClosureOf` (the same pass-by-pass fixed-point iteration, as a function), `Superkey`, `KeyByRemoval`, `InBcnf` and `In4nf`.
  - Lemmas then prove what these specifications mean: the closure is the least FD-closed superset of its input, and it is extensive, idempotent, monotone and independent of FD order; the removal test equals textbook minimality; trivial FDs never affect BCNF.
- `examples.dfy`, module `Examples`: the expected values of the library's demonstration script, proved as lemmas about the same specifications.

Modelling choices:

- The FD and MVD collections are sequences, so the order in which the loops visit them is explicit. The order does not matter: `ClosureIgnoresOrder` and `BcnfIgnoresOrder` prove it.
- The closure is characterised as the least FD-closed superset of its input. It is not the largest one: the set of all attributes is closed as well, so it is leastness that determines the result.
- The docstring of `is_key` (algorithms.py:58-61) calls a candidate key a superkey with no proper subset that is a superkey. The code tests only one-attribute removals and accepts any superkey of at most one attribute.
  - The model follows the code (`KeyByRemoval`).
  - Every candidate key passes the removal test, with no condition (the postcondition of `KeyByRemoval`).
  - `KeyByRemovalIffCandidateKey` proves the converse whenever the heading and every determinant are non-empty. `ValidRelvarKeyTest` applies it to the heading and FDs of any valid relvar.
  - Both conditions are needed. `KeyByRemovalNeedsNonEmptyHeading` gives a counterexample with an empty heading, and `KeyByRemovalNeedsNonEmptyDeterminants` gives one with an FD whose determinant is empty.

## Model

| member | source | states |
|---|---|---|
| `Algorithms.Closure` | algorithms.py:3-33 | The fixed-point loop returns a superset of its input that is closed under every FD and lies inside every closed superset of the input (the least closed superset). The result lies within the input plus all dependants. With no FDs it returns the input unchanged. The loop terminates. |
| `Components.FunctionalDependency.IsTrivial` | algorithms.py:107-110 | An FD is trivial iff its dependant adds nothing to its determinant. The definition in `components.py`, which is not part of this model, follows the comments at example.py:22-31. |
| `Components.MultivaluedDependency.IsTrivial` | algorithms.py:139-141 | For an MVD inside the heading: trivial iff its dependant adds nothing to its determinant, or its two sides leave no heading attribute out. |
| `Algorithms.Apply` | algorithms.py:21-27 | One FD step: when the determinant is covered, the result is the current set plus the whole dependant. Otherwise the set is unchanged. It never adds anything outside the dependant. |
| `Algorithms.Pass` | algorithms.py:19-28 | One for-loop pass over the FDs in order never removes an attribute. |
| `Algorithms.PassBounded` | algorithms.py:21-26 | A pass adds only attributes that some FD has as dependant. |
| `Algorithms.PassFixedIsClosed` | algorithms.py:29-31 | When a full pass adds nothing, every FD whose determinant is covered has its dependant covered. This is what makes stopping there sound. |
| `Algorithms.ClosureOf` | algorithms.py:16-33 | The repeated-pass closure contains its input and lies within the input plus all dependants. |
| `Algorithms.ClosureIsLeastClosedSuperset` | algorithms.py:14-33 | The closure contains its input, is FD-closed, and is contained in every FD-closed superset of the input. |
| `Algorithms.ClosureIsLeast` | algorithms.py:14-33 | The closure of X lies inside any FD-closed Y that contains X. |
| `Algorithms.ClosureOfClosed` | algorithms.py:16-31 | An FD-closed set is its own closure: one pass adds nothing. |
| `Algorithms.ClosureIdempotent` | algorithms.py:3-33 | closure(closure(X, F), F) = closure(X, F). |
| `Algorithms.ClosureMonotone` | algorithms.py:3-33 | X ⊆ Y implies closure(X, F) ⊆ closure(Y, F). |
| `Algorithms.ClosureIgnoresOrder` | algorithms.py:19-28 | Two FD sequences with the same elements give every set the same closure, so the iteration order of the loop does not matter. |
| `Algorithms.ClosureIgnoresTrivial` | algorithms.py:21-27 | Adding a trivial FD changes no closure. |
| `Algorithms.ClosureOfEmpty` | algorithms.py:21 | When every determinant is non-empty, no FD fires on the empty set, so its closure is empty. |
| `Algorithms.IsSuperkey` | algorithms.py:36-53 | True iff the heading is contained in the closure. Equivalently, true iff every FD-closed superset of the attributes covers the heading. |
| `Algorithms.SuperkeyIffClosedSupersetsCover` | algorithms.py:50-53 | Being a superkey does not depend on how the closure is computed: the heading is contained in the closure iff every FD-closed superset covers the heading. |
| `Algorithms.SupersetOfSuperkey` | algorithms.py:50-53 | Every superset of a superkey is a superkey. |
| `Algorithms.IsKey` | algorithms.py:56-93 | False whenever the set is not a superkey. Otherwise, true for a superkey of at most one attribute. Otherwise, true iff no non-empty one-attribute removal is a superkey. When true, no non-empty X − {a} is a superkey. |
| `Algorithms.KeyByRemoval` | algorithms.py:71-93 | The removal test the key check decides. Every candidate key (a superkey with no proper subset that is a superkey) passes it, for any heading and FDs. |
| `Algorithms.KeyByRemovalIffCandidateKey` | algorithms.py:56-93 | When the heading and all determinants are non-empty, the removal test accepts exactly the superkeys with no proper subset that is a superkey (both directions). |
| `Algorithms.NoSmallerSuperkey` | algorithms.py:81-93 | A set that passes the removal test has no smaller superkey. The empty subset is handled separately, and a larger one is reduced to a one-attribute removal by monotonicity. |
| `Algorithms.KeyByRemovalNeedsNonEmptyHeading` | algorithms.py:76-79 | With an empty heading, the shortcut for sets of at most one attribute accepts {A}, although its proper subset {} is already a superkey. |
| `Algorithms.KeyByRemovalNeedsNonEmptyDeterminants` | algorithms.py:76-79 | With the FD {} → {A}, the empty set is already a superkey, yet the shortcut for sets of at most one attribute accepts {A}. |
| `Algorithms.ValidRelvarKeyTest` | algorithms.py:56-93 | For a valid relvar, the key check accepts exactly the candidate keys of its heading under its FDs. |
| `Algorithms.IsRelvarInBcnf` | algorithms.py:96-118 | True iff every FD that is not trivial has a determinant that is a superkey of the heading under the relvar's FDs. |
| `Algorithms.BcnfIgnoresTrivialFd` | algorithms.py:107-115 | Adding a trivial FD to a relvar never changes its BCNF verdict. |
| `Algorithms.BcnfIgnoresOrder` | algorithms.py:107-112 | The BCNF verdict depends only on which FDs there are, not on their order. |
| `Algorithms.IsRelvarIn4nf` | algorithms.py:121-150 | False whenever BCNF fails. Otherwise, true iff every MVD that is non-trivial in the heading has a determinant that is a superkey under the FDs alone. Hence 4NF implies BCNF. |
| `Examples.TrivialityExamples` | example.py:22-35 | {A,B}→{A} is trivial and {A}→{B} is not. In heading {A,B,C,D}, {A,B}→→{A} and {A,B}→→{C,D} are trivial and {A}→→{B} is not. |
| `Examples.InvoiceIsValid` | example.py:40-55 | The invoice relvar of the script meets the construction invariants. |
| `Examples.ClosureOfRfc` | example.py:79-82 | closure({RFC}) = {RFC, Nombre, CP}. |
| `Examples.ClosureOfFolioP` | example.py:74-77 | closure({FolioP}) is the heading minus Producto and RegimenC. |
| `Examples.FolioPIsNotAKey` | example.py:87-89 | {FolioP} is neither a superkey nor a key. |
| `Examples.InvoiceKeyIsSuperkey` | example.py:91-97 | {FolioP, Producto, RegimenC} is a superkey. |
| `Examples.InvoiceKeyNeedsFolioP` | example.py:101 | {Producto, RegimenC} is not a superkey. |
| `Examples.InvoiceKeyNeedsProducto` | example.py:100 | {FolioP, RegimenC} is not a superkey. |
| `Examples.InvoiceKeyNeedsRegimenC` | example.py:99 | {FolioP, Producto} is not a superkey. |
| `Examples.InvoiceKey` | example.py:98-102 | {FolioP, Producto, RegimenC} passes the key test and is a candidate key. |
| `Examples.InvoiceNotInBcnf` | example.py:106-127 | The MVD RFC→→RegimenC is non-trivial. The invoice relvar is in neither BCNF nor 4NF. |
| `Examples.AbcClosure` | example.py:112-115 | An extra scenario on the AB→C relvar of the script, which prints only its BCNF verdict: closure({A,B}) = {A,B,C}. |
| `Examples.AbcInBcnf` | example.py:112-131 | R(A,B,C) with AB→C is in BCNF and in 4NF. |
| `Examples.AbcKeys` | example.py:112-115 | An extra scenario on the AB→C relvar of the script, which does not test keys there: {A,B} passes the key test and {A} does not. |
| `Examples.AbcWithCToB` | example.py:117-120 | With AB→C and C→B, closure({C}) = {B,C}, so the relvar is not in BCNF. |
| `Examples.CourseTeacherText` | example.py:133-138 | R(C,T,X) with no FDs and C→→T, C→→X is in BCNF but not in 4NF. |

## Left out

- Parsing of dependencies written as text, such as `{A, B} -> {C}`, and the error it raises on malformed input. That code lives in `components.py` and `exceptions.py`, which are not part of this model; FDs and MVDs are taken as already-built values.
- Validation during relvar construction. It is also in `components.py`, which is not part of this model. `Relvar.Valid` states what that validation guarantees, and the lemmas that depend on it assume it.
- String formatting and printing of attributes, dependencies and relvars. It is output only.
- The demonstration driver `example.py` and its `attrs` helper. They only build inputs and print results; their "Expected" values are proved in `examples.dfy`.
- Python's set iteration order is not modelled. The FD and MVD collections are sequences visited in order, and order independence is proved for closure and BCNF.
