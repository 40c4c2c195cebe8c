/**
 * The part of the constraint solver's interface that building a Sudoku model
 * uses: integer variables with an interval domain, equality-to-a-constant
 * constraints and all-different constraints, and what it means for an
 * assignment of values to satisfy them.
 *
 * Every variable the Sudoku model creates stands for one grid cell, so an
 * assignment is a grid of values indexed by a variable's (row, col).
 */
module ConstraintModel {

  /** A solver variable for grid cell (row, col) whose domain is lo..hi. */
  datatype IntVar = IntVar(row: int, col: int, lo: int, hi: int)

  /** A constraint posted to the solver. */
  datatype Constraint =
    | Equality(v: IntVar, value: int)   // v == value
    | AllDifferent(vars: seq<IntVar>)   // the variables take pairwise different values

  /** Values of the grid cells, indexed [row][col]. */
  type Assignment = seq<seq<int>>

  predicate Assigns(g: Assignment, v: IntVar) {
    0 <= v.row < |g| && 0 <= v.col < |g[v.row]|
  }

  function ValueOf(g: Assignment, v: IntVar): int
    requires Assigns(g, v)
  {
    g[v.row][v.col]
  }

  /** The value g gives v lies in v's domain. */
  predicate InDomain(g: Assignment, v: IntVar) {
    Assigns(g, v) && v.lo <= ValueOf(g, v) <= v.hi
  }

  /** All variables of vs have a value, and no two slots of vs have equal values. */
  predicate Distinct(g: Assignment, vs: seq<IntVar>) {
    (forall s :: 0 <= s < |vs| ==> Assigns(g, vs[s])) &&
    forall s1, s2 :: 0 <= s1 < |vs| && 0 <= s2 < |vs| && s1 != s2 ==>
      ValueOf(g, vs[s1]) != ValueOf(g, vs[s2])
  }

  predicate Holds(g: Assignment, c: Constraint) {
    match c
    case Equality(v, x) => Assigns(g, v) && ValueOf(g, v) == x
    case AllDifferent(vs) => Distinct(g, vs)
  }

  predicate AllHold(g: Assignment, cs: seq<Constraint>) {
    forall c :: c in cs ==> Holds(g, c)
  }

  /** The variable lists of the all-different constraints of cs, in posting order. */
  function Groups(cs: seq<Constraint>): seq<seq<IntVar>> {
    if cs == [] then []
    else (if cs[0].AllDifferent? then [cs[0].vars] else []) + Groups(cs[1..])
  }

  lemma {:induction false} GroupsConcat(a: seq<Constraint>, b: seq<Constraint>)
    ensures Groups(a + b) == Groups(a) + Groups(b)
  {
    if a == [] {
      assert a + b == b;
    } else {
      var head := if a[0].AllDifferent? then [a[0].vars] else [];
      assert (a + b)[0] == a[0];
      assert (a + b)[1..] == a[1..] + b;
      GroupsConcat(a[1..], b);
      assert Groups(a + b) == head + (Groups(a[1..]) + Groups(b));
      assert head + (Groups(a[1..]) + Groups(b)) == (head + Groups(a[1..])) + Groups(b);
    }
  }
}
