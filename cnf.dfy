/**
 * Boolean formulas in conjunctive normal form over the variables
 * "node n has colour c", and the contract of the satisfiability oracle that
 * stands for the z3 solver.
 */
module Cnf {
  import opened Wrappers

  /** The boolean variable that is true iff `node` has colour `colour`. */
  datatype Var = Var(node: nat, colour: nat)

  /** A variable or its negation. */
  datatype Lit = Pos(v: Var) | Neg(v: Var)

  /** A disjunction of literals; the empty clause is false. */
  type Clause = seq<Lit>

  /** A conjunction of clauses. */
  type Formula = seq<Clause>

  /** A truth value for every variable (a solver model). */
  type Assignment = Var -> bool

  predicate LitHolds(a: Assignment, l: Lit) {
    match l
    case Pos(v) => a(v)
    case Neg(v) => !a(v)
  }

  predicate ClauseHolds(a: Assignment, cl: Clause) {
    exists j :: 0 <= j < |cl| && LitHolds(a, cl[j])
  }

  /** The assignment makes every clause of the formula true. */
  predicate Satisfies(a: Assignment, f: Formula) {
    forall i :: 0 <= i < |f| ==> ClauseHolds(a, f[i])
  }

  /** Some assignment satisfies the formula. */
  ghost predicate Satisfiable(f: Formula) {
    exists a: Assignment :: Satisfies(a, f)
  }

  /** A conjunction of two formulas holds iff both do. */
  lemma SatisfiesAppend(a: Assignment, f: Formula, g: Formula)
    ensures Satisfies(a, f + g) <==> Satisfies(a, f) && Satisfies(a, g)
  {
    if Satisfies(a, f) && Satisfies(a, g) {
      forall i | 0 <= i < |f + g|
        ensures ClauseHolds(a, (f + g)[i])
      {
        if i >= |f| { assert (f + g)[i] == g[i - |f|]; }
      }
    }
    if Satisfies(a, f + g) {
      forall i | 0 <= i < |f|
        ensures ClauseHolds(a, f[i])
      {
        assert (f + g)[i] == f[i];
      }
      forall i | 0 <= i < |g|
        ensures ClauseHolds(a, g[i])
      {
        assert (f + g)[|f| + i] == g[i];
      }
    }
  }

  /**
   * A correct answer of the oracle for formula f: a model that satisfies f,
   * or None only when no assignment satisfies f.
   */
  ghost predicate CorrectAnswer(f: Formula, answer: Option<Assignment>) {
    match answer
    case Some(a) => Satisfies(a, f)
    case None => !Satisfiable(f)
  }

  /** The solver (s.check() followed by s.model()) always answers correctly. */
  ghost predicate SoundOracle(oracle: Formula -> Option<Assignment>) {
    forall f :: CorrectAnswer(f, oracle(f))
  }
}
