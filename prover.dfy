/**
 * The collaborators the command layer calls but whose code is not part of
 * this model: the term parser (prover/parser.py) and the checking kernel
 * (prover/checker.py). They are parameters, so every property proved with
 * them holds whatever values they return.
 */
module Prover {
  import opened Wrappers
  import opened Errors
  import opened SExp
  import opened Datatypes

  type Subst = map<Name, Term>

  datatype Kernel = Kernel(
    // parser.term(curr, expr): an s-expression to a term, reading the state
    term: (Snapshot, SExpr) -> Fallible<Term>,
    // parser.symbol(expr): an s-expression to a name
    symbol: SExpr -> Fallible<Name>,
    // checker.match({}, pattern, t): the substitution found, if any
    matcher: (Term, Term) -> Option<Subst>,
    // checker.multisubst(substs, t)
    multisubst: (Subst, Term) -> Term,
    // checker.infer(ctx, bound, proof): the conclusion the proof establishes
    infer: (Context, seq<Term>, Proof) -> Fallible<Term>,
    // checker.check(ctx, bound, conclusion, proof)
    check: (Context, seq<Term>, Term, Proof) -> Fallible<()>,
    // how deep macro expansion may recurse before the interpreter gives up
    recursionLimit: nat)
}
