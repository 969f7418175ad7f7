/**
 * Macro expansion (`macroexpand` and `parseterm`): the first definition whose
 * pattern matches rewrites the node, then the children of a resulting tree
 * are expanded in turn.
 */
module Macro {
  import opened Wrappers
  import opened Errors
  import opened SExp
  import opened Prelude
  import opened Datatypes
  import opened Prover

  /**
   * The position of the first definition at or after `i` whose pattern
   * matches `t`, with the substitution the matcher found.
   */
  function FirstMatch(k: Kernel, defs: seq<Definition>, t: Term, i: nat): (r: Option<(nat, Subst)>)
    requires i <= |defs|
    decreases |defs| - i
    ensures r.Some? ==>
      && i <= r.value.0 < |defs|
      && k.matcher(defs[r.value.0].0, t) == Some(r.value.1)
      && forall j :: i <= j < r.value.0 ==> k.matcher(defs[j].0, t).None?
    ensures r.None? ==> forall j :: i <= j < |defs| ==> k.matcher(defs[j].0, t).None?
  {
    if i == |defs| then None
    else
      match k.matcher(defs[i].0, t)
      case Some(s) => Some((i, s))
      case None => FirstMatch(k, defs, t, i + 1)
  }

  /** The node after the definition scan: one rewrite at most. */
  function Rewrite(k: Kernel, defs: seq<Definition>, t: Term): Term
  {
    match FirstMatch(k, defs, t, 0)
    case None => t
    case Some((i, s)) => k.multisubst(s, defs[i].1)
  }

  /**
   * `macroexpand` with a recursion budget of `fuel` nested calls; running out
   * of it is the interpreter's RecursionError.
   */
  function Expand(k: Kernel, defs: seq<Definition>, t: Term, fuel: nat): (r: Fallible<Term>)
    decreases fuel, 0
    ensures r.Failure? ==> r.error == RecursionError
  {
    if fuel == 0 then Failure(RecursionError)
    else
      var u := Rewrite(k, defs, t);
      if u.Symtree? then
        var cs :- ExpandAll(k, defs, u.children, fuel - 1);
        Success(Symtree(cs))
      else
        Success(u)
  }

  /** `maplist(partial(macroexpand, curr), ts)`. */
  function ExpandAll(k: Kernel, defs: seq<Definition>, ts: seq<Term>, fuel: nat): (r: Fallible<seq<Term>>)
    decreases fuel, 1, |ts|
    ensures r.Success? ==> |r.value| == |ts|
    ensures r.Failure? ==> r.error == RecursionError
  {
    if |ts| == 0 then Success([])
    else
      var c :- Expand(k, defs, ts[0], fuel);
      var cs :- ExpandAll(k, defs, ts[1..], fuel);
      Success([c] + cs)
  }

  /** The children succeed together, each child expanded on its own. */
  lemma {:induction false} ExpandAllEach(k: Kernel, defs: seq<Definition>, ts: seq<Term>, fuel: nat)
    ensures ExpandAll(k, defs, ts, fuel).Success? <==> forall i :: 0 <= i < |ts| ==> Expand(k, defs, ts[i], fuel).Success?
    ensures ExpandAll(k, defs, ts, fuel).Success? ==>
      forall i :: 0 <= i < |ts| ==> Expand(k, defs, ts[i], fuel) == Success(ExpandAll(k, defs, ts, fuel).value[i])
  {
    if |ts| > 0 {
      ExpandAllEach(k, defs, ts[1..], fuel);
      assert forall i :: 1 <= i < |ts| ==> ts[i] == ts[1..][i - 1];
    }
  }

  /** `macroexpand(curr, t)`: a scan over the definitions that stops at the first match. */
  method MacroExpand(k: Kernel, defs: seq<Definition>, t: Term, fuel: nat) returns (r: Fallible<Term>)
    decreases fuel, 0
    ensures r == Expand(k, defs, t, fuel)
  {
    if fuel == 0 {
      return Failure(RecursionError);
    }
    var u := t;
    var i := 0;
    while i < |defs|
      invariant i <= |defs|
      invariant u == t
      invariant FirstMatch(k, defs, t, 0) == FirstMatch(k, defs, t, i)
    {
      var substs := k.matcher(defs[i].0, t);
      if substs.Some? {
        u := k.multisubst(substs.value, defs[i].1);
        break;
      }
      i := i + 1;
    }
    assert u == Rewrite(k, defs, t);
    if u.Symtree? {
      var children := ExpandChildren(k, defs, u.children, fuel - 1);
      if children.Failure? {
        return Failure(children.error);
      }
      r := Success(Symtree(children.value));
    } else {
      r := Success(u);
    }
  }

  /** `maplist(partial(macroexpand, curr), ts)`: the children expanded left to right. */
  method ExpandChildren(k: Kernel, defs: seq<Definition>, ts: seq<Term>, fuel: nat) returns (r: Fallible<seq<Term>>)
    decreases fuel, 1
    ensures r == ExpandAll(k, defs, ts, fuel)
  {
    var children: seq<Term> := [];
    var j := 0;
    assert ts[j..] == ts;
    match ExpandAll(k, defs, ts, fuel) {
      case Success(all) => assert [] + all == all;
      case Failure(_) =>
    }
    while j < |ts|
      invariant j <= |ts|
      invariant ExpandAll(k, defs, ts, fuel) == Prefixed(children, ExpandAll(k, defs, ts[j..], fuel))
    {
      assert ts[j..][1..] == ts[j + 1..];
      var c := MacroExpand(k, defs, ts[j], fuel);
      if c.Failure? {
        return Failure(c.error);
      }
      match ExpandAll(k, defs, ts[j + 1..], fuel) {
        case Success(rest) => assert children + ([c.value] + rest) == children + [c.value] + rest;
        case Failure(_) =>
      }
      children := children + [c.value];
      j := j + 1;
    }
    assert ts[j..] == [];
    assert children + [] == children;
    r := Success(children);
  }

  /** `parseterm(curr, expr)`: parse, then expand with the current definitions. */
  function Parsed(k: Kernel, s: Snapshot, e: SExpr): Fallible<Term>
  {
    var t :- k.term(s, e);
    Expand(k, s.defs, t, k.recursionLimit)
  }

  method ParseTerm(k: Kernel, curr: State, e: SExpr) returns (r: Fallible<Term>)
    ensures r == Parsed(k, curr.Current(), e)
  {
    var t := k.term(curr.Current(), e);
    if t.Failure? {
      return Failure(t.error);
    }
    r := MacroExpand(k, curr.defs, t.value, k.recursionLimit);
  }

  // ---------------------------------------------------------------------
  // Properties

  /** The definition used is the first whose pattern matches; later ones are not consulted. */
  lemma FirstMatchWins(k: Kernel, defs: seq<Definition>, t: Term, i: nat, s: Subst)
    requires i < |defs| && k.matcher(defs[i].0, t) == Some(s)
    requires forall j :: 0 <= j < i ==> k.matcher(defs[j].0, t).None?
    ensures Rewrite(k, defs, t) == k.multisubst(s, defs[i].1)
  {
  }

  lemma {:induction false} FirstMatchAppend(k: Kernel, defs: seq<Definition>, extra: seq<Definition>, t: Term, i: nat)
    requires i <= |defs| && FirstMatch(k, defs, t, i).Some?
    decreases |defs| - i
    ensures FirstMatch(k, defs + extra, t, i) == FirstMatch(k, defs, t, i)
  {
    assert (defs + extra)[i] == defs[i];
    if k.matcher(defs[i].0, t).None? {
      FirstMatchAppend(k, defs, extra, t, i + 1);
    }
  }

  /**
   * `define` only appends, so a definition declared later never changes how a
   * node is rewritten once an earlier definition matches it.
   */
  lemma LaterDefinitionsIgnored(k: Kernel, defs: seq<Definition>, extra: seq<Definition>, t: Term)
    requires exists i :: 0 <= i < |defs| && k.matcher(defs[i].0, t).Some?
    ensures Rewrite(k, defs + extra, t) == Rewrite(k, defs, t)
  {
    FirstMatchAppend(k, defs, extra, t, 0);
  }

  /** With no matching definition, a leaf comes back unchanged. */
  lemma NoMatchLeafUnchanged(k: Kernel, defs: seq<Definition>, t: Term, fuel: nat)
    requires fuel > 0 && !t.Symtree?
    requires forall j :: 0 <= j < |defs| ==> k.matcher(defs[j].0, t).None?
    ensures Expand(k, defs, t, fuel) == Success(t)
  {
  }

  /**
   * A rewritten tree keeps its number of children; each child is expanded
   * exactly once (one level deeper) and the rewritten node is not matched again.
   */
  lemma ExpandTree(k: Kernel, defs: seq<Definition>, t: Term, fuel: nat, cs: seq<Term>)
    requires Rewrite(k, defs, t) == Symtree(cs)
    requires Expand(k, defs, t, fuel).Success?
    ensures fuel > 0
    ensures Expand(k, defs, t, fuel).value.Symtree?
    ensures |Expand(k, defs, t, fuel).value.children| == |cs|
    ensures forall i :: 0 <= i < |cs| ==>
      Expand(k, defs, cs[i], fuel - 1) == Success(Expand(k, defs, t, fuel).value.children[i])
  {
    ExpandAllEach(k, defs, cs, fuel - 1);
  }

  /**
   * A node rewritten to anything but a tree is the result as it stands: the
   * rewrite is applied once and its result is not matched again.
   */
  lemma ExpandRewritesOnce(k: Kernel, defs: seq<Definition>, t: Term, fuel: nat)
    requires fuel > 0 && !Rewrite(k, defs, t).Symtree?
    ensures Expand(k, defs, t, fuel) == Success(Rewrite(k, defs, t))
  {
  }

  /** More recursion budget never changes a successful expansion. */
  lemma {:induction false} ExpandFuelMonotone(k: Kernel, defs: seq<Definition>, t: Term, fuel: nat, more: nat)
    requires Expand(k, defs, t, fuel).Success? && fuel <= more
    decreases fuel, 0
    ensures Expand(k, defs, t, more) == Expand(k, defs, t, fuel)
  {
    var u := Rewrite(k, defs, t);
    if u.Symtree? {
      var cs := ExpandAll(k, defs, u.children, fuel - 1);
      assert cs.Success?;
      ExpandAllFuelMonotone(k, defs, u.children, fuel - 1, more - 1);
      assert Expand(k, defs, t, fuel) == Success(Symtree(cs.value));
      assert Expand(k, defs, t, more) == Success(Symtree(cs.value));
    }
  }

  lemma {:induction false} ExpandAllFuelMonotone(k: Kernel, defs: seq<Definition>, ts: seq<Term>, fuel: nat, more: nat)
    requires ExpandAll(k, defs, ts, fuel).Success? && fuel <= more
    decreases fuel, 1
    ensures ExpandAll(k, defs, ts, more) == ExpandAll(k, defs, ts, fuel)
  {
    ExpandAllEach(k, defs, ts, fuel);
    ExpandAllEach(k, defs, ts, more);
    forall i | 0 <= i < |ts| ensures Expand(k, defs, ts[i], more) == Expand(k, defs, ts[i], fuel) {
      ExpandFuelMonotone(k, defs, ts[i], fuel, more);
    }
    var a, b := ExpandAll(k, defs, ts, fuel), ExpandAll(k, defs, ts, more);
    assert b.Success?;
    assert a.value == b.value;
  }
}
