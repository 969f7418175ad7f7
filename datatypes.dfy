/**
 * Terms, proofs, inference rules and the run state of the checker, with the
 * printer `sexpr` and what it guarantees about its output.
 */
module Datatypes {

  type Name = string

  datatype Term =
    | Lit(name: Name)
    | Var(name: Name)
    | Symtree(children: seq<Term>)
    | Hole

  /** A proof argument: a reference to a known rule, or an admitted gap. */
  datatype Argument = Sorry(name: string) | Lemma(name: Name)

  /** One application of the rule `edge` to `arguments`, with explicit substitutions. */
  datatype Proof = Proof(edge: Name, arguments: seq<Argument>, substitutions: map<Name, Term>)

  datatype InferenceRule = InferenceRule(premises: seq<Term>, conclusion: Term)

  type Context = map<Name, InferenceRule>

  /** A macro definition: a pattern and the body it rewrites to. */
  type Definition = (Term, Term)

  /** The values held by a `State` at one moment. */
  datatype Snapshot = Snapshot(
    variables: seq<Name>,
    infix: map<Name, int>,
    context: Context,
    bound: seq<Term>,
    defs: seq<Definition>)

  /** The run state that the commands update in place. */
  class State {
    var variables: seq<Name>
    var infix: map<Name, int>
    var context: Context
    var bound: seq<Term>
    var defs: seq<Definition>

    constructor ()
      ensures variables == [] && infix == map[] && context == map[]
      ensures bound == [] && defs == []
    {
      variables := [];
      infix := map[];
      context := map[];
      bound := [];
      defs := [];
    }

    /** The state's five fields as one value, for the functions that specify the commands. */
    function Current(): (s: Snapshot)
      reads this
    {
      Snapshot(variables, infix, context, bound, defs)
    }
  }

  // ---------------------------------------------------------------------
  // The printer

  /** `sep.join(parts)`. */
  function Join(sep: string, parts: seq<string>): string
  {
    if |parts| == 0 then ""
    else if |parts| == 1 then parts[0]
    else parts[0] + sep + Join(sep, parts[1..])
  }

  /** The printed forms of `ts`, one per term. */
  function Printed(ts: seq<Term>): seq<string>
    decreases ts, 0
  {
    seq(|ts|, i requires 0 <= i < |ts| => Sexpr(ts[i]))
  }

  function Sexpr(t: Term): (r: string)
    decreases t, 1
    ensures t.Symtree? ==> |r| >= 2 && r[0] == '(' && r[|r| - 1] == ')'
  {
    match t
    case Lit(n) => n
    case Var(n) => n
    case Symtree(cs) => "(" + Join(" ", Printed(cs)) + ")"
    case Hole => "_"
  }

  lemma SexprOfLeaves(n: Name)
    ensures Sexpr(Lit(n)) == n && Sexpr(Var(n)) == n
    ensures Sexpr(Hole) == "_"
    ensures Sexpr(Symtree([])) == "()"
  {
  }

  /** Two different terms print the same: the printer is not injective. */
  lemma SexprNotInjective(n: Name)
    ensures Lit(n) != Var(n) && Sexpr(Lit(n)) == Sexpr(Var(n))
  {
  }

  /** Sum of the lengths of `parts`. */
  function TotalLength(parts: seq<string>): nat
  {
    if |parts| == 0 then 0 else |parts[0]| + TotalLength(parts[1..])
  }

  lemma {:induction false} JoinLength(sep: string, parts: seq<string>)
    requires |parts| > 0
    ensures |Join(sep, parts)| == TotalLength(parts) + (|parts| - 1) * |sep|
  {
    if |parts| > 1 {
      JoinLength(sep, parts[1..]);
    }
  }

  /**
   * The printed length of a tree is fixed by its children: two parentheses,
   * the children's printed lengths and one space between neighbours.
   */
  lemma SexprSymtreeLength(cs: seq<Term>)
    ensures |cs| == 0 ==> |Sexpr(Symtree(cs))| == 2
    ensures |cs| > 0 ==> |Sexpr(Symtree(cs))| == 2 + TotalLength(Printed(cs)) + |cs| - 1
  {
    assert Sexpr(Symtree(cs)) == "(" + Join(" ", Printed(cs)) + ")";
    if |cs| > 0 {
      JoinLength(" ", Printed(cs));
    }
  }

  // ---------------------------------------------------------------------
  // Balanced parentheses

  /** Opening minus closing parentheses in `s`. */
  function Depth(s: string): int
  {
    if |s| == 0 then 0
    else Depth(s[..|s| - 1]) + (if s[|s| - 1] == '(' then 1 else if s[|s| - 1] == ')' then -1 else 0)
  }

  /** Every prefix opens at least as many parentheses as it closes, and the whole closes them all. */
  ghost predicate Balanced(s: string)
  {
    Depth(s) == 0 && forall k :: 0 <= k <= |s| ==> Depth(s[..k]) >= 0
  }

  predicate ParenFree(s: string)
  {
    forall i :: 0 <= i < |s| ==> s[i] != '(' && s[i] != ')'
  }

  /** No name inside `t` contains a parenthesis. */
  predicate NamesParenFree(t: Term)
  {
    match t
    case Lit(n) => ParenFree(n)
    case Var(n) => ParenFree(n)
    case Symtree(cs) => forall i :: 0 <= i < |cs| ==> NamesParenFree(cs[i])
    case Hole => true
  }

  lemma {:induction false} DepthConcat(a: string, b: string)
    ensures Depth(a + b) == Depth(a) + Depth(b)
  {
    if |b| > 0 {
      assert (a + b)[..|a + b| - 1] == a + b[..|b| - 1];
      DepthConcat(a, b[..|b| - 1]);
    } else {
      assert a + b == a;
    }
  }

  lemma {:induction false} ParenFreeDepth(s: string)
    requires ParenFree(s)
    ensures Depth(s) == 0
  {
    if |s| > 0 {
      ParenFreeDepth(s[..|s| - 1]);
    }
  }

  lemma ParenFreeBalanced(s: string)
    requires ParenFree(s)
    ensures Balanced(s)
  {
    ParenFreeDepth(s);
    forall k | 0 <= k <= |s| ensures Depth(s[..k]) >= 0 {
      ParenFreeDepth(s[..k]);
    }
  }

  lemma BalancedConcat(a: string, b: string)
    requires Balanced(a) && Balanced(b)
    ensures Balanced(a + b)
  {
    DepthConcat(a, b);
    forall k | 0 <= k <= |a + b| ensures Depth((a + b)[..k]) >= 0 {
      if k <= |a| {
        assert (a + b)[..k] == a[..k];
      } else {
        assert (a + b)[..k] == a + b[..k - |a|];
        DepthConcat(a, b[..k - |a|]);
      }
    }
  }

  lemma BalancedWrap(b: string)
    requires Balanced(b)
    ensures Balanced("(" + b + ")")
  {
    var s := "(" + b + ")";
    DepthConcat("(" + b, ")");
    DepthConcat("(", b);
    assert ("(" + b + ")")[..|s| - 1] == "(" + b;
    forall k | 0 <= k <= |s| ensures Depth(s[..k]) >= 0 {
      if k == 0 {
        assert s[..k] == [];
      } else if k < |s| {
        assert s[..k] == "(" + b[..k - 1];
        DepthConcat("(", b[..k - 1]);
      } else {
        assert s[..k] == s;
      }
    }
  }

  lemma {:induction false} JoinBalanced(sep: string, parts: seq<string>)
    requires Balanced(sep)
    requires forall i :: 0 <= i < |parts| ==> Balanced(parts[i])
    ensures Balanced(Join(sep, parts))
  {
    if |parts| == 0 {
      ParenFreeBalanced("");
    } else if |parts| > 1 {
      JoinBalanced(sep, parts[1..]);
      BalancedConcat(parts[0], sep);
      BalancedConcat(parts[0] + sep, Join(sep, parts[1..]));
    }
  }

  /** When no name holds a parenthesis, the printed term has balanced parentheses. */
  lemma {:induction false} SexprBalanced(t: Term)
    requires NamesParenFree(t)
    ensures Balanced(Sexpr(t))
  {
    match t
    case Lit(n) => ParenFreeBalanced(n);
    case Var(n) => ParenFreeBalanced(n);
    case Hole => ParenFreeBalanced("_");
    case Symtree(cs) =>
      var parts := Printed(cs);
      forall i | 0 <= i < |cs| ensures Balanced(parts[i]) {
        SexprBalanced(cs[i]);
      }
      ParenFreeBalanced(" ");
      JoinBalanced(" ", parts);
      BalancedWrap(Join(" ", parts));
  }
}
