/**
 * The small parsers of the command layer: separator lines, substitution
 * lists (`genenv`), proof arguments, single proofs and lists of named proofs.
 */
module Forms {
  import opened Wrappers
  import opened Errors
  import opened SExp
  import opened Prelude
  import opened Datatypes
  import opened Prover
  import opened Macro

  // ---------------------------------------------------------------------
  // Separators

  /** `containsonly(ch, s)`: every character of `s` is `ch` (vacuously so for ""). */
  function ContainsOnly(ch: char, s: string): (r: bool)
    ensures r <==> forall i :: 0 <= i < |s| ==> s[i] == ch
  {
    |s| == 0 || (s[0] == ch && ContainsOnly(ch, s[1..]))
  }

  /** The characters a separator line may be drawn with. */
  const SeparatorChars: string := "─-"

  /** `isseparator(expr)`: a symbol drawn with a single separator character. */
  function IsSeparator(e: SExpr): (r: bool)
    ensures r <==> e.Symbol? && ((forall i :: 0 <= i < |e.text| ==> e.text[i] == '─') ||
                                 (forall i :: 0 <= i < |e.text| ==> e.text[i] == '-'))
  {
    e.Symbol? && (SeparatorCharsAre(e.text); AnyContainsOnly(SeparatorChars, e.text))
  }

  /** Drawn only with one of `SeparatorChars` means drawn only with `─` or only with `-`. */
  lemma SeparatorCharsAre(s: string)
    ensures AnyContainsOnly(SeparatorChars, s) <==> ContainsOnly('─', s) || ContainsOnly('-', s)
  {
    assert SeparatorChars[0] == '─' && SeparatorChars[1..][0] == '-';
    assert !AnyContainsOnly(SeparatorChars[1..][1..], s);
    assert AnyContainsOnly(SeparatorChars[1..], s) == ContainsOnly('-', s);
  }

  /** `any(containsonly(ch, s) for ch in chars)`. */
  function AnyContainsOnly(chars: string, s: string): bool
  {
    |chars| > 0 && (ContainsOnly(chars[0], s) || AnyContainsOnly(chars[1..], s))
  }

  /** A symbol that mixes the two characters is not a separator. */
  lemma MixedIsNotSeparator(s: string, i: nat, j: nat)
    requires i < |s| && j < |s| && s[i] == '-' && s[j] == '─'
    ensures !IsSeparator(Symbol(s))
  {
  }

  // ---------------------------------------------------------------------
  // Substitution lists

  /** The separators allowed between a variable and its term in a substitution list. */
  const Separators: seq<string> := [":=", "≔"]

  /** `genenv(curr, items)`: triples `var sep term`, in order; the list is consumed whole. */
  function EnvOf(k: Kernel, s: Snapshot, items: seq<SExpr>): Fallible<seq<(Name, Term)>>
    decreases |items|
  {
    if |items| == 0 then Success([])
    else
      var name :- k.symbol(items[0]);
      if |items| < 2 then Failure(SyntaxError)
      else
        var sep :- k.symbol(items[1]);
        if |items| < 3 then Failure(SyntaxError)
        else
          var e :- Parsed(k, s, items[2]);
          if sep !in Separators then Failure(SyntaxError)
          else
            var rest :- EnvOf(k, s, items[3..]);
            Success([(name, e)] + rest)
  }

  /** The `j`-th triple of `items` is a name, an allowed separator and a term. */
  predicate Binding(k: Kernel, s: Snapshot, items: seq<SExpr>, j: nat)
  {
    && 3 * j + 2 < |items|
    && k.symbol(items[3 * j]).Success?
    && k.symbol(items[3 * j + 1]).Success?
    && k.symbol(items[3 * j + 1]).value in Separators
    && Parsed(k, s, items[3 * j + 2]).Success?
  }

  lemma BindingShift(k: Kernel, s: Snapshot, items: seq<SExpr>, j: nat)
    requires |items| >= 3
    ensures Binding(k, s, items[3..], j) == Binding(k, s, items, j + 1)
  {
    var rest := items[3..];
    if 3 * j + 2 < |rest| {
      assert rest[3 * j] == items[3 * (j + 1)];
      assert rest[3 * j + 1] == items[3 * (j + 1) + 1];
      assert rest[3 * j + 2] == items[3 * (j + 1) + 2];
    }
  }

  /**
   * A substitution list is accepted exactly when it is a whole number of
   * triples, each binding a name through `:=` or `≔` to a term.
   */
  lemma {:induction false} EnvOfAccepts(k: Kernel, s: Snapshot, items: seq<SExpr>)
    decreases |items|
    ensures EnvOf(k, s, items).Success? <==>
      |items| % 3 == 0 && forall j: nat :: 3 * j < |items| ==> Binding(k, s, items, j)
  {
    if 0 < |items| < 3 {
      assert |items| % 3 != 0;
    } else if |items| >= 3 {
      var rest := items[3..];
      EnvOfAccepts(k, s, rest);
      var all := forall j: nat :: 3 * j < |items| ==> Binding(k, s, items, j);
      var tail := forall j: nat :: 3 * j < |rest| ==> Binding(k, s, rest, j);
      if all {
        assert Binding(k, s, items, 0);
        forall j: nat | 3 * j < |rest| ensures Binding(k, s, rest, j) {
          assert Binding(k, s, items, j + 1);
          BindingShift(k, s, items, j);
        }
      }
      if Binding(k, s, items, 0) && tail {
        forall j: nat | 3 * j < |items| ensures Binding(k, s, items, j) {
          if j > 0 {
            assert Binding(k, s, rest, j - 1);
            BindingShift(k, s, items, j - 1);
          }
        }
      }
    }
  }

  /** An accepted substitution list binds, in order, the name and the term of each triple. */
  lemma {:induction false} EnvOfBindings(k: Kernel, s: Snapshot, items: seq<SExpr>)
    requires EnvOf(k, s, items).Success?
    decreases |items|
    ensures 3 * |EnvOf(k, s, items).value| == |items|
    ensures forall j :: 0 <= j < |EnvOf(k, s, items).value| ==>
      && k.symbol(items[3 * j]) == Success(EnvOf(k, s, items).value[j].0)
      && Parsed(k, s, items[3 * j + 2]) == Success(EnvOf(k, s, items).value[j].1)
  {
    if |items| > 0 {
      var rest := items[3..];
      var r, r' := EnvOf(k, s, items), EnvOf(k, s, rest);
      assert r'.Success? && r.value[1..] == r'.value;
      EnvOfBindings(k, s, rest);
      forall j | 1 <= j < |r.value|
        ensures k.symbol(items[3 * j]) == Success(r.value[j].0)
        ensures Parsed(k, s, items[3 * j + 2]) == Success(r.value[j].1)
      {
        assert r.value[j] == r'.value[j - 1];
        assert items[3 * j] == rest[3 * (j - 1)];
        assert items[3 * j + 2] == rest[3 * (j - 1) + 2];
      }
    }
  }

  /** Every element of `items` is accepted by the parser that reads it. */
  predicate Recognized(k: Kernel, s: Snapshot, items: seq<SExpr>)
  {
    forall i :: 0 <= i < |items| ==>
      if i % 3 == 2 then Parsed(k, s, items[i]).Success? else k.symbol(items[i]).Success?
  }

  /**
   * When every name and term in a substitution list parses, the only way
   * it fails is a SyntaxError: a bad separator or a name mapped to nothing.
   */
  lemma {:induction false} EnvOfOnlySyntaxErrors(k: Kernel, s: Snapshot, items: seq<SExpr>)
    requires Recognized(k, s, items)
    decreases |items|
    ensures EnvOf(k, s, items).Failure? ==> EnvOf(k, s, items).error == SyntaxError
  {
    if |items| >= 3 {
      var rest := items[3..];
      forall i | 0 <= i < |rest|
        ensures if i % 3 == 2 then Parsed(k, s, rest[i]).Success? else k.symbol(rest[i]).Success?
      {
        assert rest[i] == items[i + 3];
        assert (i + 3) % 3 == i % 3;
      }
      EnvOfOnlySyntaxErrors(k, s, rest);
    }
  }

  /** `genenv`, consuming the list three elements at a time as the generator does. */
  method GenEnv(k: Kernel, curr: State, items: seq<SExpr>) returns (r: Fallible<seq<(Name, Term)>>)
    ensures r == EnvOf(k, curr.Current(), items)
  {
    var it := items;
    var env: seq<(Name, Term)> := [];
    match EnvOf(k, curr.Current(), items) {
      case Success(all) => assert [] + all == all;
      case Failure(_) =>
    }
    while |it| > 0
      invariant EnvOf(k, curr.Current(), items) == Prefixed(env, EnvOf(k, curr.Current(), it))
    {
      var whole := it;
      var elem := it[0];
      it := it[1..];
      var name := k.symbol(elem);
      if name.Failure? {
        return Failure(name.error);
      }
      if |it| == 0 {
        return Failure(SyntaxError);
      }
      var sep := k.symbol(it[0]);
      it := it[1..];
      if sep.Failure? {
        return Failure(sep.error);
      }
      if |it| == 0 {
        return Failure(SyntaxError);
      }
      var e := ParseTerm(k, curr, it[0]);
      it := it[1..];
      if e.Failure? {
        return Failure(e.error);
      }
      if sep.value !in Separators {
        return Failure(SyntaxError);
      }
      assert whole[3..] == it;
      match EnvOf(k, curr.Current(), it) {
        case Success(rest) => assert env + ([(name.value, e.value)] + rest) == env + [(name.value, e.value)] + rest;
        case Failure(_) =>
      }
      env := env + [(name.value, e.value)];
    }
    assert env + [] == env;
    r := Success(env);
  }

  // ---------------------------------------------------------------------
  // Proof arguments and proofs

  /** `argument(expr)`: a symbol or number names a lemma; `(sorry tag)` admits a gap. */
  function ArgumentOf(k: Kernel, e: SExpr): (r: Fallible<Argument>)
    ensures r.Success? && r.value.Lemma? <==> (e.Symbol? || e.Int?) && k.symbol(e).Success?
    ensures r.Success? && r.value.Lemma? ==> k.symbol(e) == Success(r.value.name)
    ensures r.Success? && r.value.Sorry? <==>
      e.List? && |e.items| == 2 && e.items[0] == Symbol("sorry") && k.symbol(e.items[1]).Success?
    ensures r.Success? && r.value.Sorry? ==> k.symbol(e.items[1]) == Success(r.value.name)
    ensures e.List? && |e.items| == 2 && e.items[0] != Symbol("sorry") ==> r == Failure(SyntaxError)
  {
    if e.Symbol? || e.Int? then
      var name :- k.symbol(e);
      Success(Lemma(name))
    else if e.Bracket? then
      Failure(TypeError)
    else if |e.items| != 2 then
      Failure(ValueError)
    else if e.items[0] != Symbol("sorry") then
      Failure(SyntaxError)
    else
      var tag :- k.symbol(e.items[1]);
      Success(Sorry(tag))
  }

  /** The arguments of a proof: what follows its rule name, less a leading `[...]` group. */
  function ProofArgs(items: seq<SExpr>): seq<SExpr>
    requires |items| > 0
  {
    var args := items[1..];
    var head := First(args);
    if head.Some? && head.value.Bracket? then args[1..] else args
  }

  /** The substitution list of a proof: the leading `[...]` group, or nothing. */
  function ProofSubsts(items: seq<SExpr>): seq<SExpr>
    requires |items| > 0
  {
    var args := items[1..];
    var head := First(args);
    if head.Some? && head.value.Bracket? then head.value.items else []
  }

  /**
   * `proof(curr, expr)`: `(rule [substitutions] argument ...)` with the
   * rule name parsed first, then the arguments, then the substitutions.
   */
  function ProofOf(k: Kernel, s: Snapshot, e: SExpr): Fallible<Proof>
  {
    if !e.List? then Failure(TypeError)
    else if |e.items| == 0 then Failure(ValueError)
    else
      var edge :- k.symbol(e.items[0]);
      var arguments :- MapList(a => ArgumentOf(k, a), ProofArgs(e.items));
      var env :- EnvOf(k, s, ProofSubsts(e.items));
      Success(Proof(edge, arguments, DictOf(env)))
  }

  /**
   * A proof is accepted exactly when its rule name, every argument and its
   * substitution list are; it then holds those, the substitutions as a
   * dictionary in which a later binding of a name wins.
   */
  lemma ProofOfParts(k: Kernel, s: Snapshot, e: SExpr)
    ensures !e.List? ==> ProofOf(k, s, e) == Failure(TypeError)
    ensures e.List? && |e.items| == 0 ==> ProofOf(k, s, e) == Failure(ValueError)
    ensures e.List? && |e.items| > 0 ==>
      (ProofOf(k, s, e).Success? <==>
         && k.symbol(e.items[0]).Success?
         && (forall i :: 0 <= i < |ProofArgs(e.items)| ==> ArgumentOf(k, ProofArgs(e.items)[i]).Success?)
         && EnvOf(k, s, ProofSubsts(e.items)).Success?)
    ensures ProofOf(k, s, e).Success? ==>
      && e.List? && |e.items| > 0
      && k.symbol(e.items[0]) == Success(ProofOf(k, s, e).value.edge)
      && |ProofOf(k, s, e).value.arguments| == |ProofArgs(e.items)|
      && (forall i :: 0 <= i < |ProofArgs(e.items)| ==>
            ArgumentOf(k, ProofArgs(e.items)[i]) == Success(ProofOf(k, s, e).value.arguments[i]))
      && ProofOf(k, s, e).value.substitutions == DictOf(EnvOf(k, s, ProofSubsts(e.items)).value)
  {
  }

  method ParseProof(k: Kernel, curr: State, e: SExpr) returns (r: Fallible<Proof>)
    ensures r == ProofOf(k, curr.Current(), e)
  {
    if !e.List? {
      return Failure(TypeError);
    }
    if |e.items| == 0 {
      return Failure(ValueError);
    }
    var edge := e.items[0];
    var args := e.items[1..];
    var substs: seq<SExpr>;
    var head := First(args);
    if head.Some? && head.value.Bracket? {
      substs := args[0].items;
      args := args[1..];
    } else {
      substs := [];
    }
    var name := k.symbol(edge);
    if name.Failure? {
      return Failure(name.error);
    }
    var arguments := MapList(a => ArgumentOf(k, a), args);
    if arguments.Failure? {
      return Failure(arguments.error);
    }
    var env := GenEnv(k, curr, substs);
    if env.Failure? {
      return Failure(env.error);
    }
    r := Success(Proof(name.value, arguments.value, DictOf(env.value)));
  }

  /**
   * Reads `name value name value ...`: each name through `name`, each value
   * through `value`, in order, stopping at the first error; a name with
   * nothing after it is an IndexError.
   */
  function NamedPairs<T>(name: SExpr -> Fallible<Name>, value: SExpr -> Fallible<T>, items: seq<SExpr>): Fallible<seq<(Name, T)>>
    decreases |items|
  {
    if |items| == 0 then Success([])
    else
      var n :- name(items[0]);
      if |items| < 2 then Failure(IndexError)
      else
        var v :- value(items[1]);
        var rest :- NamedPairs(name, value, items[2..]);
        Success([(n, v)] + rest)
  }

  /** The `j`-th pair of `items` reads as a name and a value. */
  predicate PairReads<T>(name: SExpr -> Fallible<Name>, value: SExpr -> Fallible<T>, items: seq<SExpr>, j: nat)
  {
    2 * j + 1 < |items| && name(items[2 * j]).Success? && value(items[2 * j + 1]).Success?
  }

  lemma PairReadsShift<T>(name: SExpr -> Fallible<Name>, value: SExpr -> Fallible<T>, items: seq<SExpr>, j: nat)
    requires |items| >= 2
    ensures PairReads(name, value, items[2..], j) == PairReads(name, value, items, j + 1)
  {
    var rest := items[2..];
    if 2 * j + 1 < |rest| {
      assert rest[2 * j] == items[2 * (j + 1)];
      assert rest[2 * j + 1] == items[2 * (j + 1) + 1];
    }
  }

  /** A list of odd length is rejected: its last name has no value. */
  lemma {:induction false} NamedPairsOddRejected<T>(name: SExpr -> Fallible<Name>, value: SExpr -> Fallible<T>, items: seq<SExpr>)
    requires |items| % 2 == 1
    decreases |items|
    ensures NamedPairs(name, value, items).Failure?
  {
    if |items| >= 2 {
      NamedPairsOddRejected(name, value, items[2..]);
    }
  }

  /** A pair that does not read as a name and a value makes the whole list rejected. */
  lemma {:induction false} NamedPairsBadPairRejected<T>(name: SExpr -> Fallible<Name>, value: SExpr -> Fallible<T>, items: seq<SExpr>, j: nat)
    requires 2 * j < |items| && !PairReads(name, value, items, j)
    decreases j
    ensures NamedPairs(name, value, items).Failure?
  {
    if |items| == 1 {
      NamedPairsOddRejected(name, value, items);
    } else if j > 0 {
      PairReadsShift(name, value, items, j - 1);
      NamedPairsBadPairRejected(name, value, items[2..], j - 1);
    }
  }

  /** An even-length list whose every pair reads is accepted. */
  lemma {:induction false} NamedPairsAccepted<T>(name: SExpr -> Fallible<Name>, value: SExpr -> Fallible<T>, items: seq<SExpr>)
    requires |items| % 2 == 0
    requires forall j: nat :: 2 * j < |items| ==> PairReads(name, value, items, j)
    decreases |items|
    ensures NamedPairs(name, value, items).Success?
  {
    if |items| > 0 {
      forall j: nat | 2 * j < |items[2..]| ensures PairReads(name, value, items[2..], j) {
        PairReadsShift(name, value, items, j);
        assert PairReads(name, value, items, j + 1);
      }
      NamedPairsAccepted(name, value, items[2..]);
      assert PairReads(name, value, items, 0);
    }
  }

  /** An accepted list yields each pair's name and value, in order. */
  lemma {:induction false} NamedPairsValues<T>(name: SExpr -> Fallible<Name>, value: SExpr -> Fallible<T>, items: seq<SExpr>)
    requires NamedPairs(name, value, items).Success?
    decreases |items|
    ensures 2 * |NamedPairs(name, value, items).value| == |items|
    ensures forall j :: 0 <= j < |NamedPairs(name, value, items).value| ==>
      && name(items[2 * j]) == Success(NamedPairs(name, value, items).value[j].0)
      && value(items[2 * j + 1]) == Success(NamedPairs(name, value, items).value[j].1)
  {
    if |items| > 0 {
      var rest := items[2..];
      var r, r' := NamedPairs(name, value, items), NamedPairs(name, value, rest);
      assert r'.Success? && r.value[1..] == r'.value;
      NamedPairsValues(name, value, rest);
      forall j | 1 <= j < |r.value|
        ensures name(items[2 * j]) == Success(r.value[j].0)
        ensures value(items[2 * j + 1]) == Success(r.value[j].1)
      {
        assert r.value[j] == r'.value[j - 1];
        assert items[2 * j] == rest[2 * (j - 1)];
        assert items[2 * j + 1] == rest[2 * (j - 1) + 1];
      }
    }
  }

  /** `proofs(curr, items)`: pairs `name proof`, in order. */
  function ProofsOf(k: Kernel, s: Snapshot, items: seq<SExpr>): Fallible<seq<(Name, Proof)>>
  {
    NamedPairs(k.symbol, e => ProofOf(k, s, e), items)
  }

  /** `proofs`, popping a name and a proof per round. */
  method Proofs(k: Kernel, curr: State, items: seq<SExpr>) returns (r: Fallible<seq<(Name, Proof)>>)
    ensures r == ProofsOf(k, curr.Current(), items)
  {
    var expr := items;
    var res: seq<(Name, Proof)> := [];
    match ProofsOf(k, curr.Current(), items) {
      case Success(all) => assert [] + all == all;
      case Failure(_) =>
    }
    while |expr| > 0
      invariant ProofsOf(k, curr.Current(), items) == Prefixed(res, ProofsOf(k, curr.Current(), expr))
    {
      var whole := expr;
      var name := k.symbol(expr[0]);
      expr := expr[1..];
      if name.Failure? {
        return Failure(name.error);
      }
      var popped := PopFront(expr);
      if popped.Failure? {
        return Failure(popped.error);
      }
      expr := popped.value.1;
      var body := ParseProof(k, curr, popped.value.0);
      if body.Failure? {
        return Failure(body.error);
      }
      assert whole[2..] == expr;
      match ProofsOf(k, curr.Current(), expr) {
        case Success(rest) => assert res + ([(name.value, body.value)] + rest) == res + [(name.value, body.value)] + rest;
        case Failure(_) =>
      }
      res := res + [(name.value, body.value)];
    }
    assert res + [] == res;
    r := Success(res);
  }
}
