/**
 * The commands of the checker's input language (`postulate`, `theorem`,
 * `infix`, `variables`, `bound`, `define`), each an update of the run state.
 *
 * Every command is a method on `State` proved equal to a function of the
 * state before it; the properties of a command are lemmas about that
 * function. A raised exception is the `raised` part of an outcome: the
 * updates made before it stay, as they do in the interpreter.
 */
module Commands {
  import opened Wrappers
  import opened Errors
  import opened SExp
  import opened Prelude
  import opened Datatypes
  import opened Prover
  import opened Macro
  import opened Forms

  /** What a command reports instead of raising (the interpreter prints these). */
  datatype Event =
    | Postulated(name: Name)
    | AlreadyPostulated(name: Name)
    | Checked(name: Name)
    | NotChecked(name: Name)
    | TheoremExists(name: Name)
    | OperatorExists(name: Name, precedence: int)

  /** The field a command updates, what it reported and the exception it raised, if any. */
  datatype Outcome<S> = Outcome(state: S, log: seq<Event>, raised: Option<Error>)

  // ---------------------------------------------------------------------
  // postulate

  /** `o` preceded by the events of `log`. */
  function After<S>(log: seq<Event>, o: Outcome<S>): Outcome<S>
  {
    o.(log := log + o.log)
  }

  lemma AfterAfter<S>(first: seq<Event>, second: seq<Event>, o: Outcome<S>)
    ensures After(first, After(second, o)) == After(first + second, o)
  {
    assert first + (second + o.log) == first + second + o.log;
  }

  /**
   * `postulate(curr, expr)` from the point where `premises` have been read
   * since the last rule. Each separator is followed by the rule's name and
   * conclusion; a rule whose name is already in the context is reported and
   * dropped, and the premise buffer is emptied either way. Premises left over
   * at the end are a SyntaxError.
   */
  function PostulateFrom(k: Kernel, s: Snapshot, expr: seq<SExpr>, premises: seq<Term>): Outcome<Context>
    decreases |expr|
  {
    if |expr| == 0 then
      Outcome(s.context, [], if |premises| > 0 then Some(SyntaxError) else None)
    else if IsSeparator(expr[0]) then
      if |expr| < 2 then Outcome(s.context, [], Some(IndexError))
      else
        match k.symbol(expr[1])
        case Failure(e) => Outcome(s.context, [], Some(e))
        case Success(name) =>
          if |expr| < 3 then Outcome(s.context, [], Some(IndexError))
          else
            match Parsed(k, s, expr[2])
            case Failure(e) => Outcome(s.context, [], Some(e))
            case Success(conclusion) =>
              if name in s.context then
                After([AlreadyPostulated(name)], PostulateFrom(k, s, expr[3..], []))
              else
                var s' := s.(context := s.context[name := InferenceRule(premises, conclusion)]);
                After([Postulated(name)], PostulateFrom(k, s', expr[3..], []))
    else
      match Parsed(k, s, expr[0])
      case Failure(e) => Outcome(s.context, [], Some(e))
      case Success(t) => PostulateFrom(k, s, expr[1..], premises + [t])
  }

  /** `postulate` never removes or replaces a rule already in the context. */
  lemma {:induction false} PostulateKeeps(k: Kernel, s: Snapshot, expr: seq<SExpr>, premises: seq<Term>)
    decreases |expr|
    ensures forall n :: n in s.context ==>
      n in PostulateFrom(k, s, expr, premises).state &&
      PostulateFrom(k, s, expr, premises).state[n] == s.context[n]
  {
    if |expr| > 0 {
      if IsSeparator(expr[0]) {
        if |expr| >= 3 && k.symbol(expr[1]).Success? && Parsed(k, s, expr[2]).Success? {
          var name, conclusion := k.symbol(expr[1]).value, Parsed(k, s, expr[2]).value;
          if name in s.context {
            PostulateKeeps(k, s, expr[3..], []);
          } else {
            var s' := s.(context := s.context[name := InferenceRule(premises, conclusion)]);
            PostulateKeeps(k, s', expr[3..], []);
          }
        }
      } else if Parsed(k, s, expr[0]).Success? {
        PostulateKeeps(k, s, expr[1..], premises + [Parsed(k, s, expr[0]).value]);
      }
    }
  }

  /** A name is added to the context exactly when `postulate` reports adding it. */
  lemma {:induction false} PostulateReports(k: Kernel, s: Snapshot, expr: seq<SExpr>, premises: seq<Term>)
    decreases |expr|
    ensures var r := PostulateFrom(k, s, expr, premises);
      forall n :: (n in r.state && n !in s.context) <==> Postulated(n) in r.log
  {
    if |expr| > 0 {
      if IsSeparator(expr[0]) {
        if |expr| >= 3 && k.symbol(expr[1]).Success? && Parsed(k, s, expr[2]).Success? {
          var name, conclusion := k.symbol(expr[1]).value, Parsed(k, s, expr[2]).value;
          if name in s.context {
            PostulateReports(k, s, expr[3..], []);
          } else {
            var s' := s.(context := s.context[name := InferenceRule(premises, conclusion)]);
            PostulateReports(k, s', expr[3..], []);
            PostulateKeeps(k, s', expr[3..], []);
          }
        }
      } else if Parsed(k, s, expr[0]).Success? {
        PostulateReports(k, s, expr[1..], premises + [Parsed(k, s, expr[0]).value]);
      }
    }
  }

  /** Every element of `items` is something other than a separator and reads as a term. */
  predicate PremiseTerms(k: Kernel, s: Snapshot, items: seq<SExpr>, ts: seq<Term>)
  {
    && |ts| == |items|
    && forall i :: 0 <= i < |items| ==> !IsSeparator(items[i]) && Parsed(k, s, items[i]) == Success(ts[i])
  }

  /**
   * One group `premise ... separator name conclusion` adds the rule `name`
   * whose premises are exactly the terms read since the previous group
   * (unless `name` is taken), and the next group starts with no premises.
   */
  lemma {:induction false} PostulateGroup(
    k: Kernel, s: Snapshot, ps: seq<SExpr>, ts: seq<Term>, sep: SExpr, n: SExpr, c: SExpr,
    rest: seq<SExpr>, premises: seq<Term>, name: Name, conclusion: Term)
    requires PremiseTerms(k, s, ps, ts)
    requires IsSeparator(sep) && k.symbol(n) == Success(name) && Parsed(k, s, c) == Success(conclusion)
    decreases |ps|
    ensures PostulateFrom(k, s, ps + [sep, n, c] + rest, premises) ==
      if name in s.context then After([AlreadyPostulated(name)], PostulateFrom(k, s, rest, []))
      else After([Postulated(name)],
                 PostulateFrom(k, s.(context := s.context[name := InferenceRule(premises + ts, conclusion)]), rest, []))
  {
    var expr := ps + [sep, n, c] + rest;
    if |ps| == 0 {
      assert expr == [sep, n, c] + rest;
      assert expr[3..] == rest;
      assert premises + ts == premises;
    } else {
      assert expr[0] == ps[0];
      assert expr[1..] == ps[1..] + [sep, n, c] + rest;
      assert PremiseTerms(k, s, ps[1..], ts[1..]);
      PostulateGroup(k, s, ps[1..], ts[1..], sep, n, c, rest, premises + [ts[0]], name, conclusion);
      assert premises + [ts[0]] + ts[1..] == premises + ts;
    }
  }

  /**
   * Premises with no separator after them raise SyntaxError; the rules
   * added before them stay in the context.
   */
  lemma {:induction false} PostulateLeftover(k: Kernel, s: Snapshot, expr: seq<SExpr>, ts: seq<Term>, premises: seq<Term>)
    requires PremiseTerms(k, s, expr, ts)
    requires |premises| + |expr| > 0
    decreases |expr|
    ensures PostulateFrom(k, s, expr, premises) == Outcome(s.context, [], Some(SyntaxError))
  {
    if |expr| > 0 {
      assert PremiseTerms(k, s, expr[1..], ts[1..]);
      PostulateLeftover(k, s, expr[1..], ts[1..], premises + [ts[0]]);
    }
  }

  /** `postulate(curr, expr)`: pops the list from the front, grouping premises into rules. */
  method Postulate(k: Kernel, curr: State, items: seq<SExpr>) returns (log: seq<Event>, raised: Option<Error>)
    modifies curr`context
    ensures Outcome(curr.context, log, raised) == PostulateFrom(k, old(curr.Current()), items, [])
  {
    var expr := items;
    var premises: seq<Term> := [];
    log := [];
    while |expr| > 0
      invariant PostulateFrom(k, old(curr.Current()), items, []) == After(log, PostulateFrom(k, curr.Current(), expr, premises))
      decreases |expr|
    {
      var whole := expr;
      var elem := expr[0];
      expr := expr[1..];
      if IsSeparator(elem) {
        var popped := PopFront(expr);
        if popped.Failure? {
          return log, Some(popped.error);
        }
        expr := popped.value.1;
        var name := k.symbol(popped.value.0);
        if name.Failure? {
          return log, Some(name.error);
        }
        popped := PopFront(expr);
        if popped.Failure? {
          return log, Some(popped.error);
        }
        expr := popped.value.1;
        var conclusion := ParseTerm(k, curr, popped.value.0);
        if conclusion.Failure? {
          return log, Some(conclusion.error);
        }
        assert whole[3..] == expr;
        if name.value in curr.context {
          AfterAfter(log, [AlreadyPostulated(name.value)], PostulateFrom(k, curr.Current(), expr, []));
          log := log + [AlreadyPostulated(name.value)];
        } else {
          curr.context := curr.context[name.value := InferenceRule(premises, conclusion.value)];
          AfterAfter(log, [Postulated(name.value)], PostulateFrom(k, curr.Current(), expr, []));
          log := log + [Postulated(name.value)];
        }
        premises := [];
      } else {
        var t := ParseTerm(k, curr, elem);
        if t.Failure? {
          return log, Some(t.error);
        }
        premises := premises + [t.value];
      }
    }
    assert log + [] == log;
    if |premises| > 0 {
      return log, Some(SyntaxError);
    }
    return log, None;
  }

  // ---------------------------------------------------------------------
  // preamble

  /**
   * What `preamble` returns: the theorem's name and conclusion, the names
   * and terms of its hypotheses, and the named proofs that follow.
   */
  datatype Head = Head(name: Name, conclusion: Term, names: seq<Name>, premises: seq<Term>, proofs: seq<(Name, Proof)>)

  /**
   * `preamble(curr, expr)` from the point where `names` and `premises` have
   * been read and `expected` terms are still owed to the names read. A
   * separator is followed by a name and owes one more term; another element
   * pays a term while one is owed; the first element met when nothing is owed
   * starts the proofs, and the last name and term read are the theorem's own.
   * Running out of elements, or reaching the proofs with no name read, is an
   * IndexError. The requirement is the balance the loop keeps, which is why
   * taking the last term never fails.
   */
  function PreambleFrom(k: Kernel, s: Snapshot, expr: seq<SExpr>, names: seq<Name>, premises: seq<Term>, expected: nat): (r: Fallible<Head>)
    requires |names| == |premises| + expected
    decreases |expr|
    ensures r.Success? ==> |r.value.names| == |r.value.premises|
  {
    if |expr| == 0 then Failure(IndexError)
    else if IsSeparator(expr[0]) then
      if |expr| < 2 then Failure(IndexError)
      else
        var name :- k.symbol(expr[1]);
        PreambleFrom(k, s, expr[2..], names + [name], premises, expected + 1)
    else if expected != 0 then
      var t :- Parsed(k, s, expr[0]);
      PreambleFrom(k, s, expr[1..], names, premises + [t], expected - 1)
    else if |names| == 0 then Failure(IndexError)
    else
      var proofs :- ProofsOf(k, s, expr);
      Success(Head(names[|names| - 1], premises[|premises| - 1], names[..|names| - 1], premises[..|premises| - 1], proofs))
  }

  /**
   * A step of the preamble as written: a separator followed by a name, or a
   * term paying for a name read earlier.
   */
  datatype Tok = Named(sep: SExpr, name: SExpr) | Owed(term: SExpr)

  /** The elements the tokens are written with, in order. */
  function Flat(toks: seq<Tok>): seq<SExpr>
  {
    if |toks| == 0 then []
    else (match toks[0] case Named(sep, n) => [sep, n] case Owed(e) => [e]) + Flat(toks[1..])
  }

  /**
   * Starting with `owed` terms owed, the tokens read the names `ns` and the
   * terms `ts`, in order, and end with `final` terms owed: every separator is
   * a separator and its name a symbol, and every term comes while one is
   * owed, is no separator and parses.
   */
  predicate Reads(k: Kernel, s: Snapshot, toks: seq<Tok>, owed: nat, ns: seq<Name>, ts: seq<Term>, final: nat)
    decreases |toks|
  {
    if |toks| == 0 then ns == [] && ts == [] && owed == final
    else match toks[0]
      case Named(sep, n) =>
        && IsSeparator(sep) && |ns| > 0 && k.symbol(n) == Success(ns[0])
        && Reads(k, s, toks[1..], owed + 1, ns[1..], ts, final)
      case Owed(e) =>
        && owed > 0 && !IsSeparator(e) && |ts| > 0 && Parsed(k, s, e) == Success(ts[0])
        && Reads(k, s, toks[1..], owed - 1, ns, ts[1..], final)
  }

  /** A separator and a name: the name is appended and one more term is owed. */
  lemma PreambleNamedStep(k: Kernel, s: Snapshot, toks: seq<Tok>, rest: seq<SExpr>,
                          name: Name, names: seq<Name>, premises: seq<Term>, expected: nat)
    requires |toks| > 0 && toks[0].Named? && IsSeparator(toks[0].sep) && k.symbol(toks[0].name) == Success(name)
    requires |names| == |premises| + expected
    ensures PreambleFrom(k, s, Flat(toks) + rest, names, premises, expected) ==
            PreambleFrom(k, s, Flat(toks[1..]) + rest, names + [name], premises, expected + 1)
  {
    var expr := Flat(toks) + rest;
    assert expr == [toks[0].sep, toks[0].name] + (Flat(toks[1..]) + rest);
    assert expr[2..] == Flat(toks[1..]) + rest;
  }

  /** An element met while a term is owed: its term is appended and one less is owed. */
  lemma PreambleOwedStep(k: Kernel, s: Snapshot, toks: seq<Tok>, rest: seq<SExpr>,
                         t: Term, names: seq<Name>, premises: seq<Term>, expected: nat)
    requires |toks| > 0 && toks[0].Owed? && expected > 0
    requires !IsSeparator(toks[0].term) && Parsed(k, s, toks[0].term) == Success(t)
    requires |names| == |premises| + expected
    ensures PreambleFrom(k, s, Flat(toks) + rest, names, premises, expected) ==
            PreambleFrom(k, s, Flat(toks[1..]) + rest, names, premises + [t], expected - 1)
  {
    var expr := Flat(toks) + rest;
    assert expr == [toks[0].term] + (Flat(toks[1..]) + rest);
    assert expr[1..] == Flat(toks[1..]) + rest;
  }

  /**
   * Reading the tokens appends every name and every term they hold, in
   * order, and leaves the count of owed terms at `final`, whatever the order
   * of names and terms.
   */
  lemma {:induction false} PreambleTokens(
    k: Kernel, s: Snapshot, toks: seq<Tok>, rest: seq<SExpr>, ns: seq<Name>, ts: seq<Term>, final: nat,
    names: seq<Name>, premises: seq<Term>, expected: nat)
    requires Reads(k, s, toks, expected, ns, ts, final)
    requires |names| == |premises| + expected
    decreases |toks|
    ensures |names + ns| == |premises + ts| + final
    ensures PreambleFrom(k, s, Flat(toks) + rest, names, premises, expected) ==
            PreambleFrom(k, s, rest, names + ns, premises + ts, final)
  {
    if |toks| == 0 {
      assert Flat(toks) + rest == rest;
      assert names + ns == names && premises + ts == premises;
    } else if toks[0].Named? {
      PreambleNamedStep(k, s, toks, rest, ns[0], names, premises, expected);
      PreambleTokens(k, s, toks[1..], rest, ns[1..], ts, final, names + [ns[0]], premises, expected + 1);
      HeadThenTail(names, ns);
    } else {
      PreambleOwedStep(k, s, toks, rest, ts[0], names, premises, expected);
      PreambleTokens(k, s, toks[1..], rest, ns, ts[1..], final, names, premises + [ts[0]], expected - 1);
      HeadThenTail(premises, ts);
    }
  }

  /** With nothing owed, an element that is no separator starts the proofs; the last name and term are the theorem's. */
  lemma PreambleEnd(k: Kernel, s: Snapshot, rest: seq<SExpr>, names: seq<Name>, premises: seq<Term>)
    requires |names| == |premises| > 0
    requires |rest| > 0 && !IsSeparator(rest[0])
    ensures PreambleFrom(k, s, rest, names, premises, 0) ==
      match ProofsOf(k, s, rest)
      case Success(proofs) => Success(Head(names[|names| - 1], premises[|premises| - 1], names[..|names| - 1], premises[..|premises| - 1], proofs))
      case Failure(e) => Failure(e)
  {
  }

  /**
   * A theorem whose preamble reads the names `ns` and the terms `ts` with
   * nothing owed at the end, followed by proofs that do not start with a
   * separator: the last name and the last term are the theorem's name and
   * conclusion, the earlier ones pair up, position by position, as its
   * hypotheses, and the proofs are read from the rest.
   */
  lemma PreambleLayout(k: Kernel, s: Snapshot, toks: seq<Tok>, rest: seq<SExpr>, ns: seq<Name>, ts: seq<Term>)
    requires Reads(k, s, toks, 0, ns, ts, 0) && |ns| > 0
    requires |rest| > 0 && !IsSeparator(rest[0])
    ensures |ts| == |ns|
    ensures PreambleFrom(k, s, Flat(toks) + rest, [], [], 0) ==
      match ProofsOf(k, s, rest)
      case Success(proofs) => Success(Head(ns[|ns| - 1], ts[|ts| - 1], ns[..|ns| - 1], ts[..|ts| - 1], proofs))
      case Failure(e) => Failure(e)
  {
    PreambleTokens(k, s, toks, rest, ns, ts, 0, [], [], 0);
    assert [] + ns == ns && [] + ts == ts;
    PreambleEnd(k, s, rest, ns, ts);
  }

  /** `Reads` of a `Named` token in front of tokens read one more term owed. */
  lemma ReadsNamed(k: Kernel, s: Snapshot, sep: SExpr, n: SExpr, toks: seq<Tok>, owed: nat,
                   name: Name, ns: seq<Name>, ts: seq<Term>, final: nat)
    requires IsSeparator(sep) && k.symbol(n) == Success(name)
    requires Reads(k, s, toks, owed + 1, ns, ts, final)
    ensures Reads(k, s, [Named(sep, n)] + toks, owed, [name] + ns, ts, final)
    ensures Flat([Named(sep, n)] + toks) == [sep, n] + Flat(toks)
  {
    assert ([Named(sep, n)] + toks)[1..] == toks;
    assert ([name] + ns)[1..] == ns;
  }

  /** `Reads` of an `Owed` token in front of tokens read one less term owed. */
  lemma ReadsOwed(k: Kernel, s: Snapshot, e: SExpr, toks: seq<Tok>, owed: nat,
                  ns: seq<Name>, t: Term, ts: seq<Term>, final: nat)
    requires owed > 0 && !IsSeparator(e) && Parsed(k, s, e) == Success(t)
    requires Reads(k, s, toks, owed - 1, ns, ts, final)
    ensures Reads(k, s, [Owed(e)] + toks, owed, ns, [t] + ts, final)
    ensures Flat([Owed(e)] + toks) == [e] + Flat(toks)
  {
    assert ([Owed(e)] + toks)[1..] == toks;
    assert ([t] + ts)[1..] == ts;
  }

  /**
   * The interleaved preamble `─ a ─ b A B ─ T C`, where both names come
   * before their terms: hypotheses `a : A` and `b : B`, theorem `T : C`.
   */
  lemma PreambleInterleaved(k: Kernel, s: Snapshot, sep: SExpr, a: SExpr, b: SExpr, x: SExpr, y: SExpr, t: SExpr, c: SExpr,
                            rest: seq<SExpr>, na: Name, nb: Name, nt: Name, ta: Term, tb: Term, tc: Term)
    requires IsSeparator(sep) && !IsSeparator(x) && !IsSeparator(y) && !IsSeparator(c)
    requires k.symbol(a) == Success(na) && k.symbol(b) == Success(nb) && k.symbol(t) == Success(nt)
    requires Parsed(k, s, x) == Success(ta) && Parsed(k, s, y) == Success(tb) && Parsed(k, s, c) == Success(tc)
    requires |rest| > 0 && !IsSeparator(rest[0])
    ensures PreambleFrom(k, s, [sep, a, sep, b, x, y, sep, t, c] + rest, [], [], 0) ==
      match ProofsOf(k, s, rest)
      case Success(proofs) => Success(Head(nt, tc, [na, nb], [ta, tb], proofs))
      case Failure(e) => Failure(e)
  {
    var toks: seq<Tok> := [];
    assert Reads(k, s, toks, 0, [], [], 0) && Flat(toks) == [];
    ReadsOwed(k, s, c, toks, 1, [], tc, [], 0);
    toks := [Owed(c)] + toks;
    ReadsNamed(k, s, sep, t, toks, 0, nt, [], [tc], 0);
    toks := [Named(sep, t)] + toks;
    ReadsOwed(k, s, y, toks, 1, [nt], tb, [tc], 0);
    toks := [Owed(y)] + toks;
    ReadsOwed(k, s, x, toks, 2, [nt], ta, [tb, tc], 0);
    toks := [Owed(x)] + toks;
    ReadsNamed(k, s, sep, b, toks, 1, nb, [nt], [ta, tb, tc], 0);
    toks := [Named(sep, b)] + toks;
    ReadsNamed(k, s, sep, a, toks, 0, na, [nb, nt], [ta, tb, tc], 0);
    toks := [Named(sep, a)] + toks;
    assert Flat(toks) == [sep, a, sep, b, x, y, sep, t, c];
    PreambleLayout(k, s, toks, rest, [na, nb, nt], [ta, tb, tc]);
    assert [na, nb, nt][..2] == [na, nb] && [ta, tb, tc][..2] == [ta, tb];
  }

  /** `preamble(curr, expr)`, popping the list from the front until the proofs begin. */
  method Preamble(k: Kernel, curr: State, items: seq<SExpr>) returns (r: Fallible<Head>)
    ensures r == PreambleFrom(k, curr.Current(), items, [], [], 0)
  {
    var expr := items;
    var names: seq<Name> := [];
    var premises: seq<Term> := [];
    var expected: nat := 0;
    while true
      invariant |names| == |premises| + expected
      invariant PreambleFrom(k, curr.Current(), items, [], [], 0) == PreambleFrom(k, curr.Current(), expr, names, premises, expected)
      decreases |expr|
    {
      var whole := expr;
      var popped := PopFront(expr);
      if popped.Failure? {
        return Failure(popped.error);
      }
      var elem := popped.value.0;
      expr := popped.value.1;
      if IsSeparator(elem) {
        expected := expected + 1;
        popped := PopFront(expr);
        if popped.Failure? {
          return Failure(popped.error);
        }
        expr := popped.value.1;
        var name := k.symbol(popped.value.0);
        if name.Failure? {
          return Failure(name.error);
        }
        assert whole[2..] == expr;
        names := names + [name.value];
      } else if expected != 0 {
        expected := expected - 1;
        var t := ParseTerm(k, curr, elem);
        if t.Failure? {
          return Failure(t.error);
        }
        premises := premises + [t.value];
      } else {
        if |names| == 0 {
          return Failure(IndexError);
        }
        var name := names[|names| - 1];
        names := names[..|names| - 1];
        var conclusion := premises[|premises| - 1];
        premises := premises[..|premises| - 1];
        assert [elem] + expr == whole;
        var proofs := Proofs(k, curr, [elem] + expr);
        if proofs.Failure? {
          return Failure(proofs.error);
        }
        return Success(Head(name, conclusion, names, premises, proofs.value));
      }
    }
  }

  // ---------------------------------------------------------------------
  // theorem

  /** `zip(names, premises)`, each hypothesis as a rule with no premises. */
  function Assumptions(names: seq<Name>, premises: seq<Term>): seq<(Name, InferenceRule)>
  {
    var n := if |names| <= |premises| then |names| else |premises|;
    seq(n, i requires 0 <= i < n => (names[i], InferenceRule([], premises[i])))
  }

  /**
   * The loop of `theorem` over the proofs before the last: the conclusion of
   * each proof, inferred in the context built so far, becomes a rule with no
   * premises under the proof's name.
   */
  function Intermediate(k: Kernel, ctx: Context, bound: seq<Term>, lemmas: seq<(Name, Proof)>): Fallible<Context>
    decreases |lemmas|
  {
    if |lemmas| == 0 then Success(ctx)
    else
      var t :- k.infer(ctx, bound, lemmas[0].1);
      Intermediate(k, ctx[lemmas[0].0 := InferenceRule([], t)], bound, lemmas[1..])
  }

  /**
   * A proof is inferred in the context that holds every lemma before it:
   * adding a proof at the end infers it after all the others.
   */
  lemma {:induction false} IntermediateSnoc(k: Kernel, ctx: Context, bound: seq<Term>, lemmas: seq<(Name, Proof)>, x: Name, p: Proof)
    decreases |lemmas|
    ensures Intermediate(k, ctx, bound, lemmas + [(x, p)]) ==
      match Intermediate(k, ctx, bound, lemmas)
      case Failure(e) => Failure(e)
      case Success(c) =>
        match k.infer(c, bound, p)
        case Failure(e) => Failure(e)
        case Success(t) => Success(c[x := InferenceRule([], t)])
  {
    var all := lemmas + [(x, p)];
    if |lemmas| == 0 {
      assert all == [(x, p)];
      assert all[1..] == [];
    } else {
      assert all[0] == lemmas[0];
      assert all[1..] == lemmas[1..] + [(x, p)];
      match k.infer(ctx, bound, lemmas[0].1)
      case Failure(_) =>
      case Success(t) =>
        IntermediateSnoc(k, ctx[lemmas[0].0 := InferenceRule([], t)], bound, lemmas[1..], x, p);
    }
  }

  /** The names of `lemmas`. */
  function LemmaNames(lemmas: seq<(Name, Proof)>): set<Name>
  {
    set i | 0 <= i < |lemmas| :: lemmas[i].0
  }

  /**
   * The working context gains exactly the lemmas' names, each as a rule with
   * no premises, and every other name keeps its rule.
   */
  lemma {:induction false} IntermediateKeys(k: Kernel, ctx: Context, bound: seq<Term>, lemmas: seq<(Name, Proof)>)
    requires Intermediate(k, ctx, bound, lemmas).Success?
    decreases |lemmas|
    ensures var c := Intermediate(k, ctx, bound, lemmas).value;
      && c.Keys == ctx.Keys + LemmaNames(lemmas)
      && (forall n :: n in LemmaNames(lemmas) ==> c[n].premises == [])
      && (forall n :: n in ctx && n !in LemmaNames(lemmas) ==> c[n] == ctx[n])
  {
    if |lemmas| > 0 {
      var t := k.infer(ctx, bound, lemmas[0].1).value;
      var ctx' := ctx[lemmas[0].0 := InferenceRule([], t)];
      IntermediateKeys(k, ctx', bound, lemmas[1..]);
      assert LemmaNames(lemmas) == {lemmas[0].0} + LemmaNames(lemmas[1..]) by {
        forall n | n in LemmaNames(lemmas) ensures n in {lemmas[0].0} + LemmaNames(lemmas[1..]) {
          var i :| 0 <= i < |lemmas| && lemmas[i].0 == n;
          if i > 0 { assert lemmas[1..][i - 1] == lemmas[i]; }
        }
        forall n | n in LemmaNames(lemmas[1..]) ensures n in LemmaNames(lemmas) {
          var i :| 0 <= i < |lemmas[1..]| && lemmas[1..][i].0 == n;
          assert lemmas[i + 1] == lemmas[1..][i];
        }
      }
    }
  }

  /** The inner block of `theorem`: infer the lemmas, then check the last proof. */
  function Verified(k: Kernel, ctx: Context, bound: seq<Term>, lemmas: seq<(Name, Proof)>, conclusion: Term, proof: Proof): Fallible<()>
  {
    var c :- Intermediate(k, ctx, bound, lemmas);
    k.check(c, bound, conclusion, proof)
  }

  /** The context a theorem's proofs are checked in: the current one with the hypotheses on top. */
  function LocalContext(ctx: Context, h: Head): Context
  {
    ctx + DictOf(Assumptions(h.names, h.premises))
  }

  /**
   * `theorem(curr, expr)`: an empty form does nothing; otherwise the
   * preamble is read and the rest is `TheoremAfter`.
   */
  function TheoremRun(k: Kernel, s: Snapshot, expr: seq<SExpr>): Outcome<Context>
  {
    if |expr| == 0 then Outcome(s.context, [], None)
    else TheoremAfter(k, s, PreambleFrom(k, s, expr, [], [], 0))
  }

  /**
   * `theorem` once its preamble has been read: the last proof is the
   * theorem's. A name already in the context is reported; a
   * VerificationError from inferring a lemma or checking the theorem is
   * reported; any other error is raised. Only a checked theorem is added,
   * with its hypotheses as its premises, so no rule of the context is ever
   * replaced and an exception leaves the context as it was.
   */
  function TheoremAfter(k: Kernel, s: Snapshot, preamble: Fallible<Head>): (r: Outcome<Context>)
    ensures forall n :: n in s.context ==> n in r.state && r.state[n] == s.context[n]
    ensures r.raised.Some? ==> r.state == s.context && r.log == []
  {
    match preamble
    case Failure(e) => Outcome(s.context, [], Some(e))
    case Success(h) =>
      if |h.proofs| == 0 then Outcome(s.context, [], Some(IndexError))
      else if h.name in s.context then Outcome(s.context, [TheoremExists(h.name)], None)
      else
        var last := |h.proofs| - 1;
        match Verified(k, LocalContext(s.context, h), s.bound, h.proofs[..last], h.conclusion, h.proofs[last].1)
        case Success(_) => Outcome(s.context[h.name := InferenceRule(h.premises, h.conclusion)], [Checked(h.name)], None)
        case Failure(e) =>
          if e == VerificationError then Outcome(s.context, [NotChecked(h.name)], None)
          else Outcome(s.context, [], Some(e))
  }

  /**
   * `theorem` changes the context only by adding, under a fresh name, the
   * rule from its hypotheses to its conclusion, and only once every proof
   * has been checked; the hypotheses and lemmas never reach the context.
   */
  lemma TheoremCommits(k: Kernel, s: Snapshot, h: Head)
    ensures var r := TheoremAfter(k, s, Success(h));
      r.state != s.context <==>
        && h.name !in s.context
        && |h.proofs| > 0
        && Verified(k, LocalContext(s.context, h), s.bound, h.proofs[..|h.proofs| - 1], h.conclusion, h.proofs[|h.proofs| - 1].1).Success?
    ensures var r := TheoremAfter(k, s, Success(h));
      r.state != s.context ==>
        && r.raised.None?
        && r.log == [Checked(h.name)]
        && r.state == s.context[h.name := InferenceRule(h.premises, h.conclusion)]
  {
    var r := TheoremAfter(k, s, Success(h));
    if h.name !in s.context && |h.proofs| > 0 {
      var last := |h.proofs| - 1;
      if Verified(k, LocalContext(s.context, h), s.bound, h.proofs[..last], h.conclusion, h.proofs[last].1).Success? {
        assert h.name in r.state;
      }
    }
  }

  /** `theorem`'s loop over the lemmas, on its working copy of the context. */
  method InferLemmas(k: Kernel, ctx: Context, bound: seq<Term>, lemmas: seq<(Name, Proof)>) returns (r: Fallible<Context>)
    ensures r == Intermediate(k, ctx, bound, lemmas)
  {
    var local := ctx;
    var i := 0;
    while i < |lemmas|
      invariant 0 <= i <= |lemmas|
      invariant Intermediate(k, ctx, bound, lemmas) == Intermediate(k, local, bound, lemmas[i..])
    {
      var t := k.infer(local, bound, lemmas[i].1);
      if t.Failure? {
        return Failure(t.error);
      }
      assert lemmas[i..][1..] == lemmas[i + 1..];
      local := local[lemmas[i].0 := InferenceRule([], t.value)];
      i := i + 1;
    }
    return Success(local);
  }

  /** `theorem(curr, expr)`. */
  method Theorem(k: Kernel, curr: State, items: seq<SExpr>) returns (log: seq<Event>, raised: Option<Error>)
    modifies curr`context
    ensures Outcome(curr.context, log, raised) == TheoremRun(k, old(curr.Current()), items)
  {
    if |items| == 0 {
      return [], None;
    }
    var head := Preamble(k, curr, items);
    if head.Failure? {
      return [], Some(head.error);
    }
    var h := head.value;
    if |h.proofs| == 0 {
      return [], Some(IndexError);
    }
    var proof := h.proofs[|h.proofs| - 1].1;
    var lemmas := h.proofs[..|h.proofs| - 1];
    var local := curr.context + DictOf(Assumptions(h.names, h.premises));
    if h.name in curr.context {
      return [TheoremExists(h.name)], None;
    }
    var ctx := InferLemmas(k, local, curr.bound, lemmas);
    var verdict := if ctx.Failure? then Failure(ctx.error) else k.check(ctx.value, curr.bound, h.conclusion, proof);
    if verdict.Success? {
      curr.context := curr.context[h.name := InferenceRule(h.premises, h.conclusion)];
      return [Checked(h.name)], None;
    }
    if verdict.error == VerificationError {
      return [NotChecked(h.name)], None;
    }
    return [], Some(verdict.error);
  }

  // ---------------------------------------------------------------------
  // infix, variables, bound, define

  /**
   * `infix(curr, expr)`: exactly an operator and an integer precedence; an
   * operator already declared keeps its precedence and is reported.
   */
  function InfixRun(k: Kernel, s: Snapshot, expr: seq<SExpr>): (r: Outcome<map<Name, int>>)
    ensures |expr| != 2 ==> r.raised == Some(ValueError)
    ensures |expr| == 2 && !expr[1].Int? ==> r.raised == Some(AssertionError)
    ensures r.raised.Some? ==> r.state == s.infix && r.log == []
    ensures forall n :: n in s.infix ==> n in r.state && r.state[n] == s.infix[n]
    ensures forall n :: n in r.state && n !in s.infix ==>
      |expr| == 2 && k.symbol(expr[0]) == Success(n) && expr[1] == Int(r.state[n])
    ensures r.raised.None? ==> |expr| == 2 && k.symbol(expr[0]).Success? && k.symbol(expr[0]).value in r.state
  {
    if |expr| != 2 then Outcome(s.infix, [], Some(ValueError))
    else if !expr[1].Int? then Outcome(s.infix, [], Some(AssertionError))
    else
      match k.symbol(expr[0])
      case Failure(e) => Outcome(s.infix, [], Some(e))
      case Success(name) =>
        if name in s.infix then Outcome(s.infix, [OperatorExists(name, s.infix[name])], None)
        else Outcome(s.infix[name := expr[1].value], [], None)
  }

  /** `infix(curr, expr)`. */
  method Infix(k: Kernel, curr: State, items: seq<SExpr>) returns (log: seq<Event>, raised: Option<Error>)
    modifies curr`infix
    ensures Outcome(curr.infix, log, raised) == InfixRun(k, old(curr.Current()), items)
  {
    if |items| != 2 {
      return [], Some(ValueError);
    }
    var ident, prec := items[0], items[1];
    if !prec.Int? {
      return [], Some(AssertionError);
    }
    var name := k.symbol(ident);
    if name.Failure? {
      return [], Some(name.error);
    }
    if name.value in curr.infix {
      return [OperatorExists(name.value, curr.infix[name.value])], None;
    }
    curr.infix := curr.infix[name.value := prec.value];
    return [], None;
  }

  /** The field after a command computing its new value as `r`: unchanged when it raised. */
  function Settle<T>(before: T, r: Fallible<T>): (T, Option<Error>)
  {
    match r
    case Success(v) => (v, None)
    case Failure(e) => (before, Some(e))
  }

  /** `variables(curr, expr)`: every element names a variable, appended in order. */
  function VariablesAfter(k: Kernel, s: Snapshot, expr: seq<SExpr>): (r: Fallible<seq<Name>>)
    ensures r.Success? <==> forall i :: 0 <= i < |expr| ==> k.symbol(expr[i]).Success?
    ensures r.Success? ==>
      && |r.value| == |s.variables| + |expr|
      && r.value[..|s.variables|] == s.variables
      && forall i :: 0 <= i < |expr| ==> k.symbol(expr[i]) == Success(r.value[|s.variables| + i])
  {
    var names :- MapList(k.symbol, expr);
    Success(s.variables + names)
  }

  method Variables(k: Kernel, curr: State, items: seq<SExpr>) returns (raised: Option<Error>)
    modifies curr`variables
    ensures (curr.variables, raised) == Settle(old(curr.variables), VariablesAfter(k, old(curr.Current()), items))
  {
    var names := MapList(k.symbol, items);
    if names.Failure? {
      return Some(names.error);
    }
    curr.variables := curr.variables + names.value;
    return None;
  }

  /**
   * `bound(curr, expr)`: every element read as a term, without macro
   * expansion, and appended in order.
   */
  function BoundAfter(k: Kernel, s: Snapshot, expr: seq<SExpr>): (r: Fallible<seq<Term>>)
    ensures r.Success? <==> forall i :: 0 <= i < |expr| ==> k.term(s, expr[i]).Success?
    ensures r.Success? ==>
      && |r.value| == |s.bound| + |expr|
      && r.value[..|s.bound|] == s.bound
      && forall i :: 0 <= i < |expr| ==> k.term(s, expr[i]) == Success(r.value[|s.bound| + i])
  {
    var ts :- MapList(e => k.term(s, e), expr);
    Success(s.bound + ts)
  }

  method Bound(k: Kernel, curr: State, items: seq<SExpr>) returns (raised: Option<Error>)
    modifies curr`bound
    ensures (curr.bound, raised) == Settle(old(curr.bound), BoundAfter(k, old(curr.Current()), items))
  {
    var s := curr.Current();
    var ts := MapList(e => k.term(s, e), items);
    if ts.Failure? {
      return Some(ts.error);
    }
    curr.bound := curr.bound + ts.value;
    return None;
  }

  /**
   * `define(curr, expr)`: exactly a pattern, read as a term, and a body,
   * read and macro-expanded; the definition goes after all earlier ones.
   */
  function DefineAfter(k: Kernel, s: Snapshot, expr: seq<SExpr>): (r: Fallible<seq<Definition>>)
    ensures |expr| != 2 ==> r == Failure(ValueError)
    ensures r.Success? <==> |expr| == 2 && k.term(s, expr[0]).Success? && Parsed(k, s, expr[1]).Success?
    ensures r.Success? ==>
      && |r.value| == |s.defs| + 1
      && r.value[..|s.defs|] == s.defs
      && k.term(s, expr[0]) == Success(r.value[|s.defs|].0)
      && Parsed(k, s, expr[1]) == Success(r.value[|s.defs|].1)
  {
    if |expr| != 2 then Failure(ValueError)
    else
      var pattern :- k.term(s, expr[0]);
      var body :- Parsed(k, s, expr[1]);
      Success(s.defs + [(pattern, body)])
  }

  method Define(k: Kernel, curr: State, items: seq<SExpr>) returns (raised: Option<Error>)
    modifies curr`defs
    ensures (curr.defs, raised) == Settle(old(curr.defs), DefineAfter(k, old(curr.Current()), items))
  {
    if |items| != 2 {
      return Some(ValueError);
    }
    var pattern := k.term(curr.Current(), items[0]);
    if pattern.Failure? {
      return Some(pattern.error);
    }
    var body := ParseTerm(k, curr, items[1]);
    if body.Failure? {
      return Some(body.error);
    }
    curr.defs := curr.defs + [(pattern.value, body.value)];
    return None;
  }

  /** A new definition never changes how a term an earlier definition matches is rewritten. */
  lemma DefineShadowed(k: Kernel, s: Snapshot, expr: seq<SExpr>, t: Term, i: nat)
    requires DefineAfter(k, s, expr).Success?
    requires i < |s.defs| && k.matcher(s.defs[i].0, t).Some?
    ensures Rewrite(k, DefineAfter(k, s, expr).value, t) == Rewrite(k, s.defs, t)
  {
    var defs := DefineAfter(k, s, expr).value;
    assert defs == s.defs + defs[|s.defs|..];
    LaterDefinitionsIgnored(k, s.defs, defs[|s.defs|..], t);
  }

  /** A term no earlier definition matches is rewritten by the new one when its pattern matches. */
  lemma DefineReached(k: Kernel, s: Snapshot, expr: seq<SExpr>, t: Term, sub: Subst)
    requires DefineAfter(k, s, expr).Success?
    requires forall j :: 0 <= j < |s.defs| ==> k.matcher(s.defs[j].0, t).None?
    requires k.matcher(k.term(s, expr[0]).value, t) == Some(sub)
    ensures Rewrite(k, DefineAfter(k, s, expr).value, t) == k.multisubst(sub, Parsed(k, s, expr[1]).value)
  {
    var defs := DefineAfter(k, s, expr).value;
    FirstMatchWins(k, defs, t, |s.defs|, sub);
  }
}
