# principia command layer in Dafny

This project models the command layer of principia, a small checker for a
logical framework. A source file is a list of forms. `postulate` adds
inference rules to a context. `theorem` (and `lemma`) reads hypotheses, a
conclusion and named proofs, and adds the theorem to the context once the
checking kernel accepts its proofs. `define` adds macro definitions that
every term read by `parseterm` is expanded with. `infix`, `variables` and `bound` record
notation and variables in the run state.

The model covers:

- `Datatypes`: terms (`Lit`, `Var`, `Symtree`, `Hole`), proof arguments,
  proofs, inference rules, the run state `State` as a class whose fields the
  commands update, and the printer `sexpr`.
- `Macro`: `macroexpand` and `parseterm`. The first definition whose pattern
  matches rewrites a node, and then the children of a resulting tree are
  expanded.
- `Forms`: the small parsers `containsonly`, `isseparator`, `genenv`,
  `argument`, `proof` and `proofs`.
- `Commands`: `postulate`, `preamble`, `theorem`, `infix`, `variables`,
  `bound` and `define`.
- `Prelude`: the list helpers the code relies on (`pop(0)`, `first`,
  `maplist`, `dict`).
- `SExp`: the s-expressions read from a source file.

The parser (`term`, `symbol`) and the kernel (`match`, `multisubst`, `infer`,
`check`) are not part of this model. They are the function-valued fields of
`Prover.Kernel`, so every property proved here holds whatever values they
return.

Each command that loops or mutates the state is a method proved equal to a
function of the state before it. The properties of that command are lemmas
about the function. A Python exception is a `Failure` or the `raised` part of
a command's `Outcome`. What the interpreter prints becomes an `Event`.

Two facts about the code shape the model:

- There is one compound node, `Symtree`, and `macroexpand` recurses into the
  children of every `Symtree` it produces (python/principia.py:33-34).
- `postulate` is not atomic: when leftover premises raise SyntaxError, the
  rules the same form added earlier stay (`Commands.PostulateLeftover`).

## Model

| member | source | states |
|---|---|---|
| `Datatypes.State.constructor` | python/prover/datatypes.py:67-73 | a fresh state has empty variables, infix table, context, bound list and definitions |
| `Datatypes.Join` | python/prover/datatypes.py:39 | definition of `sep.join(parts)`; its length is `Datatypes.JoinLength` |
| `Datatypes.Printed` | python/prover/datatypes.py:39 | definition of `map(sexpr, children)`; used by `Datatypes.SexprSymtreeLength` and `Datatypes.SexprBalanced` |
| `Datatypes.Sexpr` | python/prover/datatypes.py:38-39 | a tree prints as `(` … `)` |
| `Datatypes.SexprOfLeaves` | python/prover/datatypes.py:33-41 | `Lit n` and `Var n` print as `n`, `Hole` as `_`, the empty tree as `()` |
| `Datatypes.SexprNotInjective` | python/prover/datatypes.py:34-37 | two different terms, `Lit n` and `Var n`, print the same |
| `Datatypes.JoinLength` | python/prover/datatypes.py:39 | joining `k` parts with a separator adds `k - 1` separators to their lengths |
| `Datatypes.SexprSymtreeLength` | python/prover/datatypes.py:38-39 | the printed length of a tree is 2, plus the children's printed lengths, plus one space between neighbours |
| `Datatypes.SexprBalanced` | python/prover/datatypes.py:33-43 | when no name holds a parenthesis, every printed term has balanced parentheses |
| `Prelude.PopFront` | python/principia.py:41-44 | `pop(0)` succeeds exactly on a non-empty list, returns its head and rest, and otherwise raises IndexError |
| `Prelude.First` | python/principia.py:85 | `first` gives the head of a non-empty list and nothing otherwise |
| `Prelude.MapList` | python/principia.py:152-156 | `maplist` succeeds exactly when every element does, with each element's value in place; otherwise it raises the error of the first element that fails |
| `Prelude.DictOf` | python/principia.py:90 | `dict(pairs)` has exactly the keys of the pairs, and a key's value is that of its last pair |
| `Macro.Rewrite` | python/principia.py:27-31 | definition of the scan over the definitions; its properties are `Macro.FirstMatchWins` and `Macro.LaterDefinitionsIgnored` |
| `Macro.FirstMatch` | python/principia.py:27-31 | the definition found is the first one at or after the start whose pattern matches; none is found only when no pattern matches |
| `Macro.FirstMatchWins` | python/principia.py:27-31 | the node is rewritten with the body of the first matching definition |
| `Macro.FirstMatchAppend` | python/principia.py:27-31 | definitions after a match are never consulted |
| `Macro.LaterDefinitionsIgnored` | python/principia.py:27-31 | appending definitions does not change how a node an earlier definition matches is rewritten |
| `Macro.Expand` | python/principia.py:26-36 | expansion fails only by exhausting the recursion budget (RecursionError) |
| `Macro.ExpandAll` | python/principia.py:33-34 | the expanded children are as many as the children |
| `Macro.ExpandAllEach` | python/principia.py:33-34 | the children expand exactly when each child does, each child on its own |
| `Macro.NoMatchLeafUnchanged` | python/principia.py:26-36 | a leaf that no definition matches is returned unchanged |
| `Macro.ExpandTree` | python/principia.py:33-34 | a tree result keeps its number of children, and each child is expanded once |
| `Macro.ExpandRewritesOnce` | python/principia.py:26-36 | a rewritten node that is not a tree is not matched again |
| `Macro.ExpandFuelMonotone` | python/principia.py:26-36 | an expansion that succeeds gives the same result with any larger recursion budget |
| `Macro.ExpandAllFuelMonotone` | python/principia.py:33-34 | the same for the children of a tree |
| `Macro.MacroExpand` | python/principia.py:26-36 | the scan with `break`, then the recursion into the children, computes `Expand` |
| `Macro.ExpandChildren` | python/principia.py:33-34 | the loop over the children computes `ExpandAll` |
| `Macro.Parsed` | python/principia.py:23-24 | definition of `parseterm` on a state snapshot; computed by `Macro.ParseTerm` |
| `Macro.ParseTerm` | python/principia.py:23-24 | `parseterm` is the parser followed by macro expansion with the state's definitions |
| `Forms.ContainsOnly` | python/principia.py:16-17 | true exactly when every character of the string is the given one |
| `Forms.IsSeparator` | python/principia.py:19-21 | true exactly for a symbol drawn only with `─` or only with `-` |
| `Forms.AnyContainsOnly` | python/principia.py:21 | definition of `any(containsonly(ch, s) for ch in chars)`; its meaning for the separator characters is `Forms.SeparatorCharsAre` |
| `Forms.SeparatorCharsAre` | python/principia.py:19-21 | a string is drawn only with one of the separator characters exactly when it is drawn only with `─` or only with `-` |
| `Forms.MixedIsNotSeparator` | python/principia.py:19-21 | a symbol that mixes `-` and `─` is not a separator |
| `Forms.EnvOf` | python/principia.py:58-71 | definition of `genenv`; its properties are `Forms.EnvOfAccepts`, `Forms.EnvOfBindings` and `Forms.EnvOfOnlySyntaxErrors` |
| `Forms.EnvOfAccepts` | python/principia.py:58-71 | a substitution list is accepted exactly when it is whole triples, each a name, `:=` or `≔`, and a term |
| `Forms.EnvOfBindings` | python/principia.py:58-71 | an accepted list binds each triple's name to its term, in order |
| `Forms.EnvOfOnlySyntaxErrors` | python/principia.py:62-70 | when every name and term parses, the only error is a SyntaxError (a bad separator, or a name mapped to nothing) |
| `Forms.GenEnv` | python/principia.py:59-71 | the generator loop computes `EnvOf` |
| `Forms.ArgumentOf` | python/principia.py:73-81 | a symbol or number is a `Lemma` with its name; `(sorry tag)` is a `Sorry`; a pair with any other head is a SyntaxError |
| `Forms.ProofOf` | python/principia.py:83-90 | definition of `proof`; its properties are `Forms.ProofOfParts` |
| `Forms.ProofOfParts` | python/principia.py:83-90 | a proof is accepted exactly when its rule name, each argument and its substitution list are; it then holds those, the substitutions as a dictionary |
| `Forms.ParseProof` | python/principia.py:83-90 | `proof` computes `ProofOf` |
| `Forms.NamedPairs` | python/principia.py:92-97 | definition of the loop of `proofs`, for any reader of names and of values; its properties are the `Forms.NamedPairs…` lemmas |
| `Forms.ProofsOf` | python/principia.py:92-97 | definition of `proofs`: `Forms.NamedPairs` with the symbol reader and `Forms.ProofOf`, so the `Forms.NamedPairs…` lemmas hold of it |
| `Forms.NamedPairsOddRejected` | python/principia.py:92-97 | a list of named proofs of odd length is rejected |
| `Forms.NamedPairsBadPairRejected` | python/principia.py:92-97 | one pair that is not a name and a proof makes the whole list rejected |
| `Forms.NamedPairsAccepted` | python/principia.py:92-97 | an even-length list whose every pair is a name and a proof is accepted |
| `Forms.NamedPairsValues` | python/principia.py:92-97 | an accepted list yields each pair's name and proof, in order |
| `Forms.Proofs` | python/principia.py:92-97 | the pop-front loop computes `ProofsOf` |
| `Commands.PostulateFrom` | python/principia.py:38-56 | definition of `postulate` from a point in its loop; its properties are `Commands.PostulateKeeps`, `Commands.PostulateReports`, `Commands.PostulateGroup` and `Commands.PostulateLeftover` |
| `Commands.Postulate` | python/principia.py:38-56 | the loop leaves the context, the reports and the exception that `PostulateFrom` gives for the state before it |
| `Commands.PostulateKeeps` | python/principia.py:46-49 | `postulate` never replaces or removes a rule already in the context |
| `Commands.PostulateReports` | python/principia.py:46-50 | a name is added to the context exactly when its addition is reported |
| `Commands.PostulateGroup` | python/principia.py:40-53 | a group `premise … separator name conclusion` adds `name` with exactly the premises read since the previous group (unless `name` is taken), and the next group starts with no premises |
| `Commands.PostulateLeftover` | python/principia.py:52-56 | premises with no separator after them raise SyntaxError, and the context keeps the rules added before them |
| `Commands.PreambleFrom` | python/principia.py:99-113 | under the loop's balance `len(names) - len(premises) == expected`, the hypothesis names and premises returned have equal length |
| `Commands.PreambleNamedStep` | python/principia.py:104-107 | a separator and a name append the name and owe one more term |
| `Commands.PreambleOwedStep` | python/principia.py:108-110 | an element met while a term is owed appends that term and owes one less |
| `Commands.PreambleTokens` | python/principia.py:103-110 | reading any run of `separator name` pairs and owed terms, in any interleaving the counter accepts, appends every name and every term in order and leaves the count owed at its final value |
| `Commands.PreambleEnd` | python/principia.py:111-113 | with nothing owed, an element that is no separator starts the proofs, and the last name and term are the theorem's |
| `Commands.PreambleLayout` | python/principia.py:99-113 | for any preamble that ends owing nothing, the last name and last term are the theorem's name and conclusion, the earlier names and terms pair up by position as its hypotheses, and the proofs are read from the rest |
| `Commands.PreambleInterleaved` | python/principia.py:99-113 | `─ a ─ b A B ─ T C`, with both names before their terms, gives hypotheses `a : A` and `b : B` and theorem `T : C` |
| `Commands.Preamble` | python/principia.py:99-113 | the counter-driven loop computes `PreambleFrom` |
| `Commands.Assumptions` | python/principia.py:122-125 | definition of the hypotheses as rules with no premises, paired by `zip` |
| `Commands.LocalContext` | python/principia.py:121-125 | definition of the working copy: the context with the hypotheses added, a later hypothesis winning (`Prelude.DictOf`) |
| `Commands.Intermediate` | python/principia.py:131-132 | definition of the loop over the lemmas; its properties are `Commands.IntermediateSnoc` and `Commands.IntermediateKeys` |
| `Commands.Verified` | python/principia.py:130-133 | definition of the checked block: the lemmas are inferred, then the last proof is checked; `Commands.TheoremCommits` says a theorem is added only when it succeeds |
| `Commands.IntermediateSnoc` | python/principia.py:131-132 | each lemma is inferred in the working context that already holds every lemma before it |
| `Commands.IntermediateKeys` | python/principia.py:121-132 | the working context gains exactly the lemmas' names, each as a rule with no premises, and every other name keeps its rule |
| `Commands.InferLemmas` | python/principia.py:131-132 | the loop over the lemmas computes `Intermediate` |
| `Commands.TheoremRun` | python/principia.py:115-118 | definition of `theorem`: nothing for an empty form, otherwise `Commands.TheoremAfter` of the preamble |
| `Commands.TheoremAfter` | python/principia.py:119-138 | `theorem` never replaces a rule of the context, and when it raises the context is as it was |
| `Commands.TheoremCommits` | python/principia.py:127-138 | the context changes exactly when the name is fresh and every proof checks, and then only by adding the rule from the hypotheses to the conclusion |
| `Commands.Theorem` | python/principia.py:115-138 | the command leaves the context, the reports and the exception that `TheoremRun` gives |
| `Commands.InfixRun` | python/principia.py:140-150 | not exactly two items is a ValueError, a non-integer precedence an AssertionError; an operator already declared keeps its precedence, and only a new operator is added, with the given precedence |
| `Commands.Infix` | python/principia.py:140-150 | the command leaves the infix table, the reports and the exception that `InfixRun` gives |
| `Commands.VariablesAfter` | python/principia.py:152-153 | the list grows exactly when every item is a name; the old list is kept and the names follow in order |
| `Commands.Variables` | python/principia.py:152-153 | the command updates the variables as `VariablesAfter` says, or leaves them when it raises |
| `Commands.BoundAfter` | python/principia.py:155-156 | the list grows exactly when every item reads as a term (without macro expansion); the old list is kept and the terms follow in order |
| `Commands.Bound` | python/principia.py:155-156 | the command updates the bound terms as `BoundAfter` says, or leaves them when it raises |
| `Commands.DefineAfter` | python/principia.py:158-162 | not exactly two items is a ValueError; otherwise the definitions grow by one, after all earlier ones, when the pattern reads as a term and the body parses |
| `Commands.Define` | python/principia.py:158-162 | the command updates the definitions as `DefineAfter` says, or leaves them when it raises |
| `Commands.DefineShadowed` | python/principia.py:158-162 | a new definition never changes how a node an earlier definition matches is rewritten |
| `Commands.DefineReached` | python/principia.py:158-162 | a node no earlier definition matches is rewritten by the new definition when its pattern matches |

## Left out

- `doexprs`, `dofile`, `dopath`, `include` and the loop over the command-line arguments (python/principia.py:164-166, 186-206): file I/O and the external s-expression reader.
- `evaluate` and the `forms` table (python/principia.py:168-184): a lookup of the command by name. Each command is modelled on its own.
- The printed messages: each is reduced to an `Event`. `NotChecked` does not carry the kernel's error message.
- python/prover/checker.py, python/prover/parser.py, python/prover/errors.py and python/prover/prelude.py are not part of this model. Their functions are the fields of `Prover.Kernel`, and the prelude helpers are modelled by their evident meaning in `Prelude`.
- `Term.__str__ = sexpr` (python/prover/datatypes.py:44): `Sexpr` is a plain function.
- Macro.Expand: `match` and `multisubst` are modelled as never raising (the matcher returns an `Option`, the substitution a `Term`), so an exception of theirs during expansion (python/principia.py:29-30) is not modelled, and RecursionError is the only failure only under that assumption.
- Macro.Expand: the interpreter's RecursionError comes from Python's stack limit. The model approximates it with a budget of nested expansions, `Kernel.recursionLimit`, and does not count the other stack frames.
- `Prover.Kernel.term` receives a snapshot of the whole state. Which fields the parser reads is not modelled.
- The commands consume a copy of their argument list. The interpreter pops from the list it was given, which no caller reads afterwards.
- Forms.ProofOf: a bare symbol or a number where a proof is expected is a TypeError. Python would unpack the characters of a symbol, since a symbol is a string.
- Forms.ArgumentOf: a `[...]` group where an argument is expected is a TypeError. Unpacking it depends on the external reader's bracket type.
- Quoted strings and floating-point numbers from the reader are not among the modelled s-expressions, and neither are booleans (which Python's `isinstance(prec, int)` would accept as precedences).
