/** The values the s-expression reader hands to the command layer. */
module SExp {

  datatype SExpr =
    | Symbol(text: string)      // sexpdata.Symbol
    | Int(value: int)           // a Python int literal
    | List(items: seq<SExpr>)   // a parenthesised list
    | Bracket(items: seq<SExpr>) // a `[...]` group (sexpdata.Bracket)
}
