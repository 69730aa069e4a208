/** The abstract syntax tree of simple.c (`struct Ast` and the `make_*`
    constructors). The C struct is one record with a type tag; here each
    tag is a constructor carrying only the fields that tag uses. */
module Syntax {
  import opened Results

  datatype Ast =
    | Num(n: nat)                              // AST_NUM
    | Ident(name: string)                      // AST_IDENT
    | BinOp(op: char, left: Ast, right: Ast)   // AST_BINOP
    | Assign(target: Ast, rhs: Ast)            // AST_ASSIGN
    | Decl(name: string, init: Option<Ast>)    // AST_DECL, init NULL when absent
    | If(cond: Ast, body: seq<Ast>)            // AST_IF over an AST_BLOCK body
    | Block(stmts: seq<Ast>)                   // AST_BLOCK
}
