/** The recursive-descent parser of simple.c (`expect`, `parse_primary`,
    `parse_term`, `parse_expr`, `parse_statement`, `parse_program`).
    The C parser keeps one token of lookahead in `curTok`; here the token
    stream is a sequence and the lookahead is the token at index `pos`.
    Reading past the last token yields end-of-input, as `get_token` does
    once the file is exhausted. Every `exit(1)` is a Failure. */
module Parser {
  import opened Results
  import opened Lexer
  import opened Syntax

  datatype ParseError =
    | Expected(kind: Kind, got: Token)          // expect()
    | ExpectedIdentAfterInt(got: Token)
    | ExpectedLBraceAfterIf(got: Token)
    | IdentNotFollowedByAssign(got: Token)
    | UnexpectedInPrimary(got: Token)
    | UnexpectedToken(got: Token)

  /** A parsed value and the position of the first token after it. */
  datatype Parsed<+T> = Parsed(value: T, next: nat)

  function Peek(toks: seq<Token>, pos: nat): (t: Token)
    ensures pos >= |toks| ==> t == EofToken
  {
    if pos < |toks| then toks[pos] else EofToken
  }

  /** `expect`: the lookahead must be of kind `k`; it is consumed. */
  function Expect(toks: seq<Token>, pos: nat, k: Kind): (r: Result<nat, ParseError>)
    ensures r.Success? <==> Peek(toks, pos).kind == k
    ensures r.Success? ==> r.value == pos + 1
    ensures r.Failure? ==> r.error == Expected(k, Peek(toks, pos))
  {
    if Peek(toks, pos).kind == k then Success(pos + 1) else Failure(Expected(k, Peek(toks, pos)))
  }

  /** `parse_primary`: a literal, an identifier, or `(` followed by a
      STATEMENT and `)`. The last alternative is the source's: inside
      parentheses it calls the statement rule, so `(1)` is rejected and
      `(x = 1;)` yields an assignment node as an operand. */
  function ParsePrimary(toks: seq<Token>, pos: nat): (r: Result<Parsed<Ast>, ParseError>)
    requires pos <= |toks|
    ensures r.Success? ==> pos < r.value.next <= |toks|
    ensures (Peek(toks, pos).kind != Number && Peek(toks, pos).kind != Identifier && Peek(toks, pos).kind != LParen)
              ==> r == Failure(UnexpectedInPrimary(Peek(toks, pos)))
    ensures Peek(toks, pos).kind == Number ==> r == Success(Parsed(Num(Peek(toks, pos).number), pos + 1))
    ensures Peek(toks, pos).kind == Identifier ==> r == Success(Parsed(Ident(Peek(toks, pos).text), pos + 1))
    decreases |toks| - pos, 0
  {
    var t := Peek(toks, pos);
    if t.kind == Number then
      Success(Parsed(Num(t.number), pos + 1))
    else if t.kind == Identifier then
      Success(Parsed(Ident(t.text), pos + 1))
    else if t.kind == LParen then
      ParseParenthesised(toks, pos + 1)
    else
      Failure(UnexpectedInPrimary(t))
  }

  /** The part of `parse_primary` after `(`: a statement, then `)`. */
  function ParseParenthesised(toks: seq<Token>, pos: nat): (r: Result<Parsed<Ast>, ParseError>)
    requires pos <= |toks|
    ensures r.Success? ==> pos < r.value.next <= |toks|
    decreases |toks| - pos, 4
  {
    var s :- ParseStatement(toks, pos);
    var p :- Expect(toks, s.next, RParen);
    Success(Parsed(s.value.value, p))
  }

  predicate IsMulOp(k: Kind) { k == Mul || k == Div }
  predicate IsAddOp(k: Kind) { k == Plus || k == Minus }

  function MulOpChar(k: Kind): char
    requires IsMulOp(k)
  {
    if k == Mul then '*' else '/'
  }

  function AddOpChar(k: Kind): char
    requires IsAddOp(k)
  {
    if k == Plus then '+' else '-'
  }

  /** `parse_term`: factor { (`*` | `/`) factor }, folded to the left. */
  function ParseTerm(toks: seq<Token>, pos: nat): (r: Result<Parsed<Ast>, ParseError>)
    requires pos <= |toks|
    ensures r.Success? ==> pos < r.value.next <= |toks|
    ensures r.Success? ==> !IsMulOp(Peek(toks, r.value.next).kind)
    decreases |toks| - pos, 1
  {
    var f :- ParsePrimary(toks, pos);
    TermRest(toks, f.next, f.value)
  }

  /** The loop of `parse_term`, with `left` the operand built so far. */
  function TermRest(toks: seq<Token>, pos: nat, left: Ast): (r: Result<Parsed<Ast>, ParseError>)
    requires pos <= |toks|
    ensures r.Success? ==> pos <= r.value.next <= |toks|
    ensures r.Success? ==> !IsMulOp(Peek(toks, r.value.next).kind)
    ensures !IsMulOp(Peek(toks, pos).kind) ==> r == Success(Parsed(left, pos))
    decreases |toks| - pos, 1
  {
    var t := Peek(toks, pos);
    if IsMulOp(t.kind) then
      var f :- ParsePrimary(toks, pos + 1);
      TermRest(toks, f.next, BinOp(MulOpChar(t.kind), left, f.value))
    else
      Success(Parsed(left, pos))
  }

  /** `parse_expr`: term { (`+` | `-`) term }, folded to the left. */
  function ParseExpr(toks: seq<Token>, pos: nat): (r: Result<Parsed<Ast>, ParseError>)
    requires pos <= |toks|
    ensures r.Success? ==> pos < r.value.next <= |toks|
    ensures r.Success? ==> !IsAddOp(Peek(toks, r.value.next).kind) && !IsMulOp(Peek(toks, r.value.next).kind)
    decreases |toks| - pos, 2
  {
    var t :- ParseTerm(toks, pos);
    ExprRest(toks, t.next, t.value)
  }

  /** The loop of `parse_expr`, with `left` the operand built so far. */
  function ExprRest(toks: seq<Token>, pos: nat, left: Ast): (r: Result<Parsed<Ast>, ParseError>)
    requires pos <= |toks|
    requires !IsMulOp(Peek(toks, pos).kind)
    ensures r.Success? ==> pos <= r.value.next <= |toks|
    ensures r.Success? ==> !IsAddOp(Peek(toks, r.value.next).kind) && !IsMulOp(Peek(toks, r.value.next).kind)
    ensures !IsAddOp(Peek(toks, pos).kind) ==> r == Success(Parsed(left, pos))
    decreases |toks| - pos, 2
  {
    var t := Peek(toks, pos);
    if IsAddOp(t.kind) then
      var u :- ParseTerm(toks, pos + 1);
      ExprRest(toks, u.next, BinOp(AddOpChar(t.kind), left, u.value))
    else
      Success(Parsed(left, pos))
  }

  /** `parse_statement`: a declaration, an `if`, or an assignment. At end
      of input it returns no statement (the C code's NULL) and consumes
      nothing; that is the only way to get no statement, and every
      statement consumes at least one token. */
  function ParseStatement(toks: seq<Token>, pos: nat): (r: Result<Parsed<Option<Ast>>, ParseError>)
    requires pos <= |toks|
    ensures r.Success? ==> pos <= r.value.next <= |toks|
    ensures r.Success? ==> (r.value.value.None? <==> r.value.next == pos)
    ensures Peek(toks, pos).kind == Eof <==> r == Success(Parsed(None, pos))
    ensures (Peek(toks, pos).kind != Int && Peek(toks, pos).kind != Kind.If && Peek(toks, pos).kind != Identifier
              && Peek(toks, pos).kind != Eof) ==> r == Failure(UnexpectedToken(Peek(toks, pos)))
    decreases |toks| - pos, 3
  {
    var t := Peek(toks, pos);
    if t.kind == Int then
      ParseDecl(toks, pos)
    else if t.kind == Kind.If then
      ParseIf(toks, pos)
    else if t.kind == Identifier then
      ParseAssign(toks, pos)
    else if t.kind == Eof then
      Success(Parsed(None, pos))
    else
      Failure(UnexpectedToken(t))
  }

  /** The `int` branch of `parse_statement`, from the `int` token at
      `pos`: a name, then an optional `= e`, then `;`. */
  function ParseDecl(toks: seq<Token>, pos: nat): (r: Result<Parsed<Option<Ast>>, ParseError>)
    requires pos <= |toks|
    ensures r.Success? ==> pos < r.value.next <= |toks| && r.value.value.Some?
    decreases |toks| - pos, 2
  {
    var name := Peek(toks, pos + 1);
    if name.kind != Identifier then
      Failure(ExpectedIdentAfterInt(name))
    else if Peek(toks, pos + 2).kind == Kind.Assign then
      var e :- ParseExpr(toks, pos + 3);
      var p :- Expect(toks, e.next, Semi);
      Success(Parsed(Some(Decl(name.text, Some(e.value))), p))
    else
      var p :- Expect(toks, pos + 2, Semi);
      Success(Parsed(Some(Decl(name.text, None)), p))
  }

  /** The `if` branch of `parse_statement`, from the `if` token at `pos`:
      `(`, a condition, `)`, then the braced body. */
  function ParseIf(toks: seq<Token>, pos: nat): (r: Result<Parsed<Option<Ast>>, ParseError>)
    requires pos <= |toks|
    ensures r.Success? ==> pos < r.value.next <= |toks| && r.value.value.Some?
    decreases |toks| - pos, 2
  {
    var p1 :- Expect(toks, pos + 1, LParen);
    var c :- ParseExpr(toks, p1);
    var p2 :- Expect(toks, c.next, RParen);
    ParseIfBody(toks, p2, c.value)
  }

  /** The rest of the `if` branch, from the token after `)`: `{`, the
      body statements, `}`. */
  function ParseIfBody(toks: seq<Token>, pos: nat, cond: Ast): (r: Result<Parsed<Option<Ast>>, ParseError>)
    requires pos <= |toks|
    ensures r.Success? ==> pos < r.value.next <= |toks| && r.value.value.Some?
    decreases |toks| - pos, 2
  {
    if Peek(toks, pos).kind != LBrace then
      Failure(ExpectedLBraceAfterIf(Peek(toks, pos)))
    else
      var b :- ParseBlock(toks, pos + 1, []);
      var p3 :- Expect(toks, b.next, RBrace);
      Success(Parsed(Some(Ast.If(cond, b.value)), p3))
  }

  /** The identifier branch of `parse_statement`, from the name at `pos`:
      `=`, an expression, `;`. */
  function ParseAssign(toks: seq<Token>, pos: nat): (r: Result<Parsed<Option<Ast>>, ParseError>)
    requires pos <= |toks|
    ensures r.Success? ==> pos < r.value.next <= |toks| && r.value.value.Some?
    decreases |toks| - pos, 2
  {
    if Peek(toks, pos + 1).kind == Kind.Assign then
      var e :- ParseExpr(toks, pos + 2);
      var p :- Expect(toks, e.next, Semi);
      Success(Parsed(Some(Ast.Assign(Ident(Peek(toks, pos).text), e.value)), p))
    else
      Failure(IdentNotFollowedByAssign(Peek(toks, pos + 1)))
  }

  /** The statement loop of an `if` body: statements up to (not including)
      the first `}` or end of input, appended to `acc` in source order. */
  function ParseBlock(toks: seq<Token>, pos: nat, acc: seq<Ast>): (r: Result<Parsed<seq<Ast>>, ParseError>)
    requires pos <= |toks|
    ensures r.Success? ==> pos <= r.value.next <= |toks|
    ensures r.Success? ==> Peek(toks, r.value.next).kind == RBrace || Peek(toks, r.value.next).kind == Eof
    ensures r.Success? ==> |r.value.value| >= |acc| && r.value.value[..|acc|] == acc
    decreases |toks| - pos, 5
  {
    var t := Peek(toks, pos);
    if t.kind != RBrace && t.kind != Eof then
      var s :- ParseStatement(toks, pos);
      ParseBlock(toks, s.next, acc + [s.value.value])
    else
      Success(Parsed(acc, pos))
  }

  /** `parse_program`: statements until end of input. */
  function ParseStatements(toks: seq<Token>, pos: nat, acc: seq<Ast>): (r: Result<seq<Ast>, ParseError>)
    requires pos <= |toks|
    ensures r.Success? ==> |r.value| >= |acc| && r.value[..|acc|] == acc
    decreases |toks| - pos
  {
    if Peek(toks, pos).kind != Eof then
      var s :- ParseStatement(toks, pos);
      if s.value.None? then Success(acc)
      else ParseStatements(toks, s.next, acc + [s.value.value])
    else
      Success(acc)
  }

  /** `parse_program` from the first token. */
  function ParseProgram(toks: seq<Token>): (r: Result<seq<Ast>, ParseError>)
    ensures Peek(toks, 0).kind == Eof ==> r == Success([])
    ensures r.Success? && Peek(toks, 0).kind != Eof ==> |r.value| > 0
  {
    ParseStatements(toks, 0, [])
  }
}
