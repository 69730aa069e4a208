/** The parser stated as round trips. Expressions: a flat token sequence
    (operands separated by operators, no parentheses) parses to the tree
    in which `*` and `/` bind tighter than `+` and `-` and both levels
    group to the left. Statements: the tokens of declarations,
    assignments and `if` forms with such expressions parse back to their
    trees, in source order, through the `if` body loop and the program
    loop; and the error exits of the statement rule report the token
    found where the grammar expected another. */
module ParserProperties {
  import opened Results
  import opened Decimal
  import opened Lexer
  import opened Syntax
  import opened Parser

  /** The flat surface form of an operator-only expression: a term is an
      atom followed by `*`/`/` steps, an expression is a term followed by
      `+`/`-` steps. */
  datatype Atom = NumAtom(n: nat) | IdentAtom(name: string)
  datatype MulSteps = MulEnd | MulMore(op: char, operand: Atom, rest: MulSteps)
  datatype TermForm = TermForm(first: Atom, steps: MulSteps)
  datatype AddSteps = AddEnd | AddMore(op: char, operand: TermForm, rest: AddSteps)
  datatype ExprForm = ExprForm(first: TermForm, steps: AddSteps)

  predicate IsAddChar(c: char) { c == '+' || c == '-' }
  predicate IsMulChar(c: char) { c == '*' || c == '/' }

  predicate MulStepsOk(m: MulSteps) {
    match m
    case MulEnd => true
    case MulMore(op, _, rest) => IsMulChar(op) && MulStepsOk(rest)
  }

  predicate TermFormOk(t: TermForm) {
    MulStepsOk(t.steps)
  }

  predicate AddStepsOk(a: AddSteps) {
    match a
    case AddEnd => true
    case AddMore(op, t, rest) => IsAddChar(op) && TermFormOk(t) && AddStepsOk(rest)
  }

  predicate ExprFormOk(x: ExprForm) {
    TermFormOk(x.first) && AddStepsOk(x.steps)
  }

  /** The tokens the lexer makes of each piece. */
  function AtomToken(a: Atom): Token {
    match a
    case NumAtom(n) => Token(Number, NatToDecimal(n), n)
    case IdentAtom(x) => Token(Identifier, x, 0)
  }

  function OpToken(op: char): Token {
    match op
    case '+' => Token(Plus, "+", 0)
    case '-' => Token(Minus, "-", 0)
    case '*' => Token(Mul, "*", 0)
    case '/' => Token(Div, "/", 0)
    case _ => Token(Unknown, [op], 0)
  }

  function MulStepsTokens(m: MulSteps): seq<Token> {
    match m
    case MulEnd => []
    case MulMore(op, a, rest) => [OpToken(op), AtomToken(a)] + MulStepsTokens(rest)
  }

  function TermTokens(t: TermForm): seq<Token> {
    [AtomToken(t.first)] + MulStepsTokens(t.steps)
  }

  function AddStepsTokens(a: AddSteps): seq<Token> {
    match a
    case AddEnd => []
    case AddMore(op, t, rest) => [OpToken(op)] + TermTokens(t) + AddStepsTokens(rest)
  }

  function ExprTokens(x: ExprForm): seq<Token> {
    TermTokens(x.first) + AddStepsTokens(x.steps)
  }

  /** The intended trees: each level folds its operands to the left. */
  function AtomTree(a: Atom): Ast {
    match a
    case NumAtom(n) => Num(n)
    case IdentAtom(x) => Ident(x)
  }

  function FoldMul(acc: Ast, m: MulSteps): Ast
    decreases m
  {
    match m
    case MulEnd => acc
    case MulMore(op, a, rest) => FoldMul(BinOp(op, acc, AtomTree(a)), rest)
  }

  function TermTree(t: TermForm): Ast {
    FoldMul(AtomTree(t.first), t.steps)
  }

  function FoldAdd(acc: Ast, a: AddSteps): Ast
    decreases a
  {
    match a
    case AddEnd => acc
    case AddMore(op, t, rest) => FoldAdd(BinOp(op, acc, TermTree(t)), rest)
  }

  function ExprTree(x: ExprForm): Ast {
    FoldAdd(TermTree(x.first), x.steps)
  }

  /** `ts` occurs in `toks` starting at `pos`. */
  predicate At(toks: seq<Token>, pos: nat, ts: seq<Token>) {
    pos + |ts| <= |toks| && forall i :: 0 <= i < |ts| ==> toks[pos + i] == ts[i]
  }

  lemma AtSplit(toks: seq<Token>, pos: nat, a: seq<Token>, b: seq<Token>)
    requires At(toks, pos, a + b)
    ensures At(toks, pos, a) && At(toks, pos + |a|, b)
  {
    forall i | 0 <= i < |a|
      ensures toks[pos + i] == a[i]
    {
      assert toks[pos + i] == (a + b)[i];
    }
    forall i | 0 <= i < |b|
      ensures toks[pos + |a| + i] == b[i]
    {
      assert toks[pos + (|a| + i)] == (a + b)[|a| + i];
    }
  }

  lemma AtPeek(toks: seq<Token>, pos: nat, t: Token, rest: seq<Token>)
    requires At(toks, pos, [t] + rest)
    ensures Peek(toks, pos) == t
  {
    assert toks[pos + 0] == ([t] + rest)[0];
  }

  lemma OpTokenKind(op: char)
    ensures IsMulChar(op) || IsAddChar(op) ==> OpToken(op) == Token(PunctKind(op), [op], 0)
    ensures IsMulChar(op) ==> MulOpChar(OpToken(op).kind) == op
    ensures IsAddChar(op) ==> AddOpChar(OpToken(op).kind) == op
    ensures IsMulChar(op) <==> IsMulOp(OpToken(op).kind)
    ensures IsAddChar(op) <==> IsAddOp(OpToken(op).kind)
  {
  }

  /** One turn of the `parse_term` loop: an operator token and an atom
      token extend the left operand. */
  lemma TermRestStep(toks: seq<Token>, pos: nat, acc: Ast, op: char, a: Atom)
    requires IsMulChar(op)
    requires pos + 2 <= |toks| && toks[pos] == OpToken(op) && toks[pos + 1] == AtomToken(a)
    ensures TermRest(toks, pos, acc) == TermRest(toks, pos + 2, BinOp(op, acc, AtomTree(a)))
  {
    OpTokenKind(op);
    assert ParsePrimary(toks, pos + 1) == Success(Parsed(AtomTree(a), pos + 2));
  }

  /** One turn of the `parse_expr` loop. */
  lemma ExprRestStep(toks: seq<Token>, pos: nat, acc: Ast, op: char, tree: Ast, q: nat)
    requires IsAddChar(op)
    requires pos < |toks| && toks[pos] == OpToken(op)
    requires ParseTerm(toks, pos + 1) == Success(Parsed(tree, q))
    ensures q <= |toks| && !IsMulOp(Peek(toks, q).kind)
    ensures ExprRest(toks, pos, acc) == ExprRest(toks, q, BinOp(op, acc, tree))
  {
    OpTokenKind(op);
  }

  /** Where the pieces of a `*`/`/` step lie. */
  lemma MulMoreSplit(toks: seq<Token>, pos: nat, op: char, a: Atom, rest: MulSteps)
    requires At(toks, pos, MulStepsTokens(MulMore(op, a, rest)))
    ensures pos + 2 <= |toks| && toks[pos] == OpToken(op) && toks[pos + 1] == AtomToken(a)
    ensures At(toks, pos + 2, MulStepsTokens(rest))
    ensures |MulStepsTokens(MulMore(op, a, rest))| == 2 + |MulStepsTokens(rest)|
  {
    var ts := MulStepsTokens(rest);
    assert MulStepsTokens(MulMore(op, a, rest)) == [OpToken(op), AtomToken(a)] + ts;
    AtSplit(toks, pos, [OpToken(op), AtomToken(a)], ts);
    assert toks[pos + 0] == [OpToken(op), AtomToken(a)][0];
    assert toks[pos + 1] == [OpToken(op), AtomToken(a)][1];
  }

  lemma {:induction false} TermRestRoundTrip(toks: seq<Token>, pos: nat, acc: Ast, m: MulSteps)
    requires MulStepsOk(m)
    requires At(toks, pos, MulStepsTokens(m))
    requires !IsMulOp(Peek(toks, pos + |MulStepsTokens(m)|).kind)
    ensures TermRest(toks, pos, acc) == Success(Parsed(FoldMul(acc, m), pos + |MulStepsTokens(m)|))
    decreases m
  {
    match m
    case MulEnd =>
    case MulMore(op, a, rest) =>
      MulMoreSplit(toks, pos, op, a, rest);
      TermRestStep(toks, pos, acc, op, a);
      TermRestRoundTrip(toks, pos + 2, BinOp(op, acc, AtomTree(a)), rest);
  }

  /** A term's tokens, followed by anything but `*` or `/`, parse to the
      left-folded product. */
  lemma TermRoundTrip(toks: seq<Token>, pos: nat, t: TermForm)
    requires TermFormOk(t)
    requires At(toks, pos, TermTokens(t))
    requires !IsMulOp(Peek(toks, pos + |TermTokens(t)|).kind)
    ensures ParseTerm(toks, pos) == Success(Parsed(TermTree(t), pos + |TermTokens(t)|))
  {
    AtSplit(toks, pos, [AtomToken(t.first)], MulStepsTokens(t.steps));
    AtPeek(toks, pos, AtomToken(t.first), MulStepsTokens(t.steps));
    assert ParsePrimary(toks, pos) == Success(Parsed(AtomTree(t.first), pos + 1));
    TermRestRoundTrip(toks, pos + 1, AtomTree(t.first), t.steps);
  }

  /** Where the pieces of a `+`/`-` step lie. */
  lemma AddMoreSplit(toks: seq<Token>, pos: nat, op: char, t: TermForm, rest: AddSteps)
    requires At(toks, pos, AddStepsTokens(AddMore(op, t, rest)))
    ensures pos < |toks| && toks[pos] == OpToken(op)
    ensures At(toks, pos + 1, TermTokens(t))
    ensures At(toks, pos + 1 + |TermTokens(t)|, AddStepsTokens(rest))
    ensures |AddStepsTokens(AddMore(op, t, rest))| == 1 + |TermTokens(t)| + |AddStepsTokens(rest)|
  {
    var tt := TermTokens(t);
    var ts := AddStepsTokens(rest);
    assert AddStepsTokens(AddMore(op, t, rest)) == [OpToken(op)] + (tt + ts);
    AtSplit(toks, pos, [OpToken(op)], tt + ts);
    AtPeek(toks, pos, OpToken(op), tt + ts);
    AtSplit(toks, pos + 1, tt, ts);
  }

  /** A run of additive steps starts with an additive operator, so it
      never starts with `*` or `/`. */
  lemma AddStepsNotMul(toks: seq<Token>, pos: nat, a: AddSteps)
    requires AddStepsOk(a)
    requires At(toks, pos, AddStepsTokens(a))
    requires !IsMulOp(Peek(toks, pos + |AddStepsTokens(a)|).kind)
    ensures !IsMulOp(Peek(toks, pos).kind)
  {
    match a
    case AddEnd =>
    case AddMore(op, t, rest) =>
      AddMoreSplit(toks, pos, op, t, rest);
      OpTokenKind(op);
  }

  lemma {:induction false} ExprRestRoundTrip(toks: seq<Token>, pos: nat, acc: Ast, a: AddSteps)
    requires AddStepsOk(a)
    requires At(toks, pos, AddStepsTokens(a))
    requires !IsAddOp(Peek(toks, pos + |AddStepsTokens(a)|).kind)
    requires !IsMulOp(Peek(toks, pos + |AddStepsTokens(a)|).kind)
    ensures pos <= |toks| && !IsMulOp(Peek(toks, pos).kind)
    ensures ExprRest(toks, pos, acc) == Success(Parsed(FoldAdd(acc, a), pos + |AddStepsTokens(a)|))
    decreases a
  {
    AddStepsNotMul(toks, pos, a);
    match a
    case AddEnd =>
    case AddMore(op, t, rest) =>
      AddMoreSplit(toks, pos, op, t, rest);
      var q := pos + 1 + |TermTokens(t)|;
      AddStepsNotMul(toks, q, rest);
      TermRoundTrip(toks, pos + 1, t);
      ExprRestStep(toks, pos, acc, op, TermTree(t), q);
      ExprRestRoundTrip(toks, q, BinOp(op, acc, TermTree(t)), rest);
  }

  /** `parse_expr` is a term followed by the additive loop. */
  lemma ParseExprUnfold(toks: seq<Token>, pos: nat, t: Ast, q: nat)
    requires pos <= |toks|
    requires ParseTerm(toks, pos) == Success(Parsed(t, q))
    ensures q <= |toks| && !IsMulOp(Peek(toks, q).kind)
    ensures ParseExpr(toks, pos) == ExprRest(toks, q, t)
  {
  }

  /** Precedence and associativity: the tokens of a flat expression,
      followed by anything but an operator, parse to the tree where `*`
      and `/` group before `+` and `-` and each level folds to the left. */
  lemma ExprRoundTrip(toks: seq<Token>, pos: nat, x: ExprForm)
    requires ExprFormOk(x)
    requires At(toks, pos, ExprTokens(x))
    requires !IsAddOp(Peek(toks, pos + |ExprTokens(x)|).kind)
    requires !IsMulOp(Peek(toks, pos + |ExprTokens(x)|).kind)
    ensures ParseExpr(toks, pos) == Success(Parsed(ExprTree(x), pos + |ExprTokens(x)|))
  {
    var q := pos + |TermTokens(x.first)|;
    ExprSplit(toks, pos, x);
    TermRoundTrip(toks, pos, x.first);
    ParseExprUnfold(toks, pos, TermTree(x.first), q);
    ExprRestRoundTrip(toks, q, TermTree(x.first), x.steps);
  }

  /** Where the first term and the additive steps of an expression lie,
      and what follows them. */
  lemma ExprSplit(toks: seq<Token>, pos: nat, x: ExprForm)
    requires ExprFormOk(x)
    requires At(toks, pos, ExprTokens(x))
    requires !IsAddOp(Peek(toks, pos + |ExprTokens(x)|).kind)
    requires !IsMulOp(Peek(toks, pos + |ExprTokens(x)|).kind)
    ensures TermFormOk(x.first) && AddStepsOk(x.steps)
    ensures ExprTree(x) == FoldAdd(TermTree(x.first), x.steps)
    ensures At(toks, pos, TermTokens(x.first))
    ensures At(toks, pos + |TermTokens(x.first)|, AddStepsTokens(x.steps))
    ensures pos + |TermTokens(x.first)| + |AddStepsTokens(x.steps)| == pos + |ExprTokens(x)|
    ensures !IsAddOp(Peek(toks, pos + |TermTokens(x.first)| + |AddStepsTokens(x.steps)|).kind)
    ensures !IsMulOp(Peek(toks, pos + |TermTokens(x.first)| + |AddStepsTokens(x.steps)|).kind)
    ensures !IsMulOp(Peek(toks, pos + |TermTokens(x.first)|).kind)
  {
    var tt := TermTokens(x.first);
    var q := pos + |tt|;
    AtSplit(toks, pos, tt, AddStepsTokens(x.steps));
    assert q + |AddStepsTokens(x.steps)| == pos + |ExprTokens(x)|;
    AddStepsNotMul(toks, q, x.steps);
  }

  function IdentTok(x: string): Token { Token(Identifier, x, 0) }

  /** `a-b-c` groups as `(a-b)-c` and `a+b*c` as `a+(b*c)`. */
  lemma PrecedenceExamples()
    ensures ParseExpr([IdentTok("a"), OpToken('-'), IdentTok("b"), OpToken('-'), IdentTok("c"), EofToken], 0)
            == Success(Parsed(BinOp('-', BinOp('-', Ident("a"), Ident("b")), Ident("c")), 5))
    ensures ParseExpr([IdentTok("a"), OpToken('+'), IdentTok("b"), OpToken('*'), IdentTok("c"), EofToken], 0)
            == Success(Parsed(BinOp('+', Ident("a"), BinOp('*', Ident("b"), Ident("c"))), 5))
  {
    var a, b, c := IdentAtom("a"), IdentAtom("b"), IdentAtom("c");
    var x1 := ExprForm(TermForm(a, MulEnd), AddMore('-', TermForm(b, MulEnd), AddMore('-', TermForm(c, MulEnd), AddEnd)));
    var toks1 := [IdentTok("a"), OpToken('-'), IdentTok("b"), OpToken('-'), IdentTok("c"), EofToken];
    assert ExprTokens(x1) == toks1[..5];
    ExprRoundTrip(toks1, 0, x1);
    var x2 := ExprForm(TermForm(a, MulEnd), AddMore('+', TermForm(b, MulMore('*', c, MulEnd)), AddEnd));
    var toks2 := [IdentTok("a"), OpToken('+'), IdentTok("b"), OpToken('*'), IdentTok("c"), EofToken];
    assert ExprTokens(x2) == toks2[..5];
    ExprRoundTrip(toks2, 0, x2);
  }

  /** The surface form of a statement: `int x;`, `int x = e;`, `x = e;`
      or `if (e) { ... }`, with flat expressions. */
  datatype StmtForm =
    | DeclForm(name: string, init: Option<ExprForm>)
    | AssignForm(target: string, rhs: ExprForm)
    | IfForm(cond: ExprForm, body: seq<StmtForm>)

  predicate StmtFormOk(s: StmtForm)
    decreases s, 1
  {
    match s
    case DeclForm(_, init) => init.None? || ExprFormOk(init.value)
    case AssignForm(_, e) => ExprFormOk(e)
    case IfForm(cond, body) => ExprFormOk(cond) && StmtFormsOk(body)
  }

  predicate StmtFormsOk(ss: seq<StmtForm>)
    decreases ss, 0
  {
    |ss| == 0 || (StmtFormOk(ss[0]) && StmtFormsOk(ss[1..]))
  }

  const IntTok := Token(Int, "int", 0)
  const IfTok := Token(Kind.If, "if", 0)
  const AssignTok := Token(Kind.Assign, "=", 0)
  const SemiTok := Token(Semi, ";", 0)
  const LParenTok := Token(LParen, "(", 0)
  const RParenTok := Token(RParen, ")", 0)
  const LBraceTok := Token(LBrace, "{", 0)
  const RBraceTok := Token(RBrace, "}", 0)

  function StmtTokens(s: StmtForm): seq<Token>
    decreases s, 1
  {
    match s
    case DeclForm(x, init) =>
      if init.None? then [IntTok, IdentTok(x), SemiTok]
      else [IntTok, IdentTok(x), AssignTok] + ExprTokens(init.value) + [SemiTok]
    case AssignForm(x, e) => [IdentTok(x), AssignTok] + ExprTokens(e) + [SemiTok]
    case IfForm(cond, body) =>
      [IfTok, LParenTok] + ExprTokens(cond) + [RParenTok, LBraceTok] + StmtsTokens(body) + [RBraceTok]
  }

  function StmtsTokens(ss: seq<StmtForm>): seq<Token>
    decreases ss, 0
  {
    if |ss| == 0 then [] else StmtTokens(ss[0]) + StmtsTokens(ss[1..])
  }

  /** The intended trees: the AST node `parse_statement` builds for each
      form, with the body of an `if` in source order. */
  function StmtTree(s: StmtForm): Ast
    decreases s, 1
  {
    match s
    case DeclForm(x, init) => Decl(x, if init.None? then None else Some(ExprTree(init.value)))
    case AssignForm(x, e) => Ast.Assign(Ident(x), ExprTree(e))
    case IfForm(cond, body) => Ast.If(ExprTree(cond), StmtTrees(body))
  }

  function StmtTrees(ss: seq<StmtForm>): seq<Ast>
    decreases ss, 0
  {
    if |ss| == 0 then [] else [StmtTree(ss[0])] + StmtTrees(ss[1..])
  }

  /** Three tokens at `pos`. */
  lemma AtThree(toks: seq<Token>, pos: nat, a: Token, b: Token, c: Token, rest: seq<Token>)
    requires At(toks, pos, [a, b, c] + rest)
    ensures pos + 3 <= |toks| && toks[pos] == a && toks[pos + 1] == b && toks[pos + 2] == c
    ensures At(toks, pos + 3, rest)
  {
    AtSplit(toks, pos, [a, b, c], rest);
    assert toks[pos + 0] == [a, b, c][0] && toks[pos + 1] == [a, b, c][1] && toks[pos + 2] == [a, b, c][2];
  }

  /** An expression followed by one more token. */
  lemma AtExprThen(toks: seq<Token>, pos: nat, x: ExprForm, t: Token, rest: seq<Token>)
    requires At(toks, pos, ExprTokens(x) + [t] + rest)
    ensures At(toks, pos, ExprTokens(x))
    ensures pos + |ExprTokens(x)| < |toks| && toks[pos + |ExprTokens(x)|] == t
    ensures Peek(toks, pos + |ExprTokens(x)|) == t
    ensures At(toks, pos + |ExprTokens(x)| + 1, rest)
  {
    assert ExprTokens(x) + [t] + rest == ExprTokens(x) + ([t] + rest);
    AtSplit(toks, pos, ExprTokens(x), [t] + rest);
    AtSplit(toks, pos + |ExprTokens(x)|, [t], rest);
    AtPeek(toks, pos + |ExprTokens(x)|, t, rest);
  }

  /** An expression ended by `;` or `)` parses to its tree. */
  lemma ExprBeforeDelimiter(toks: seq<Token>, pos: nat, x: ExprForm, t: Token, rest: seq<Token>)
    requires ExprFormOk(x)
    requires t.kind == Semi || t.kind == RParen
    requires At(toks, pos, ExprTokens(x) + [t] + rest)
    ensures pos + |ExprTokens(x)| < |toks| && Peek(toks, pos + |ExprTokens(x)|) == t
    ensures At(toks, pos + |ExprTokens(x)| + 1, rest)
    ensures ParseExpr(toks, pos) == Success(Parsed(ExprTree(x), pos + |ExprTokens(x)|))
  {
    AtExprThen(toks, pos, x, t, rest);
    ExprRoundTrip(toks, pos, x);
  }

  /** `int x` followed by one more token. */
  lemma AtDeclHead(toks: seq<Token>, pos: nat, x: string, t: Token, rest: seq<Token>)
    requires At(toks, pos, [IntTok, IdentTok(x), t] + rest)
    ensures pos + 3 <= |toks| && Peek(toks, pos).kind == Int
    ensures Peek(toks, pos + 1).kind == Identifier && Peek(toks, pos + 1).text == x
    ensures Peek(toks, pos + 2).kind == t.kind
    ensures At(toks, pos + 3, rest)
  {
    AtThree(toks, pos, IntTok, IdentTok(x), t, rest);
  }

  /** `int x;` */
  lemma DeclPlainRoundTrip(toks: seq<Token>, pos: nat, x: string)
    requires At(toks, pos, [IntTok, IdentTok(x), SemiTok] + [])
    ensures ParseStatement(toks, pos) == Success(Parsed(Some(Decl(x, None)), pos + 3))
  {
    AtDeclHead(toks, pos, x, SemiTok, []);
    DeclPlainParse(toks, pos, x);
  }

  lemma DeclPlainParse(toks: seq<Token>, pos: nat, x: string)
    requires pos + 3 <= |toks| && Peek(toks, pos).kind == Int
    requires Peek(toks, pos + 1).kind == Identifier && Peek(toks, pos + 1).text == x
    requires Peek(toks, pos + 2).kind == Semi
    ensures ParseStatement(toks, pos) == Success(Parsed(Some(Decl(x, None)), pos + 3))
  {
    assert ParseDecl(toks, pos) == Success(Parsed(Some(Decl(x, None)), pos + 3));
  }

  /** `int x = e;` */
  lemma DeclInitRoundTrip(toks: seq<Token>, pos: nat, x: string, e: ExprForm)
    requires ExprFormOk(e)
    requires At(toks, pos, [IntTok, IdentTok(x), AssignTok] + (ExprTokens(e) + [SemiTok] + []))
    ensures ParseStatement(toks, pos)
            == Success(Parsed(Some(Decl(x, Some(ExprTree(e)))), pos + 4 + |ExprTokens(e)|))
  {
    DeclHeadExpr(toks, pos, x, e);
    DeclInitParse(toks, pos, x, ExprTree(e), pos + 3 + |ExprTokens(e)|);
  }

  /** `int x =`, then an expression read up to its `;`. */
  lemma DeclHeadExpr(toks: seq<Token>, pos: nat, x: string, e: ExprForm)
    requires ExprFormOk(e)
    requires At(toks, pos, [IntTok, IdentTok(x), AssignTok] + (ExprTokens(e) + [SemiTok] + []))
    ensures pos + 3 <= |toks| && Peek(toks, pos).kind == Int
    ensures Peek(toks, pos + 1).kind == Identifier && Peek(toks, pos + 1).text == x
    ensures Peek(toks, pos + 2).kind == Kind.Assign
    ensures ParseExpr(toks, pos + 3) == Success(Parsed(ExprTree(e), pos + 3 + |ExprTokens(e)|))
    ensures Peek(toks, pos + 3 + |ExprTokens(e)|).kind == Semi
  {
    AtDeclHead(toks, pos, x, AssignTok, ExprTokens(e) + [SemiTok] + []);
    ExprBeforeDelimiter(toks, pos + 3, e, SemiTok, []);
  }

  lemma DeclInitParse(toks: seq<Token>, pos: nat, x: string, e: Ast, q: nat)
    requires pos + 3 <= |toks| && Peek(toks, pos).kind == Int
    requires Peek(toks, pos + 1).kind == Identifier && Peek(toks, pos + 1).text == x
    requires Peek(toks, pos + 2).kind == Kind.Assign
    requires ParseExpr(toks, pos + 3) == Success(Parsed(e, q))
    requires Peek(toks, q).kind == Semi
    ensures ParseStatement(toks, pos) == Success(Parsed(Some(Decl(x, Some(e))), q + 1))
  {
    assert ParseDecl(toks, pos) == Success(Parsed(Some(Decl(x, Some(e))), q + 1));
  }

  /** `x = e;` */
  lemma AssignRoundTrip(toks: seq<Token>, pos: nat, x: string, e: ExprForm)
    requires ExprFormOk(e)
    requires At(toks, pos, [IdentTok(x), AssignTok] + (ExprTokens(e) + [SemiTok] + []))
    ensures ParseStatement(toks, pos)
            == Success(Parsed(Some(Ast.Assign(Ident(x), ExprTree(e))), pos + 3 + |ExprTokens(e)|))
  {
    AssignHeadExpr(toks, pos, x, e);
    AssignParse(toks, pos, x, ExprTree(e), pos + 2 + |ExprTokens(e)|);
  }

  /** `x =`, then an expression read up to its `;`. */
  lemma AssignHeadExpr(toks: seq<Token>, pos: nat, x: string, e: ExprForm)
    requires ExprFormOk(e)
    requires At(toks, pos, [IdentTok(x), AssignTok] + (ExprTokens(e) + [SemiTok] + []))
    ensures pos + 2 <= |toks| && Peek(toks, pos).kind == Identifier && Peek(toks, pos).text == x
    ensures Peek(toks, pos + 1).kind == Kind.Assign
    ensures ParseExpr(toks, pos + 2) == Success(Parsed(ExprTree(e), pos + 2 + |ExprTokens(e)|))
    ensures Peek(toks, pos + 2 + |ExprTokens(e)|).kind == Semi
  {
    AtAssignHead(toks, pos, x, ExprTokens(e) + [SemiTok] + []);
    ExprBeforeDelimiter(toks, pos + 2, e, SemiTok, []);
  }

  /** `x =` followed by the rest. */
  lemma AtAssignHead(toks: seq<Token>, pos: nat, x: string, rest: seq<Token>)
    requires At(toks, pos, [IdentTok(x), AssignTok] + rest)
    ensures pos + 2 <= |toks| && Peek(toks, pos).kind == Identifier && Peek(toks, pos).text == x
    ensures Peek(toks, pos + 1).kind == Kind.Assign
    ensures At(toks, pos + 2, rest)
  {
    AtSplit(toks, pos, [IdentTok(x), AssignTok], rest);
    assert toks[pos + 0] == [IdentTok(x), AssignTok][0] && toks[pos + 1] == [IdentTok(x), AssignTok][1];
  }

  lemma AssignParse(toks: seq<Token>, pos: nat, x: string, e: Ast, q: nat)
    requires pos + 2 <= |toks| && Peek(toks, pos).kind == Identifier && Peek(toks, pos).text == x
    requires Peek(toks, pos + 1).kind == Kind.Assign
    requires ParseExpr(toks, pos + 2) == Success(Parsed(e, q))
    requires Peek(toks, q).kind == Semi
    ensures ParseStatement(toks, pos) == Success(Parsed(Some(Ast.Assign(Ident(x), e)), q + 1))
  {
    assert ParseAssign(toks, pos) == Success(Parsed(Some(Ast.Assign(Ident(x), e)), q + 1));
  }

  lemma AtIfParts(toks: seq<Token>, pos: nat, e: seq<Token>, b: seq<Token>)
    requires At(toks, pos, [IfTok, LParenTok] + e + [RParenTok, LBraceTok] + b + [RBraceTok])
    ensures var p := pos + 2 + |e|;
      && pos + 2 <= |toks| && Peek(toks, pos).kind == Kind.If && Peek(toks, pos + 1).kind == LParen
      && At(toks, pos + 2, e)
      && p + 2 <= |toks| && Peek(toks, p).kind == RParen && Peek(toks, p + 1).kind == LBrace
      && At(toks, p + 2, b)
      && Peek(toks, p + 2 + |b|).kind == RBrace
  {
    var ts := [IfTok, LParenTok] + e + [RParenTok, LBraceTok] + b + [RBraceTok];
    var p := pos + 2 + |e|;
    assert toks[pos + 0] == ts[0] && toks[pos + 1] == ts[1];
    forall i | 0 <= i < |e|
      ensures toks[pos + 2 + i] == e[i]
    {
      assert toks[pos + (2 + i)] == ts[2 + i];
    }
    assert toks[pos + (2 + |e|)] == ts[2 + |e|] && toks[pos + (3 + |e|)] == ts[3 + |e|];
    forall i | 0 <= i < |b|
      ensures toks[p + 2 + i] == b[i]
    {
      assert toks[pos + (4 + |e| + i)] == ts[4 + |e| + i];
    }
    assert toks[pos + (4 + |e| + |b|)] == ts[4 + |e| + |b|];
  }

  /** Where the pieces of `if (c) { body }` lie: the condition from
      pos + 2 to p, then `)` and `{`, the body from p + 2, then `}`. */
  lemma IfSplit(toks: seq<Token>, pos: nat, s: StmtForm)
    requires s.IfForm?
    requires At(toks, pos, StmtTokens(s))
    ensures var p := pos + 2 + |ExprTokens(s.cond)|;
      && pos + 2 <= |toks| && Peek(toks, pos).kind == Kind.If && Peek(toks, pos + 1).kind == LParen
      && At(toks, pos + 2, ExprTokens(s.cond))
      && p + 2 <= |toks| && Peek(toks, p).kind == RParen && Peek(toks, p + 1).kind == LBrace
      && At(toks, p + 2, StmtsTokens(s.body))
      && Peek(toks, p + 2 + |StmtsTokens(s.body)|).kind == RBrace
  {
    AtIfParts(toks, pos, ExprTokens(s.cond), StmtsTokens(s.body));
  }

  /** `if (c) { body }`, given how the condition and the body parse. */
  lemma IfRoundTrip(toks: seq<Token>, pos: nat, cond: Ast, p: nat, body: seq<Ast>, r: nat)
    requires pos + 2 <= |toks| && Peek(toks, pos + 1).kind == LParen
    requires ParseExpr(toks, pos + 2) == Success(Parsed(cond, p))
    requires Peek(toks, p).kind == RParen && Peek(toks, p + 1).kind == LBrace
    requires ParseBlock(toks, p + 2, []) == Success(Parsed(body, r))
    requires Peek(toks, r).kind == RBrace
    ensures ParseIf(toks, pos) == Success(Parsed(Some(Ast.If(cond, body)), r + 1))
  {
    IfHeadRoundTrip(toks, pos, cond, p);
    IfBodyRoundTrip(toks, p + 1, cond, body, r);
  }

  lemma IfHeadRoundTrip(toks: seq<Token>, pos: nat, cond: Ast, p: nat)
    requires pos + 2 <= |toks| && Peek(toks, pos + 1).kind == LParen
    requires ParseExpr(toks, pos + 2) == Success(Parsed(cond, p))
    requires Peek(toks, p).kind == RParen
    ensures ParseIf(toks, pos) == ParseIfBody(toks, p + 1, cond)
  {
  }

  lemma IfBodyRoundTrip(toks: seq<Token>, pos: nat, cond: Ast, body: seq<Ast>, r: nat)
    requires pos + 1 <= |toks| && Peek(toks, pos).kind == LBrace
    requires ParseBlock(toks, pos + 1, []) == Success(Parsed(body, r))
    requires Peek(toks, r).kind == RBrace
    ensures ParseIfBody(toks, pos, cond) == Success(Parsed(Some(Ast.If(cond, body)), r + 1))
  {
  }

  /** The statement rule hands over to the branch its first token picks. */
  lemma StatementDispatch(toks: seq<Token>, pos: nat)
    requires pos <= |toks|
    ensures Peek(toks, pos).kind == Int ==> ParseStatement(toks, pos) == ParseDecl(toks, pos)
    ensures Peek(toks, pos).kind == Kind.If ==> ParseStatement(toks, pos) == ParseIf(toks, pos)
    ensures Peek(toks, pos).kind == Identifier ==> ParseStatement(toks, pos) == ParseAssign(toks, pos)
  {
  }

  /** One turn of the `if` body loop. */
  lemma BlockStep(toks: seq<Token>, pos: nat, acc: seq<Ast>, s: StmtForm)
    requires pos <= |toks|
    requires Peek(toks, pos).kind != RBrace && Peek(toks, pos).kind != Eof
    requires ParseStatement(toks, pos) == Success(Parsed(Some(StmtTree(s)), pos + |StmtTokens(s)|))
    ensures pos + |StmtTokens(s)| <= |toks|
    ensures ParseBlock(toks, pos, acc) == ParseBlock(toks, pos + |StmtTokens(s)|, acc + [StmtTree(s)])
  {
  }

  /** One turn of the `parse_program` loop. */
  lemma StatementsStep(toks: seq<Token>, pos: nat, acc: seq<Ast>, s: StmtForm)
    requires pos <= |toks|
    requires Peek(toks, pos).kind != Eof
    requires ParseStatement(toks, pos) == Success(Parsed(Some(StmtTree(s)), pos + |StmtTokens(s)|))
    ensures pos + |StmtTokens(s)| <= |toks|
    ensures ParseStatements(toks, pos, acc) == ParseStatements(toks, pos + |StmtTokens(s)|, acc + [StmtTree(s)])
  {
  }

  /** A statement's first token is `int`, `if` or an identifier. */
  lemma StmtStarts(s: StmtForm)
    ensures |StmtTokens(s)| > 0
    ensures var k := StmtTokens(s)[0].kind; k == Int || k == Kind.If || k == Identifier
  {
  }

  /** `int x;` and `int x = e;` */
  lemma DeclFormRoundTrip(toks: seq<Token>, pos: nat, s: StmtForm)
    requires s.DeclForm? && StmtFormOk(s)
    requires At(toks, pos, StmtTokens(s))
    ensures ParseStatement(toks, pos) == Success(Parsed(Some(StmtTree(s)), pos + |StmtTokens(s)|))
  {
    if s.init.None? {
      DeclFormPlain(toks, pos, s);
    } else {
      DeclFormInit(toks, pos, s);
    }
  }

  lemma DeclFormPlain(toks: seq<Token>, pos: nat, s: StmtForm)
    requires s.DeclForm? && s.init.None?
    requires At(toks, pos, StmtTokens(s))
    ensures ParseStatement(toks, pos) == Success(Parsed(Some(StmtTree(s)), pos + |StmtTokens(s)|))
  {
    assert StmtTokens(s) == [IntTok, IdentTok(s.name), SemiTok] + [];
    DeclPlainRoundTrip(toks, pos, s.name);
  }

  lemma DeclFormInit(toks: seq<Token>, pos: nat, s: StmtForm)
    requires s.DeclForm? && s.init.Some? && StmtFormOk(s)
    requires At(toks, pos, StmtTokens(s))
    ensures ParseStatement(toks, pos) == Success(Parsed(Some(StmtTree(s)), pos + |StmtTokens(s)|))
  {
    DeclInitShape(s);
    DeclInitRoundTrip(toks, pos, s.name, s.init.value);
  }

  /** The tokens, their count and the tree of `int x = e;`. */
  lemma DeclInitShape(s: StmtForm)
    requires s.DeclForm? && s.init.Some?
    ensures StmtTokens(s) == [IntTok, IdentTok(s.name), AssignTok] + (ExprTokens(s.init.value) + [SemiTok] + [])
    ensures |StmtTokens(s)| == 4 + |ExprTokens(s.init.value)|
    ensures StmtTree(s) == Decl(s.name, Some(ExprTree(s.init.value)))
  {
  }

  /** `x = e;` */
  lemma AssignFormRoundTrip(toks: seq<Token>, pos: nat, s: StmtForm)
    requires s.AssignForm? && StmtFormOk(s)
    requires At(toks, pos, StmtTokens(s))
    ensures ParseStatement(toks, pos) == Success(Parsed(Some(StmtTree(s)), pos + |StmtTokens(s)|))
  {
    AssignShape(s);
    AssignRoundTrip(toks, pos, s.target, s.rhs);
  }

  /** The tokens, their count and the tree of `x = e;`. */
  lemma AssignShape(s: StmtForm)
    requires s.AssignForm?
    ensures StmtTokens(s) == [IdentTok(s.target), AssignTok] + (ExprTokens(s.rhs) + [SemiTok] + [])
    ensures |StmtTokens(s)| == 3 + |ExprTokens(s.rhs)|
    ensures StmtTree(s) == Ast.Assign(Ident(s.target), ExprTree(s.rhs))
  {
  }

  /** The condition of `if (c) { body }` reads back up to the `)`. */
  lemma IfCond(toks: seq<Token>, pos: nat, s: StmtForm)
    requires s.IfForm? && StmtFormOk(s)
    requires At(toks, pos + 2, ExprTokens(s.cond))
    requires Peek(toks, pos + 2 + |ExprTokens(s.cond)|).kind == RParen
    ensures ParseExpr(toks, pos + 2) == Success(Parsed(ExprTree(s.cond), pos + 2 + |ExprTokens(s.cond)|))
  {
    ExprRoundTrip(toks, pos + 2, s.cond);
  }

  /** The tree and the length of `if (c) { body }`. */
  lemma IfShape(s: StmtForm)
    requires s.IfForm?
    ensures StmtTree(s) == Ast.If(ExprTree(s.cond), StmtTrees(s.body))
    ensures |StmtTokens(s)| == 2 + |ExprTokens(s.cond)| + 2 + |StmtsTokens(s.body)| + 1
  {
  }

  /** The statement rule reads back any statement form. */
  lemma {:induction false} StmtRoundTrip(toks: seq<Token>, pos: nat, s: StmtForm)
    requires StmtFormOk(s)
    requires At(toks, pos, StmtTokens(s))
    ensures ParseStatement(toks, pos) == Success(Parsed(Some(StmtTree(s)), pos + |StmtTokens(s)|))
    decreases s, 3
  {
    if s.DeclForm? {
      DeclFormRoundTrip(toks, pos, s);
    } else if s.AssignForm? {
      AssignFormRoundTrip(toks, pos, s);
    } else {
      IfCase(toks, pos, s);
    }
  }

  lemma {:induction false} IfCase(toks: seq<Token>, pos: nat, s: StmtForm)
    requires s.IfForm? && StmtFormOk(s)
    requires At(toks, pos, StmtTokens(s))
    ensures ParseStatement(toks, pos) == Success(Parsed(Some(StmtTree(s)), pos + |StmtTokens(s)|))
    decreases s, 2
  {
    IfParts(toks, pos, s);
    StatementDispatch(toks, pos);
  }

  /** The `if` branch reads back an `if` form. */
  lemma {:induction false} IfParts(toks: seq<Token>, pos: nat, s: StmtForm)
    requires s.IfForm? && StmtFormOk(s)
    requires At(toks, pos, StmtTokens(s))
    ensures pos < |toks| && Peek(toks, pos).kind == Kind.If
    ensures ParseIf(toks, pos) == Success(Parsed(Some(StmtTree(s)), pos + |StmtTokens(s)|))
    decreases s, 1
  {
    var p := pos + 2 + |ExprTokens(s.cond)|;
    IfSplit(toks, pos, s);
    BodyRoundTrip(toks, p + 2, s.body);
    IfCond(toks, pos, s);
    IfRoundTrip(toks, pos, ExprTree(s.cond), p, StmtTrees(s.body), p + 2 + |StmtsTokens(s.body)|);
    IfShape(s);
  }

  /** Where the first statement of a non-empty run lies, how it starts,
      and what follows the rest. */
  lemma HeadForms(ss: seq<StmtForm>)
    requires |ss| > 0
    requires StmtFormsOk(ss)
    ensures StmtFormOk(ss[0]) && StmtFormsOk(ss[1..])
    ensures StmtsTokens(ss) == StmtTokens(ss[0]) + StmtsTokens(ss[1..])
    ensures StmtTrees(ss) == [StmtTree(ss[0])] + StmtTrees(ss[1..])
  {
  }

  lemma HeadStmt(toks: seq<Token>, pos: nat, ss: seq<StmtForm>)
    requires |ss| > 0
    requires StmtFormsOk(ss)
    requires At(toks, pos, StmtsTokens(ss))
    ensures StmtFormOk(ss[0]) && StmtFormsOk(ss[1..])
    ensures At(toks, pos, StmtTokens(ss[0]))
    ensures At(toks, pos + |StmtTokens(ss[0])|, StmtsTokens(ss[1..]))
    ensures pos + |StmtTokens(ss[0])| + |StmtsTokens(ss[1..])| == pos + |StmtsTokens(ss)|
    ensures Peek(toks, pos).kind != RBrace && Peek(toks, pos).kind != Eof
    ensures StmtTrees(ss) == [StmtTree(ss[0])] + StmtTrees(ss[1..])
  {
    HeadForms(ss);
    AtSplit(toks, pos, StmtTokens(ss[0]), StmtsTokens(ss[1..]));
    StmtStarts(ss[0]);
    assert toks[pos + 0] == StmtTokens(ss[0])[0];
  }

  lemma AppendCons<T>(acc: seq<T>, x: T, ys: seq<T>, zs: seq<T>)
    requires zs == [x] + ys
    ensures acc + [x] + ys == acc + zs
  {
  }

  /** The body of an `if`, read from an empty list. */
  lemma {:induction false} BodyRoundTrip(toks: seq<Token>, pos: nat, ss: seq<StmtForm>)
    requires StmtFormsOk(ss)
    requires At(toks, pos, StmtsTokens(ss))
    requires Peek(toks, pos + |StmtsTokens(ss)|).kind == RBrace
    ensures ParseBlock(toks, pos, []) == Success(Parsed(StmtTrees(ss), pos + |StmtsTokens(ss)|))
    decreases ss, 2
  {
    BlockRoundTrip(toks, pos, ss, []);
    assert [] + StmtTrees(ss) == StmtTrees(ss);
  }

  /** One step of the `if` body loop: a statement form is read back, and
      the loop carries on after it. */
  lemma {:induction false} BlockHead(toks: seq<Token>, pos: nat, s: StmtForm, acc: seq<Ast>)
    requires StmtFormOk(s)
    requires At(toks, pos, StmtTokens(s))
    requires Peek(toks, pos).kind != RBrace && Peek(toks, pos).kind != Eof
    ensures ParseBlock(toks, pos, acc) == ParseBlock(toks, pos + |StmtTokens(s)|, acc + [StmtTree(s)])
    decreases s, 4
  {
    StmtRoundTrip(toks, pos, s);
    BlockStep(toks, pos, acc, s);
  }

  /** The `if` body loop reads back a run of statement forms ended by `}`,
      appending their trees in source order. */
  lemma {:induction false} BlockRoundTrip(toks: seq<Token>, pos: nat, ss: seq<StmtForm>, acc: seq<Ast>)
    requires StmtFormsOk(ss)
    requires At(toks, pos, StmtsTokens(ss))
    requires Peek(toks, pos + |StmtsTokens(ss)|).kind == RBrace
    ensures ParseBlock(toks, pos, acc) == Success(Parsed(acc + StmtTrees(ss), pos + |StmtsTokens(ss)|))
    decreases ss, 1
  {
    if |ss| == 0 {
      BlockEnd(toks, pos, acc);
      assert acc + StmtTrees(ss) == acc;
    } else {
      HeadStmt(toks, pos, ss);
      BlockRoundTrip(toks, pos + |StmtTokens(ss[0])|, ss[1..], acc + [StmtTree(ss[0])]);
      BlockCons(toks, pos, ss, acc);
    }
  }

  /** A run read back after its first statement is read back whole. */
  lemma {:induction false} BlockCons(toks: seq<Token>, pos: nat, ss: seq<StmtForm>, acc: seq<Ast>)
    requires |ss| > 0 && StmtFormsOk(ss)
    requires At(toks, pos, StmtsTokens(ss))
    requires pos + |StmtTokens(ss[0])| <= |toks|
    requires ParseBlock(toks, pos + |StmtTokens(ss[0])|, acc + [StmtTree(ss[0])])
             == Success(Parsed(acc + [StmtTree(ss[0])] + StmtTrees(ss[1..]), pos + |StmtTokens(ss[0])| + |StmtsTokens(ss[1..])|))
    ensures ParseBlock(toks, pos, acc) == Success(Parsed(acc + StmtTrees(ss), pos + |StmtsTokens(ss)|))
    decreases ss, 0
  {
    HeadStmt(toks, pos, ss);
    BlockHead(toks, pos, ss[0], acc);
    AppendCons(acc, StmtTree(ss[0]), StmtTrees(ss[1..]), StmtTrees(ss));
  }

  /** The `if` body loop stops at `}` and hands back what it has read. */
  lemma BlockEnd(toks: seq<Token>, pos: nat, acc: seq<Ast>)
    requires pos <= |toks| && Peek(toks, pos).kind == RBrace
    ensures ParseBlock(toks, pos, acc) == Success(Parsed(acc, pos))
  {
  }

  /** One step of the statement loop of `parse_program`. */
  lemma {:induction false} StatementsHead(toks: seq<Token>, pos: nat, s: StmtForm, acc: seq<Ast>)
    requires StmtFormOk(s)
    requires At(toks, pos, StmtTokens(s))
    requires Peek(toks, pos).kind != Eof
    ensures ParseStatements(toks, pos, acc) == ParseStatements(toks, pos + |StmtTokens(s)|, acc + [StmtTree(s)])
  {
    StmtRoundTrip(toks, pos, s);
    StatementsStep(toks, pos, acc, s);
  }

  /** The statement loop of `parse_program` reads back a run of statement
      forms ended by the end of input, in source order. */
  lemma {:induction false} StatementsRoundTrip(toks: seq<Token>, pos: nat, ss: seq<StmtForm>, acc: seq<Ast>)
    requires StmtFormsOk(ss)
    requires At(toks, pos, StmtsTokens(ss))
    requires Peek(toks, pos + |StmtsTokens(ss)|).kind == Eof
    ensures ParseStatements(toks, pos, acc) == Success(acc + StmtTrees(ss))
    decreases ss
  {
    if |ss| == 0 {
      assert acc + [] == acc;
    } else {
      HeadStmt(toks, pos, ss);
      StatementsHead(toks, pos, ss[0], acc);
      StatementsRoundTrip(toks, pos + |StmtTokens(ss[0])|, ss[1..], acc + [StmtTree(ss[0])]);
      AppendCons(acc, StmtTree(ss[0]), StmtTrees(ss[1..]), StmtTrees(ss));
    }
  }

  lemma AtFront(ts: seq<Token>, t: Token)
    ensures At(ts + [t], 0, ts) && Peek(ts + [t], |ts|) == t
  {
    forall i | 0 <= i < |ts|
      ensures (ts + [t])[0 + i] == ts[i]
    {
    }
  }

  /** The whole program: the tokens of statement forms, then end of
      input, parse to their trees in source order. */
  lemma ProgramRoundTrip(ss: seq<StmtForm>)
    requires StmtFormsOk(ss)
    ensures ParseProgram(StmtsTokens(ss) + [EofToken]) == Success(StmtTrees(ss))
  {
    var toks := StmtsTokens(ss) + [EofToken];
    AtFront(StmtsTokens(ss), EofToken);
    StatementsRoundTrip(toks, 0, ss, []);
    assert [] + StmtTrees(ss) == StmtTrees(ss);
  }

  /** The parenthesised primary: `(`, the tokens of any statement form,
      then `)` read back as that statement's tree, so an assignment or a
      declaration can stand where an operand is expected. */
  lemma ParenRoundTrip(toks: seq<Token>, pos: nat, s: StmtForm)
    requires StmtFormOk(s)
    requires At(toks, pos, [LParenTok] + StmtTokens(s) + [RParenTok])
    ensures ParsePrimary(toks, pos) == Success(Parsed(StmtTree(s), pos + |StmtTokens(s)| + 2))
  {
    var inner := StmtTokens(s);
    AtSplit(toks, pos, [LParenTok] + inner, [RParenTok]);
    AtSplit(toks, pos, [LParenTok], inner);
    assert toks[pos + 0] == ([LParenTok])[0];
    StmtRoundTrip(toks, pos + 1, s);
    assert toks[pos + 1 + |inner|] == ([RParenTok])[0];
  }

  /** The error exits of the statement rule for `int` and assignment:
      a missing name after `int`, a missing `;` after `int x`, after
      `int x = e` or after `x = e`, and a name not followed by `=`, each
      reported at the token found instead. */
  lemma DeclAssignErrors(toks: seq<Token>, pos: nat)
    requires pos <= |toks|
    ensures var t, u, v := Peek(toks, pos), Peek(toks, pos + 1), Peek(toks, pos + 2);
      && (t.kind == Int && u.kind != Identifier
          ==> ParseStatement(toks, pos) == Failure(ExpectedIdentAfterInt(u)))
      && (t.kind == Int && u.kind == Identifier && v.kind != Kind.Assign && v.kind != Semi
          ==> ParseStatement(toks, pos) == Failure(Expected(Semi, v)))
      && (t.kind == Identifier && u.kind != Kind.Assign
          ==> ParseStatement(toks, pos) == Failure(IdentNotFollowedByAssign(u)))
    ensures Peek(toks, pos).kind == Identifier && Peek(toks, pos + 1).kind == Kind.Assign
            && ParseExpr(toks, pos + 2).Success? && Peek(toks, ParseExpr(toks, pos + 2).value.next).kind != Semi
            ==> ParseStatement(toks, pos) == Failure(Expected(Semi, Peek(toks, ParseExpr(toks, pos + 2).value.next)))
    ensures Peek(toks, pos).kind == Int && Peek(toks, pos + 1).kind == Identifier && Peek(toks, pos + 2).kind == Kind.Assign
            && ParseExpr(toks, pos + 3).Success? && Peek(toks, ParseExpr(toks, pos + 3).value.next).kind != Semi
            ==> ParseStatement(toks, pos) == Failure(Expected(Semi, Peek(toks, ParseExpr(toks, pos + 3).value.next)))
  {
  }

  /** The error exits of the statement rule for `if`: a missing `(`,
      `)`, `{` or `}`, each reported at the token found instead. */
  lemma IfErrors(toks: seq<Token>, pos: nat)
    requires pos <= |toks|
    ensures Peek(toks, pos).kind == Kind.If && Peek(toks, pos + 1).kind != LParen
            ==> ParseStatement(toks, pos) == Failure(Expected(LParen, Peek(toks, pos + 1)))
    ensures Peek(toks, pos).kind == Kind.If && Peek(toks, pos + 1).kind == LParen
            && ParseExpr(toks, pos + 2).Success? && Peek(toks, ParseExpr(toks, pos + 2).value.next).kind != RParen
            ==> ParseStatement(toks, pos) == Failure(Expected(RParen, Peek(toks, ParseExpr(toks, pos + 2).value.next)))
    ensures Peek(toks, pos).kind == Kind.If && Peek(toks, pos + 1).kind == LParen
            && ParseExpr(toks, pos + 2).Success? && Peek(toks, ParseExpr(toks, pos + 2).value.next).kind == RParen
            && Peek(toks, ParseExpr(toks, pos + 2).value.next + 1).kind != LBrace
            ==> ParseStatement(toks, pos) == Failure(ExpectedLBraceAfterIf(Peek(toks, ParseExpr(toks, pos + 2).value.next + 1)))
  {
    if Peek(toks, pos).kind == Kind.If && Peek(toks, pos + 1).kind == LParen
       && ParseExpr(toks, pos + 2).Success? && Peek(toks, ParseExpr(toks, pos + 2).value.next).kind == RParen
    {
      var e := ParseExpr(toks, pos + 2).value;
      IfHeadRoundTrip(toks, pos, e.value, e.next);
    }
  }

  /** An `if` body that runs into the end of input is reported as a
      missing `}`. */
  lemma IfUnclosed(toks: seq<Token>, pos: nat, c: Ast, p: nat, body: seq<Ast>, r: nat)
    requires pos + 1 < |toks| && Peek(toks, pos).kind == Kind.If && Peek(toks, pos + 1).kind == LParen
    requires ParseExpr(toks, pos + 2) == Success(Parsed(c, p))
    requires p + 1 < |toks| && Peek(toks, p).kind == RParen && Peek(toks, p + 1).kind == LBrace
    requires ParseBlock(toks, p + 2, []) == Success(Parsed(body, r))
    requires Peek(toks, r).kind == Eof
    ensures ParseStatement(toks, pos) == Failure(Expected(RBrace, Peek(toks, r)))
  {
    StatementDispatch(toks, pos);
    IfHeadRoundTrip(toks, pos, c, p);
    IfBodyUnclosed(toks, p + 1, c, body, r);
  }

  lemma IfBodyUnclosed(toks: seq<Token>, pos: nat, cond: Ast, body: seq<Ast>, r: nat)
    requires pos + 1 <= |toks| && Peek(toks, pos).kind == LBrace
    requires ParseBlock(toks, pos + 1, []) == Success(Parsed(body, r))
    requires Peek(toks, r).kind == Eof
    ensures ParseIfBody(toks, pos, cond) == Failure(Expected(RBrace, Peek(toks, r)))
  {
  }
}
