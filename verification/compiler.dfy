/** The whole of simple.c's `main` after the file is opened: scan the text,
    parse the statements, generate code, and render each instruction as
    the line `emit` prints. The first phase that calls exit(1) in C
    decides the Failure here. */
module Compiler {
  import opened Results
  import opened Lexer
  import opened Syntax
  import opened Parser
  import opened CodeGen
  import CodeGenProperties
  import opened ParserProperties
  import LexerProperties
  import Decimal

  datatype CompileError =
    | ParseFailed(parse: ParseError)
    | GenFailed(gen: GenError)

  function RenderAll(code: seq<Instr>): (lines: seq<string>)
    ensures |lines| == |code|
    ensures forall k :: 0 <= k < |code| ==> lines[k] == Render(code[k])
  {
    if |code| == 0 then [] else [Render(code[0])] + RenderAll(code[1..])
  }

  /** Parse errors win over generation errors: generation only starts once
      the whole program has been parsed. */
  function Compile(src: string): (r: Result<seq<string>, CompileError>)
    ensures ParseProgram(Lex(src)).Failure? ==> r == Failure(ParseFailed(ParseProgram(Lex(src)).error))
    ensures r.Success? ==> |r.value| >= 4
    ensures r.Success? ==> r.value[0] == "; " + Banner && r.value[1] == "start:"
  {
    var toks := Lex(src);
    var p := ParseProgram(toks);
    if p.Failure? then Failure(ParseFailed(p.error))
    else
      var g := GenProgram(p.value);
      if g.Failure? then Failure(GenFailed(g.error))
      else Success(RenderAll(g.value))
  }

  /** A parsed program compiles exactly when every name it reads or
      assigns was declared before, and every operator is one of `+ - * /`
      (the reference check of the generator). */
  lemma {:induction false} CompileSucceedsIff(src: string)
    requires ParseProgram(Lex(src)).Success?
    ensures Compile(src).Success? <==> CodeGenProperties.CheckStmts(ParseProgram(Lex(src)).value, {}).Some?
  {
    var stmts := ParseProgram(Lex(src)).value;
    CodeGenProperties.GenStmtsSucceedsIff(stmts, FreshContext);
    assert Symbols.Names(FreshContext.table) == {};
  }

  /** The parenthesis quirk of `parse_primary`: `( 1 )` is a parse error,
      because the statement rule does not accept a literal. */
  lemma ParenLiteralRejected()
    ensures ParsePrimary([LParenTok, Token(Number, "1", 1), RParenTok, EofToken], 0)
            == Failure(UnexpectedToken(Token(Number, "1", 1)))
  {
    var t1 := [LParenTok, Token(Number, "1", 1), RParenTok, EofToken];
    assert ParseStatement(t1, 1) == Failure(UnexpectedToken(Token(Number, "1", 1)));
  }

  /** The other side of the quirk: `( x = 1 ; )` is an assignment node
      used as an operand. */
  lemma ParenAssignOperand()
    ensures ParsePrimary([LParenTok, IdentTok("x"), AssignTok, Token(Number, "1", 1),
                          SemiTok, RParenTok, EofToken], 0)
            == Success(Parsed(Ast.Assign(Ident("x"), Num(1)), 6))
  {
    var t2 := [LParenTok, IdentTok("x"), AssignTok, Token(Number, "1", 1),
               SemiTok, RParenTok, EofToken];
    assert ParseExpr(t2, 3) == Success(Parsed(Num(1), 4));
    assert ParseStatement(t2, 1) == Success(Parsed(Some(Ast.Assign(Ident("x"), Num(1))), 5));
  }

  const QuirkProgram := [IntTok, IdentTok("y"), AssignTok, LParenTok,
                          IdentTok("x"), AssignTok, Token(Number, "1", 1), SemiTok,
                          RParenTok, SemiTok, EofToken]

  /** Inside the parentheses of `int y = ( x = 1 ; ) ;` the statement
      rule reads the assignment up to and including its `;`. */
  lemma QuirkInner()
    ensures ParseStatement(QuirkProgram, 4) == Success(Parsed(Some(Ast.Assign(Ident("x"), Num(1))), 8))
  {
    assert ParseExpr(QuirkProgram, 6) == Success(Parsed(Num(1), 7));
  }

  lemma QuirkInitialiser()
    ensures ParseExpr(QuirkProgram, 3) == Success(Parsed(Ast.Assign(Ident("x"), Num(1)), 9))
  {
    QuirkInner();
    assert ParsePrimary(QuirkProgram, 3) == Success(Parsed(Ast.Assign(Ident("x"), Num(1)), 9));
  }

  /** `int y = ( x = 1 ; ) ;` parses to a declaration whose initialiser is
      an assignment node. */
  lemma ParenAssignParses()
    ensures ParseProgram(QuirkProgram) == Success([Decl("y", Some(Ast.Assign(Ident("x"), Num(1))))])
  {
    var e := Ast.Assign(Ident("x"), Num(1));
    QuirkInitialiser();
    assert ParseStatement(QuirkProgram, 0) == Success(Parsed(Some(Decl("y", Some(e))), 10));
    var d: seq<Ast> := [Decl("y", Some(e))];
    assert [] + d == d;
    assert ParseStatements(QuirkProgram, 0, []) == ParseStatements(QuirkProgram, 10, d);
    assert Peek(QuirkProgram, 10) == EofToken;
  }

  /** The generator then rejects the assignment node it finds where an
      expression should be, after registering `y`. */
  lemma ParenAssignRejected()
    ensures GenProgram([Decl("y", Some(Ast.Assign(Ident("x"), Num(1))))])
            == Failure(UnsupportedExpr(Ast.Assign(Ident("x"), Num(1))))
  {
    var e := Ast.Assign(Ident("x"), Num(1));
    var c1 := FreshContext.(table := Symbols.Add(FreshContext.table, "y").1);
    assert GenExpr(e, c1) == Failure(UnsupportedExpr(e));
    assert GenStmt(Decl("y", Some(e)), FreshContext) == Failure(UnsupportedExpr(e));
    assert GenStmts([Decl("y", Some(e))], FreshContext) == Failure(UnsupportedExpr(e));
  }

  /** The source text ` int y = ( x = 1 ; ) ;`, one blank-led token at a
      time. */
  const QuirkText := " int" + (" y" + (" =" + (" (" + (" x" + (" =" + (" 1" + (" ;" + (" )" + (" ;")))))))))

  lemma SpellStep(ts: seq<Token>, i: nat)
    requires i < |ts|
    ensures LexerProperties.Spell(ts[i..]) == " " + ts[i].text + LexerProperties.Spell(ts[i + 1..])
  {
    assert ts[i..][1..] == ts[i + 1..];
  }

  /** The tokens of `int y = ( x = 1 ; ) ;` before the end of input are
      canonical, and their spelling with a blank before each is the text. */
  lemma QuirkSpelling()
    ensures QuirkProgram == QuirkProgram[..10] + [EofToken]
    ensures LexerProperties.Spell(QuirkProgram[..10]) == QuirkText
    ensures forall k :: 0 <= k < 10 ==> LexerProperties.Canonical(QuirkProgram[k])
  {
    QuirkCanonical();
    var ts := QuirkProgram[..10];
    QuirkSpellingTail();
    SpellStep(ts, 4);
    assert " " + ts[4].text == " x";
    SpellStep(ts, 3);
    assert " " + ts[3].text == " (";
    SpellStep(ts, 2);
    assert " " + ts[2].text == " =";
    SpellStep(ts, 1);
    assert " " + ts[1].text == " y";
    SpellStep(ts, 0);
    assert " " + ts[0].text == " int";
    assert ts[0..] == ts;
  }

  lemma QuirkSpellingTail()
    ensures LexerProperties.Spell(QuirkProgram[..10][5..]) == " =" + (" 1" + (" ;" + (" )" + (" ;"))))
  {
    var ts := QuirkProgram[..10];
    assert ts[10..] == [];
    SpellStep(ts, 9);
    assert " " + ts[9].text == " ;";
    SpellStep(ts, 8);
    assert " " + ts[8].text == " )";
    SpellStep(ts, 7);
    assert " " + ts[7].text == " ;";
    SpellStep(ts, 6);
    assert " " + ts[6].text == " 1";
    SpellStep(ts, 5);
    assert " " + ts[5].text == " =";
  }

  lemma QuirkCanonical()
    ensures forall k :: 0 <= k < 10 ==> LexerProperties.Canonical(QuirkProgram[k])
  {
    assert Decimal.NatToDecimal(1) == "1";
  }

  /** The quirk end to end: the source text `int y = (x = 1;);` lexes to
      the tokens above, parses, and then fails in the generator. */
  lemma ParenAssignCompile()
    ensures Compile(QuirkText) == Failure(GenFailed(UnsupportedExpr(Ast.Assign(Ident("x"), Num(1)))))
  {
    QuirkSpelling();
    LexerProperties.LexSpell(QuirkProgram[..10]);
    ParenAssignParses();
    ParenAssignRejected();
  }
}
