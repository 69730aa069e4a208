/** The code generator of simple.c (`alloc_tmp`, `new_label`, `gen_expr`,
    `gen_stmt`, `gen_program`). The C globals it mutates (symbol table,
    `tmp_next`, `label_counter`) are one explicit Context threaded through
    the functions, and each `emit` call is one Instr in the returned code,
    in emission order. */
module CodeGen {
  import opened Results
  import opened Decimal
  import opened Syntax
  import Symbols

  const TmpBase: nat := 0xF0

  /** The banner `gen_program` writes first. */
  const Banner := "---- data and code generated by simplec ----"

  datatype Reg = A | B

  /** A label made by `new_label`: the prefix and the counter value. */
  datatype Label = Label(prefix: string, n: nat)

  datatype Instr =
    | Note(text: string)          // "; <text>"
    | Start                       // "start:"
    | Def(lbl: Label)             // "<label>:"
    | Ldi(reg: Reg, imm: nat)     // "ldi <reg> <imm>"
    | Load(reg: Reg, addr: nat)   // "mov <reg> M <addr>"
    | Store(reg: Reg, addr: nat)  // "mov M <reg> <addr>"
    | AddAB                       // "add"
    | SubAB                       // "sub"
    | Cmp                         // "cmp"
    | CmpAB                       // "cmp A B"
    | Jz(target: Label)           // "jz <label>"
    | Jmp(target: Label)          // "jmp <label>"
    | Hlt                         // "hlt"
    | VarNote(name: string, at: nat)  // "; var <name> at <at>"

  /** The mutable state of one compilation run. */
  datatype Context = Context(table: Symbols.SymTable, tmpNext: nat, labelCounter: nat)

  const FreshContext := Context(Symbols.EmptyTable, 0, 0)

  /** Code produced by a generator step and the context after it. */
  datatype Gen = Gen(code: seq<Instr>, ctx: Context)

  datatype GenError =
    | UndefinedVariable(name: string)
    | AssignToUndeclared(name: string)
    | LeftSideNotIdentifier
    | UnknownBinop(op: char)
    | UnsupportedExpr(node: Ast)
    | UnsupportedStmt(node: Ast)

  /** `alloc_tmp`: a temporary address from the range starting at 0xF0,
      never handed out before in this run. */
  function AllocTmp(c: Context): (r: (nat, Context))
    ensures r.0 >= TmpBase && r.0 - TmpBase == c.tmpNext
    ensures r.1.tmpNext > c.tmpNext && r.0 - TmpBase < r.1.tmpNext
    ensures r.1.table == c.table && r.1.labelCounter == c.labelCounter
  {
    (TmpBase + c.tmpNext, c.(tmpNext := c.tmpNext + 1))
  }

  /** `new_label`: a label with the given prefix and the current counter,
      which then moves on so that the value is never handed out again. */
  function NewLabel(prefix: string, c: Context): (r: (Label, Context))
    ensures r.0.prefix == prefix && r.0.n == c.labelCounter
    ensures r.1.labelCounter > r.0.n
    ensures r.1.table == c.table && r.1.tmpNext == c.tmpNext
  {
    (Label(prefix, c.labelCounter), c.(labelCounter := c.labelCounter + 1))
  }

  /** The instructions after both operands of a binary operation have been
      generated: spill, reload into A and B, then the operator's code. */
  function OperatorCode(op: char, c: Context): (r: Result<Gen, GenError>)
    ensures r.Failure? <==> !(op == '+' || op == '-' || op == '*' || op == '/')
    ensures r.Success? ==> r.value.ctx.table == c.table
    ensures r.Success? ==> r.value.ctx.tmpNext >= c.tmpNext && r.value.ctx.labelCounter >= c.labelCounter
    ensures r.Success? && op != '*' ==> r.value.ctx == c
  {
    if op == '+' then Success(Gen([AddAB], c))
    else if op == '-' then Success(Gen([SubAB], c))
    else if op == '*' then
      var (lblStart, c1) := NewLabel("mul_start", c);
      var (lblEnd, c2) := NewLabel("mul_end", c1);
      var (acc, c3) := AllocTmp(c2);
      var (tl, c4) := AllocTmp(c3);
      var (tr, c5) := AllocTmp(c4);
      Success(Gen([Store(A, tl), Store(B, tr), Ldi(A, 0), Load(B, tr), Def(lblStart), CmpAB,
                   Note("MUL not fully implemented; placeholder: result = 0"),
                   Jmp(lblEnd), Def(lblEnd)], c5))
    else if op == '/' then
      Success(Gen([Note("DIV not implemented, placeholder 0"), Ldi(A, 0)], c))
    else
      Failure(UnknownBinop(op))
  }

  /** `gen_expr`: code that leaves the expression's value in register A.
      Expressions never declare anything, so the symbol table is unchanged;
      the counters only move forward. */
  function GenExpr(e: Ast, c: Context): (r: Result<Gen, GenError>)
    ensures r.Success? ==> r.value.ctx.table == c.table
    ensures r.Success? ==> r.value.ctx.tmpNext >= c.tmpNext && r.value.ctx.labelCounter >= c.labelCounter
    ensures r.Success? ==> |r.value.code| >= 1
    ensures e.Ident? ==> (r.Failure? <==> e.name !in Symbols.Names(c.table))
    ensures !(e.Num? || e.Ident? || e.BinOp?) ==> r == Failure(UnsupportedExpr(e))
  {
    match e
    case Num(v) => Success(Gen([Ldi(A, v % 256)], c))
    case Ident(x) =>
      var a := Symbols.GetAddr(c.table, x);
      if a == -1 then Failure(UndefinedVariable(x)) else Success(Gen([Load(A, a)], c))
    case BinOp(op, l, rt) =>
      var (t1, c1) := AllocTmp(c);
      var gl :- GenExpr(l, c1);
      var gr :- GenExpr(rt, gl.ctx);
      var (t2, c2) := AllocTmp(gr.ctx);
      var go :- OperatorCode(op, c2);
      Success(Gen(gl.code + [Store(A, t1)] + gr.code + [Load(B, t1), Store(A, t2), Load(A, t1), Load(B, t2)] + go.code, go.ctx))
    case _ => Failure(UnsupportedExpr(e))
  }

  /** `gen_stmt`. A declaration registers its name before generating the
      initialiser; an assignment's target must already be declared; an
      `if` takes its end label before generating the condition. */
  function GenStmt(s: Ast, c: Context): (r: Result<Gen, GenError>)
    ensures r.Success? ==> |r.value.ctx.table.syms| >= |c.table.syms|
    ensures r.Success? ==> r.value.ctx.table.syms[..|c.table.syms|] == c.table.syms
    ensures r.Success? ==> r.value.ctx.tmpNext >= c.tmpNext && r.value.ctx.labelCounter >= c.labelCounter
    ensures r.Success? && Symbols.Valid(c.table) ==> Symbols.Valid(r.value.ctx.table)
    decreases s, 1
  {
    match s
    case Decl(name, init) =>
      var (addr, t1) := Symbols.Add(c.table, name);
      Symbols.AddPreservesValid(c.table, name);
      var c1 := c.(table := t1);
      if init.Some? then
        var g :- GenExpr(init.value, c1);
        Success(Gen(g.code + [Store(A, addr)], g.ctx))
      else
        Success(Gen([Ldi(A, 0), Store(A, addr)], c1))
    case Assign(lhs, rhs) =>
      if !lhs.Ident? then
        Failure(LeftSideNotIdentifier)
      else
        var a := Symbols.GetAddr(c.table, lhs.name);
        if a == -1 then
          Failure(AssignToUndeclared(lhs.name))
        else
          var g :- GenExpr(rhs, c);
          Success(Gen(g.code + [Store(A, a)], g.ctx))
    case If(cond, body) =>
      var (lbl, c1) := NewLabel("if_end", c);
      var g :- GenExpr(cond, c1);
      var b :- GenStmts(body, g.ctx);
      Success(Gen(g.code + [Ldi(B, 0), Cmp, Jz(lbl)] + b.code + [Def(lbl)], b.ctx))
    case Block(ss) =>
      GenStmts(ss, c)
    case _ =>
      Failure(UnsupportedStmt(s))
  }

  /** The statements in order, each starting from the context the previous
      one left. */
  function GenStmts(ss: seq<Ast>, c: Context): (r: Result<Gen, GenError>)
    ensures r.Success? ==> |r.value.ctx.table.syms| >= |c.table.syms|
    ensures r.Success? ==> r.value.ctx.table.syms[..|c.table.syms|] == c.table.syms
    ensures r.Success? ==> r.value.ctx.tmpNext >= c.tmpNext && r.value.ctx.labelCounter >= c.labelCounter
    ensures r.Success? && Symbols.Valid(c.table) ==> Symbols.Valid(r.value.ctx.table)
    decreases ss, 0
  {
    if |ss| == 0 then
      Success(Gen([], c))
    else
      var g :- GenStmt(ss[0], c);
      var h :- GenStmts(ss[1..], g.ctx);
      Success(Gen(g.code + h.code, h.ctx))
  }

  /** The closing dump of the symbol table, one line per entry. */
  function SymbolNotes(syms: seq<Symbols.Sym>): (r: seq<Instr>)
    ensures |r| == |syms|
    ensures forall k :: 0 <= k < |syms| ==> r[k] == VarNote(syms[k].name, syms[k].addr)
  {
    if |syms| == 0 then [] else [VarNote(syms[0].name, syms[0].addr)] + SymbolNotes(syms[1..])
  }

  /** `gen_program`, on a fresh context: header, entry label, the
      statements' code, `hlt`, and the symbol table dump. */
  function GenProgram(stmts: seq<Ast>): (r: Result<seq<Instr>, GenError>)
    ensures r.Success? <==> GenStmts(stmts, FreshContext).Success?
    ensures r.Failure? ==> r.error == GenStmts(stmts, FreshContext).error
    ensures r.Success? ==> |r.value| >= 4
    ensures r.Success? ==> r.value[0] == Note(Banner) && r.value[1] == Start
  {
    var g :- GenStmts(stmts, FreshContext);
    Success([Note(Banner), Start] + g.code
            + [Hlt, Note("---- symbol table ----")] + SymbolNotes(g.ctx.table.syms))
  }

  function RegName(r: Reg): string {
    if r == A then "A" else "B"
  }

  /** The text `new_label` prints: prefix, underscore, counter. */
  function LabelText(l: Label): string {
    l.prefix + "_" + NatToDecimal(l.n)
  }

  /** The line `emit` prints for an instruction. */
  function Render(i: Instr): string {
    match i
    case Note(t) => "; " + t
    case Start => "start:"
    case Def(l) => LabelText(l) + ":"
    case Ldi(r, v) => "ldi " + RegName(r) + " " + NatToDecimal(v)
    case Load(r, a) => "mov " + RegName(r) + " M " + NatToDecimal(a)
    case Store(r, a) => "mov M " + RegName(r) + " " + NatToDecimal(a)
    case AddAB => "add"
    case SubAB => "sub"
    case Cmp => "cmp"
    case CmpAB => "cmp A B"
    case Jz(l) => "jz " + LabelText(l)
    case Jmp(l) => "jmp " + LabelText(l)
    case Hlt => "hlt"
    case VarNote(x, a) => "; var " + x + " at " + NatToDecimal(a)
  }
}
