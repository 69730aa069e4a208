/** Properties of the code generator stated against independent reference
    definitions: which programs generate at all, how labels are handed out,
    and the shape of the `if` and declaration lowerings. */
module CodeGenProperties {
  import opened Results
  import opened Decimal
  import opened Syntax
  import opened CodeGen
  import Symbols

  /** Reference check of an expression against a set of declared names:
      literals, declared identifiers and the four operators only. */
  predicate ExprOk(e: Ast, names: set<string>) {
    match e
    case Num(_) => true
    case Ident(x) => x in names
    case BinOp(op, l, r) => (op == '+' || op == '-' || op == '*' || op == '/') && ExprOk(l, names) && ExprOk(r, names)
    case _ => false
  }

  /** Reference check of a statement: the declared names after it, or None
      when it cannot be lowered. A declaration's own name is visible in its
      initialiser; an assignment needs a declared identifier on the left. */
  function CheckStmt(s: Ast, names: set<string>): Option<set<string>>
    decreases s, 1
  {
    match s
    case Decl(x, init) =>
      if init.Some? && !ExprOk(init.value, names + {x}) then None else Some(names + {x})
    case Assign(lhs, rhs) =>
      if lhs.Ident? && lhs.name in names && ExprOk(rhs, names) then Some(names) else None
    case If(cond, body) =>
      if ExprOk(cond, names) then CheckStmts(body, names) else None
    case Block(ss) => CheckStmts(ss, names)
    case _ => None
  }

  function CheckStmts(ss: seq<Ast>, names: set<string>): Option<set<string>>
    decreases ss, 0
  {
    if |ss| == 0 then Some(names)
    else
      match CheckStmt(ss[0], names)
      case None => None
      case Some(n1) => CheckStmts(ss[1..], n1)
  }

  /** Expression generation succeeds exactly when the expression passes
      the reference check; so reading an undeclared identifier fails. */
  lemma {:induction false} GenExprSucceedsIff(e: Ast, c: Context)
    ensures GenExpr(e, c).Success? <==> ExprOk(e, Symbols.Names(c.table))
  {
    match e
    case BinOp(op, l, r) =>
      var c1 := AllocTmp(c).1;
      GenExprSucceedsIff(l, c1);
      var gl := GenExpr(l, c1);
      if gl.Success? {
        GenExprSucceedsIff(r, gl.value.ctx);
      }
    case _ =>
  }

  /** Statement generation succeeds exactly when the statement passes the
      reference check, and then the declared names are the ones the check
      computes. */
  lemma {:induction false} GenStmtSucceedsIff(s: Ast, c: Context)
    ensures GenStmt(s, c).Success? <==> CheckStmt(s, Symbols.Names(c.table)).Some?
    ensures GenStmt(s, c).Success? ==>
      Symbols.Names(GenStmt(s, c).value.ctx.table) == CheckStmt(s, Symbols.Names(c.table)).value
    decreases s, 1
  {
    var names := Symbols.Names(c.table);
    match s
    case Decl(x, init) =>
      var c1 := c.(table := Symbols.Add(c.table, x).1);
      if init.Some? {
        GenExprSucceedsIff(init.value, c1);
      }
    case Assign(lhs, rhs) =>
      GenExprSucceedsIff(rhs, c);
    case If(cond, body) =>
      var c1 := NewLabel("if_end", c).1;
      GenExprSucceedsIff(cond, c1);
      var g := GenExpr(cond, c1);
      if g.Success? {
        GenStmtsSucceedsIff(body, g.value.ctx);
      }
    case Block(ss) =>
      GenStmtsSucceedsIff(ss, c);
    case _ =>
  }

  lemma {:induction false} GenStmtsSucceedsIff(ss: seq<Ast>, c: Context)
    ensures GenStmts(ss, c).Success? <==> CheckStmts(ss, Symbols.Names(c.table)).Some?
    ensures GenStmts(ss, c).Success? ==>
      Symbols.Names(GenStmts(ss, c).value.ctx.table) == CheckStmts(ss, Symbols.Names(c.table)).value
    decreases ss, 0
  {
    if |ss| > 0 {
      GenStmtSucceedsIff(ss[0], c);
      var g := GenStmt(ss[0], c);
      if g.Success? {
        GenStmtsSucceedsIff(ss[1..], g.value.ctx);
      }
    }
  }

  /** The labels a piece of code defines, in order. */
  function Defs(code: seq<Instr>): seq<Label> {
    if |code| == 0 then []
    else (if code[0].Def? then [code[0].lbl] else []) + Defs(code[1..])
  }

  lemma {:induction false} DefsAppend(a: seq<Instr>, b: seq<Instr>)
    ensures Defs(a + b) == Defs(a) + Defs(b)
    decreases |a|
  {
    if |a| == 0 {
      assert a + b == b;
    } else {
      assert (a + b)[0] == a[0];
      assert (a + b)[1..] == a[1..] + b;
      DefsAppend(a[1..], b);
    }
  }

  lemma DefsOne(x: Instr)
    ensures Defs([x]) == if x.Def? then [x.lbl] else []
  {
    assert [x][1..] == [];
  }

  /** Every label defined lies in [lo, hi) and no counter value is defined
      twice. */
  ghost predicate DefsFresh(code: seq<Instr>, lo: nat, hi: nat) {
    var d := Defs(code);
    && (forall i :: 0 <= i < |d| ==> lo <= d[i].n < hi)
    && (forall i, j :: 0 <= i < j < |d| ==> d[i].n != d[j].n)
  }

  predicate IsJump(i: Instr) {
    i.Jz? || i.Jmp?
  }

  /** Every jump in the code targets a label the same code defines. */
  ghost predicate JumpsResolve(code: seq<Instr>) {
    forall i :: 0 <= i < |code| && IsJump(code[i]) ==> code[i].target in Defs(code)
  }

  lemma FreshAppend(a: seq<Instr>, b: seq<Instr>, lo: nat, mid: nat, hi: nat)
    requires lo <= mid <= hi
    requires DefsFresh(a, lo, mid) && DefsFresh(b, mid, hi)
    ensures DefsFresh(a + b, lo, hi)
  {
    DefsAppend(a, b);
    var da, db := Defs(a), Defs(b);
    var d := da + db;
    forall i | 0 <= i < |d| ensures lo <= d[i].n < hi {
      if i < |da| { assert d[i] == da[i]; } else { assert d[i] == db[i - |da|]; }
    }
    forall i, j | 0 <= i < j < |d| ensures d[i].n != d[j].n {
      if j < |da| {
        assert d[i] == da[i] && d[j] == da[j];
      } else if i >= |da| {
        assert d[i] == db[i - |da|] && d[j] == db[j - |da|];
      } else {
        assert d[i] == da[i] && d[j] == db[j - |da|];
      }
    }
  }

  lemma ResolveAppend(a: seq<Instr>, b: seq<Instr>)
    requires JumpsResolve(a) && JumpsResolve(b)
    ensures JumpsResolve(a + b)
  {
    DefsAppend(a, b);
    forall i | 0 <= i < |a + b| && IsJump((a + b)[i]) ensures (a + b)[i].target in Defs(a + b) {
      if i < |a| {
        assert (a + b)[i] == a[i];
      } else {
        assert (a + b)[i] == b[i - |a|];
      }
    }
  }

  lemma {:induction false} NoDefs(code: seq<Instr>)
    requires forall i :: 0 <= i < |code| ==> !code[i].Def?
    ensures Defs(code) == []
    decreases |code|
  {
    if |code| > 0 {
      NoDefs(code[1..]);
    }
  }

  /** Code without labels or jumps. */
  predicate Plain(code: seq<Instr>) {
    forall i :: 0 <= i < |code| ==> !code[i].Def? && !IsJump(code[i])
  }

  lemma {:induction false} PlainFresh(code: seq<Instr>, lo: nat, hi: nat)
    requires Plain(code)
    ensures Defs(code) == []
    ensures DefsFresh(code, lo, hi) && JumpsResolve(code)
    decreases |code|
  {
    if |code| > 0 {
      PlainFresh(code[1..], lo, hi);
    }
  }

  /** The label structure of the `*` placeholder: two labels, defined
      once each, and a jump to the second. */
  lemma MulShapeLabels(p1: seq<Instr>, ls: Label, p2: seq<Instr>, le: Label)
    requires Plain(p1) && Plain(p2)
    ensures var code := p1 + [Def(ls)] + p2 + [Jmp(le), Def(le)];
      Defs(code) == [ls, le] && JumpsResolve(code)
  {
    var tail := [Jmp(le), Def(le)];
    assert Defs(tail) == [le] by {
      assert tail[1..] == [Def(le)];
      DefsOne(Def(le));
    }
    assert JumpsResolve(tail);
    DefsOne(Def(ls));
    assert JumpsResolve([Def(ls)]);
    PlainFresh(p1, 0, 0);
    PlainFresh(p2, 0, 0);
    DefsAppend(p1, [Def(ls)]);
    ResolveAppend(p1, [Def(ls)]);
    DefsAppend(p1 + [Def(ls)], p2);
    ResolveAppend(p1 + [Def(ls)], p2);
    DefsAppend(p1 + [Def(ls)] + p2, tail);
    ResolveAppend(p1 + [Def(ls)] + p2, tail);
  }

  lemma OperatorLabels(op: char, c: Context)
    requires OperatorCode(op, c).Success?
    ensures var g := OperatorCode(op, c).value;
      DefsFresh(g.code, c.labelCounter, g.ctx.labelCounter) && JumpsResolve(g.code)
  {
    var g := OperatorCode(op, c).value;
    if op == '*' {
      var k := c.labelCounter;
      var ls, le := Label("mul_start", k), Label("mul_end", k + 1);
      assert g.code == g.code[..4] + [Def(ls)] + g.code[5..7] + [Jmp(le), Def(le)];
      MulShapeLabels(g.code[..4], ls, g.code[5..7], le);
    } else {
      PlainFresh(g.code, c.labelCounter, g.ctx.labelCounter);
    }
  }

  /** Expression code defines only labels taken from the counter during
      its own generation, each once, and every jump in it stays inside it. */
  lemma {:induction false} GenExprLabels(e: Ast, c: Context)
    requires GenExpr(e, c).Success?
    ensures var g := GenExpr(e, c).value;
      DefsFresh(g.code, c.labelCounter, g.ctx.labelCounter) && JumpsResolve(g.code)
  {
    var g := GenExpr(e, c).value;
    match e
    case BinOp(op, l, r) =>
      var (t1, c1) := AllocTmp(c);
      var gl := GenExpr(l, c1).value;
      var gr := GenExpr(r, gl.ctx).value;
      var (t2, c2) := AllocTmp(gr.ctx);
      var go := OperatorCode(op, c2).value;
      GenExprLabels(l, c1);
      GenExprLabels(r, gl.ctx);
      OperatorLabels(op, c2);
      var spill := [Store(A, t1)];
      var reload := [Load(B, t1), Store(A, t2), Load(A, t1), Load(B, t2)];
      assert g.code == gl.code + spill + gr.code + reload + go.code;
      ChainLabels(gl.code, spill, gr.code, reload, go.code,
                  c.labelCounter, gl.ctx.labelCounter, gr.ctx.labelCounter, go.ctx.labelCounter);
    case _ =>
      PlainFresh(g.code, c.labelCounter, g.ctx.labelCounter);
  }

  /** Label facts for the binary-operation layout: left code, spill, right
      code, reloads, operator code. */
  lemma ChainLabels(a: seq<Instr>, spill: seq<Instr>, b: seq<Instr>, reload: seq<Instr>, o: seq<Instr>,
                    k0: nat, k1: nat, k2: nat, k3: nat)
    requires k0 <= k1 <= k2 <= k3
    requires Plain(spill) && Plain(reload)
    requires DefsFresh(a, k0, k1) && JumpsResolve(a)
    requires DefsFresh(b, k1, k2) && JumpsResolve(b)
    requires DefsFresh(o, k2, k3) && JumpsResolve(o)
    ensures DefsFresh(a + spill + b + reload + o, k0, k3)
    ensures JumpsResolve(a + spill + b + reload + o)
  {
    PlainFresh(spill, k1, k1);
    PlainFresh(reload, k2, k2);
    FreshAppend(a, spill, k0, k1, k1);
    ResolveAppend(a, spill);
    FreshAppend(a + spill, b, k0, k1, k2);
    ResolveAppend(a + spill, b);
    FreshAppend(a + spill + b, reload, k0, k2, k2);
    ResolveAppend(a + spill + b, reload);
    FreshAppend(a + spill + b + reload, o, k0, k2, k3);
    ResolveAppend(a + spill + b + reload, o);
  }

  /** Every jump in `code` targets a label in `ds`. */
  ghost predicate JumpsWithin(code: seq<Instr>, ds: seq<Label>) {
    forall i :: 0 <= i < |code| && IsJump(code[i]) ==> code[i].target in ds
  }

  lemma WithinAppend(x: seq<Instr>, y: seq<Instr>, ds: seq<Label>)
    requires JumpsWithin(x, ds) && JumpsWithin(y, ds)
    ensures JumpsWithin(x + y, ds)
  {
    forall i | 0 <= i < |x + y| && IsJump((x + y)[i]) ensures (x + y)[i].target in ds {
      if i < |x| { assert (x + y)[i] == x[i]; } else { assert (x + y)[i] == y[i - |x|]; }
    }
  }

  /** The labels the `if` layout defines: the condition's, the body's,
      then the end label. */
  lemma IfLayoutDefs(a: seq<Instr>, b: seq<Instr>, l: Label)
    ensures Defs(a + [Ldi(B, 0), Cmp, Jz(l)] + b + [Def(l)]) == Defs(a) + Defs(b) + [l]
  {
    var mid := [Ldi(B, 0), Cmp, Jz(l)];
    var x1 := a + mid;
    assert Defs(x1) == Defs(a) by {
      NoDefs(mid);
      DefsAppend(a, mid);
      assert Defs(a) + [] == Defs(a);
    }
    var x2 := x1 + b;
    assert Defs(x2) == Defs(a) + Defs(b) by {
      DefsAppend(x1, b);
    }
    assert Defs(x2 + [Def(l)]) == Defs(a) + Defs(b) + [l] by {
      DefsOne(Def(l));
      DefsAppend(x2, [Def(l)]);
    }
  }

  /** Code whose jumps resolve inside it keeps them resolved inside any
      label list that contains its own. */
  lemma ResolveWithin(x: seq<Instr>, ds: seq<Label>)
    requires JumpsResolve(x)
    requires forall y :: y in Defs(x) ==> y in ds
    ensures JumpsWithin(x, ds)
  {
  }

  /** Every jump of the `if` layout resolves: the condition's and the
      body's inside their own code, the `jz` to the end label. */
  lemma IfLayoutJumps(a: seq<Instr>, b: seq<Instr>, l: Label)
    requires JumpsResolve(a) && JumpsResolve(b)
    ensures JumpsResolve(a + [Ldi(B, 0), Cmp, Jz(l)] + b + [Def(l)])
  {
    var mid := [Ldi(B, 0), Cmp, Jz(l)];
    var d := Defs(a) + Defs(b) + [l];
    IfLayoutDefs(a, b, l);
    ResolveWithin(a, d);
    ResolveWithin(b, d);
    assert JumpsWithin(mid, d) by {
      assert l == d[|d| - 1];
    }
    assert JumpsWithin([Def(l)], d);
    WithinAppend(a, mid, d);
    WithinAppend(a + mid, b, d);
    WithinAppend(a + mid + b, [Def(l)], d);
  }

  /** Label facts for the `if` layout: condition code, compare-and-jump,
      body code, end label. The end label's counter value is below every
      label of the condition and the body. */
  lemma IfShapeLabels(a: seq<Instr>, b: seq<Instr>, l: Label, m: nat, h: nat)
    requires l.n + 1 <= m <= h
    requires DefsFresh(a, l.n + 1, m) && JumpsResolve(a)
    requires DefsFresh(b, m, h) && JumpsResolve(b)
    ensures var code := a + [Ldi(B, 0), Cmp, Jz(l)] + b + [Def(l)];
      DefsFresh(code, l.n, h) && JumpsResolve(code)
  {
    IfLayoutDefs(a, b, l);
    IfShapeDefs(Defs(a), Defs(b), l, m, h);
    IfLayoutJumps(a, b, l);
  }

  lemma IfShapeDefs(da: seq<Label>, db: seq<Label>, l: Label, m: nat, h: nat)
    requires l.n + 1 <= m <= h
    requires forall i :: 0 <= i < |da| ==> l.n + 1 <= da[i].n < m
    requires forall i, j :: 0 <= i < j < |da| ==> da[i].n != da[j].n
    requires forall i :: 0 <= i < |db| ==> m <= db[i].n < h
    requires forall i, j :: 0 <= i < j < |db| ==> db[i].n != db[j].n
    ensures var d := da + db + [l];
      && (forall i :: 0 <= i < |d| ==> l.n <= d[i].n < h)
      && (forall i, j :: 0 <= i < j < |d| ==> d[i].n != d[j].n)
  {
    var d := da + db + [l];
    forall i | 0 <= i < |d| ensures l.n <= d[i].n < h {
      if i < |da| { assert d[i] == da[i]; }
      else if i < |da| + |db| { assert d[i] == db[i - |da|]; }
    }
    forall i, j | 0 <= i < j < |d| ensures d[i].n != d[j].n {
      if i < |da| { assert d[i] == da[i]; } else if i < |da| + |db| { assert d[i] == db[i - |da|]; }
      if j < |da| { assert d[j] == da[j]; } else if j < |da| + |db| { assert d[j] == db[j - |da|]; }
    }
  }

  lemma {:induction false} GenStmtLabels(s: Ast, c: Context)
    requires GenStmt(s, c).Success?
    ensures var g := GenStmt(s, c).value;
      DefsFresh(g.code, c.labelCounter, g.ctx.labelCounter) && JumpsResolve(g.code)
    decreases s, 1
  {
    var g := GenStmt(s, c).value;
    match s
    case Decl(x, init) =>
      var (addr, t1) := Symbols.Add(c.table, x);
      var c1 := c.(table := t1);
      if init.Some? {
        var gi := GenExpr(init.value, c1).value;
        GenExprLabels(init.value, c1);
        PlainFresh([Store(A, addr)], gi.ctx.labelCounter, gi.ctx.labelCounter);
        FreshAppend(gi.code, [Store(A, addr)], c.labelCounter, gi.ctx.labelCounter, gi.ctx.labelCounter);
        ResolveAppend(gi.code, [Store(A, addr)]);
      } else {
        PlainFresh(g.code, c.labelCounter, g.ctx.labelCounter);
      }
    case Assign(lhs, rhs) =>
      var a := Symbols.GetAddr(c.table, lhs.name);
      var gr := GenExpr(rhs, c).value;
      GenExprLabels(rhs, c);
      PlainFresh([Store(A, a)], gr.ctx.labelCounter, gr.ctx.labelCounter);
      FreshAppend(gr.code, [Store(A, a)], c.labelCounter, gr.ctx.labelCounter, gr.ctx.labelCounter);
      ResolveAppend(gr.code, [Store(A, a)]);
    case If(cond, body) =>
      var (lbl, c1) := NewLabel("if_end", c);
      var gc := GenExpr(cond, c1).value;
      var gb := GenStmts(body, gc.ctx).value;
      GenExprLabels(cond, c1);
      GenStmtsLabels(body, gc.ctx);
      IfShapeLabels(gc.code, gb.code, lbl, gc.ctx.labelCounter, gb.ctx.labelCounter);
    case Block(ss) =>
      GenStmtsLabels(ss, c);
  }

  lemma {:induction false} GenStmtsLabels(ss: seq<Ast>, c: Context)
    requires GenStmts(ss, c).Success?
    ensures var g := GenStmts(ss, c).value;
      DefsFresh(g.code, c.labelCounter, g.ctx.labelCounter) && JumpsResolve(g.code)
    decreases ss, 0
  {
    if |ss| == 0 {
      PlainFresh([], c.labelCounter, c.labelCounter);
    } else {
      var g := GenStmt(ss[0], c).value;
      var h := GenStmts(ss[1..], g.ctx).value;
      GenStmtLabels(ss[0], c);
      GenStmtsLabels(ss[1..], g.ctx);
      FreshAppend(g.code, h.code, c.labelCounter, g.ctx.labelCounter, h.ctx.labelCounter);
      ResolveAppend(g.code, h.code);
    }
  }

  /** Rendering labels is injective: the decimal part has no `_`, so the
      last `_` of the text separates prefix from counter. */
  lemma LabelTextInjective(l1: Label, l2: Label)
    ensures LabelText(l1) == LabelText(l2) <==> l1 == l2
  {
    if LabelText(l1) == LabelText(l2) {
      var t := LabelText(l1);
      var d1, d2 := NatToDecimal(l1.n), NatToDecimal(l2.n);
      assert t == l1.prefix + "_" + d1 && t == l2.prefix + "_" + d2;
      assert forall j :: |t| - |d1| <= j < |t| ==> t[j] == d1[j - (|t| - |d1|)];
      assert forall j :: |t| - |d2| <= j < |t| ==> t[j] == d2[j - (|t| - |d2|)];
      assert t[|t| - |d1| - 1] == '_' && t[|t| - |d2| - 1] == '_';
      assert |d1| == |d2|;
      assert l1.prefix == t[..|l1.prefix|] == l2.prefix;
      assert d1 == t[|t| - |d1|..] == d2;
      DecimalInjective(l1.n, l2.n);
    }
  }

  /** Labels with pairwise distinct counter values print as pairwise
      distinct texts. */
  lemma DistinctTexts(d: seq<Label>)
    requires forall i, j :: 0 <= i < j < |d| ==> d[i].n != d[j].n
    ensures forall i, j :: 0 <= i < j < |d| ==> LabelText(d[i]) != LabelText(d[j])
  {
    forall i, j | 0 <= i < j < |d| ensures LabelText(d[i]) != LabelText(d[j]) {
      LabelTextInjective(d[i], d[j]);
    }
  }

  /** The program's layout around the statements' code. */
  lemma ProgramShape(stmts: seq<Ast>)
    requires GenProgram(stmts).Success?
    ensures var g := GenStmts(stmts, FreshContext);
      && g.Success?
      && GenProgram(stmts).value
         == [Note(Banner), Start] + g.value.code
            + ([Hlt, Note("---- symbol table ----")] + SymbolNotes(g.value.ctx.table.syms))
  {
  }

  /** Over a whole run, no label is defined twice (as a value or as
      printed text) and every jump goes to a label the output defines. */
  lemma GenProgramLabels(stmts: seq<Ast>)
    requires GenProgram(stmts).Success?
    ensures var code := GenProgram(stmts).value;
      var d := Defs(code);
      && JumpsResolve(code)
      && (forall i, j :: 0 <= i < j < |d| ==> LabelText(d[i]) != LabelText(d[j]))
  {
    ProgramShape(stmts);
    var g := GenStmts(stmts, FreshContext).value;
    GenStmtsLabels(stmts, FreshContext);
    var k := g.ctx.labelCounter;
    WrapLabels([Note(Banner), Start], g.code,
               [Hlt, Note("---- symbol table ----")] + SymbolNotes(g.ctx.table.syms), k);
    DistinctTexts(Defs(GenProgram(stmts).value));
  }

  lemma WrapLabels(head: seq<Instr>, body: seq<Instr>, tail: seq<Instr>, k: nat)
    requires Plain(head) && Plain(tail)
    requires DefsFresh(body, 0, k) && JumpsResolve(body)
    ensures DefsFresh(head + body + tail, 0, k) && JumpsResolve(head + body + tail)
  {
    PlainFresh(head, 0, 0);
    PlainFresh(tail, k, k);
    FreshAppend(head, body, 0, 0, k);
    ResolveAppend(head, body);
    FreshAppend(head + body, tail, 0, k, k);
    ResolveAppend(head + body, tail);
  }

  /** `if` lowering: condition code, `ldi B 0`, `cmp`, `jz L`, the body in
      source order, then `L:`. L is `if_end_k` for the counter value k on
      entry, taken before the condition is generated. */
  lemma IfLowering(cond: Ast, body: seq<Ast>, c: Context)
    requires GenStmt(If(cond, body), c).Success?
    ensures var l := Label("if_end", c.labelCounter);
      var gc := GenExpr(cond, c.(labelCounter := c.labelCounter + 1));
      && gc.Success?
      && var gb := GenStmts(body, gc.value.ctx);
      && gb.Success?
      && GenStmt(If(cond, body), c).value.code == gc.value.code + [Ldi(B, 0), Cmp, Jz(l)] + gb.value.code + [Def(l)]
  {
    var (l, c1) := NewLabel("if_end", c);
    assert l == Label("if_end", c.labelCounter) && c1 == c.(labelCounter := c.labelCounter + 1);
  }

  /** Neither the condition nor the body of an `if` defines its end label
      again: everything they define is numbered after it. */
  lemma IfEndFresh(cond: Ast, body: seq<Ast>, c: Context)
    requires GenExpr(cond, c.(labelCounter := c.labelCounter + 1)).Success?
    requires GenStmts(body, GenExpr(cond, c.(labelCounter := c.labelCounter + 1)).value.ctx).Success?
    ensures var l := Label("if_end", c.labelCounter);
      var gc := GenExpr(cond, c.(labelCounter := c.labelCounter + 1)).value;
      && l !in Defs(gc.code) && l !in Defs(GenStmts(body, gc.ctx).value.code)
  {
    var l := Label("if_end", c.labelCounter);
    var c1 := c.(labelCounter := c.labelCounter + 1);
    LabelAbove(cond, c1, l);
    LabelAboveStmts(body, GenExpr(cond, c1).value.ctx, l);
  }

  /** Every label a piece of code defines shows up in its Defs. */
  lemma {:induction false} DefsMember(code: seq<Instr>, i: nat)
    requires i < |code| && code[i].Def?
    ensures code[i].lbl in Defs(code)
    decreases i
  {
    if i > 0 {
      DefsMember(code[1..], i - 1);
      assert code[1..][i - 1] == code[i];
    }
  }

  /** The `jz` of an `if` skips exactly the body: it sits right after the
      condition's code and the compare, the body follows it, and its
      target is defined once, as the very last line of the lowering. */
  lemma IfJumpSkipsBody(cond: Ast, body: seq<Ast>, c: Context)
    requires GenStmt(If(cond, body), c).Success?
    ensures var code := GenStmt(If(cond, body), c).value.code;
      var l := Label("if_end", c.labelCounter);
      var gc := GenExpr(cond, c.(labelCounter := c.labelCounter + 1)).value;
      var gb := GenStmts(body, gc.ctx).value;
      var j := |gc.code| + 2;
      && j < |code| - 1
      && code[j] == Jz(l)
      && code[j + 1..|code| - 1] == gb.code
      && code[|code| - 1] == Def(l)
      && (forall i :: 0 <= i < |code| - 1 ==> code[i] != Def(l))
  {
    IfLowering(cond, body, c);
    IfEndFresh(cond, body, c);
    var gc := GenExpr(cond, c.(labelCounter := c.labelCounter + 1)).value;
    IfLayoutSkip(gc.code, GenStmts(body, gc.ctx).value.code, Label("if_end", c.labelCounter));
  }

  /** The `if` layout around a condition and a body that do not define
      the end label. */
  lemma IfLayoutSkip(a: seq<Instr>, b: seq<Instr>, l: Label)
    requires l !in Defs(a) && l !in Defs(b)
    ensures var code := a + [Ldi(B, 0), Cmp, Jz(l)] + b + [Def(l)];
      var j := |a| + 2;
      && j < |code| - 1
      && code[j] == Jz(l)
      && code[j + 1..|code| - 1] == b
      && code[|code| - 1] == Def(l)
      && (forall i :: 0 <= i < |code| - 1 ==> code[i] != Def(l))
  {
    var code := a + [Ldi(B, 0), Cmp, Jz(l)] + b + [Def(l)];
    var j := |a| + 2;
    assert code[j + 1..|code| - 1] == b;
    forall i | 0 <= i < |code| - 1 ensures code[i] != Def(l) {
      if i < |a| {
        assert code[i] == a[i];
        if code[i] == Def(l) { DefsMember(a, i); }
      } else if i > j {
        assert code[i] == b[i - j - 1];
        if code[i] == Def(l) { DefsMember(b, i - j - 1); }
      }
    }
  }

  lemma LabelAbove(e: Ast, c: Context, l: Label)
    requires GenExpr(e, c).Success? && l.n < c.labelCounter
    ensures l !in Defs(GenExpr(e, c).value.code)
  {
    GenExprLabels(e, c);
    var d := Defs(GenExpr(e, c).value.code);
    assert forall x :: x in d ==> x.n > l.n;
  }

  lemma LabelAboveStmts(ss: seq<Ast>, c: Context, l: Label)
    requires GenStmts(ss, c).Success? && l.n < c.labelCounter
    ensures l !in Defs(GenStmts(ss, c).value.code)
  {
    GenStmtsLabels(ss, c);
    var d := Defs(GenStmts(ss, c).value.code);
    assert forall x :: x in d ==> x.n > l.n;
  }

  /** A declaration registers its name first (so the initialiser may use
      it) and stores to the name's address; without an initialiser it
      stores the immediate 0. A new name gets the next data address. */
  lemma DeclLowering(x: string, init: Option<Ast>, c: Context)
    ensures var (a, t1) := Symbols.Add(c.table, x);
      && Symbols.GetAddr(t1, x) == a
      && (x !in Symbols.Names(c.table) ==> a == c.table.nextDataAddr)
      && (init.None? ==> GenStmt(Decl(x, init), c) == Success(Gen([Ldi(A, 0), Store(A, a)], c.(table := t1))))
      && (init.Some? ==>
            (GenStmt(Decl(x, init), c).Success? <==> GenExpr(init.value, c.(table := t1)).Success?)
            && (GenStmt(Decl(x, init), c).Success? ==>
                  GenStmt(Decl(x, init), c).value.code == GenExpr(init.value, c.(table := t1)).value.code + [Store(A, a)]))
      && GenStmt(Decl(x, Some(Ident(x))), c).Success?
  {
  }

  /** The code `gen_expr` emits for a leaf: a literal loads its low
      eight bits; an identifier loads from its address, and fails when it
      was never declared. */
  lemma ExprLowering(e: Ast, c: Context)
    ensures e.Num? ==> GenExpr(e, c) == Success(Gen([Ldi(A, e.n % 256)], c)) && e.n % 256 < 256
    ensures e.Ident? && e.name in Symbols.Names(c.table) ==>
      GenExpr(e, c) == Success(Gen([Load(A, Symbols.GetAddr(c.table, e.name))], c))
    ensures e.Ident? && e.name !in Symbols.Names(c.table) ==>
      GenExpr(e, c) == Failure(UndefinedVariable(e.name))
  {
  }

  /** The code `gen_expr` emits for a binary operation: it spills the left
      value to the first temporary 0xF0 + tmp_next, taken before the left
      operand is generated, reloads it into B after the right operand,
      swaps the operands through a second temporary taken after the right
      operand, and ends with the operator's code. */
  lemma BinOpLowering(e: Ast, c: Context)
    requires e.BinOp? && GenExpr(e, c).Success?
    ensures var t1 := TmpBase + c.tmpNext;
      var gl := GenExpr(e.left, c.(tmpNext := c.tmpNext + 1));
      && gl.Success?
      && var gr := GenExpr(e.right, gl.value.ctx);
      && gr.Success?
      && var t2 := TmpBase + gr.value.ctx.tmpNext;
      && var go := OperatorCode(e.op, gr.value.ctx.(tmpNext := gr.value.ctx.tmpNext + 1));
      && go.Success?
      && GenExpr(e, c).value
         == Gen(gl.value.code + [Store(A, t1)] + gr.value.code
                + [Load(B, t1), Store(A, t2), Load(A, t1), Load(B, t2)] + go.value.code,
                go.value.ctx)
  {
    var (t1, c1) := AllocTmp(c);
    assert c1 == c.(tmpNext := c.tmpNext + 1);
    var gl := GenExpr(e.left, c1).value;
    var gr := GenExpr(e.right, gl.ctx).value;
    var (t2, c2) := AllocTmp(gr.ctx);
    assert c2 == gr.ctx.(tmpNext := gr.ctx.tmpNext + 1);
  }

  /** An assignment needs an identifier on the left and a declared name;
      then it is the right-hand side's code followed by a store of A to the
      name's address, and nothing is declared. */
  lemma AssignLowering(lhs: Ast, rhs: Ast, c: Context)
    ensures !lhs.Ident? ==> GenStmt(Assign(lhs, rhs), c) == Failure(LeftSideNotIdentifier)
    ensures lhs.Ident? && lhs.name !in Symbols.Names(c.table) ==>
      GenStmt(Assign(lhs, rhs), c) == Failure(AssignToUndeclared(lhs.name))
    ensures lhs.Ident? && lhs.name in Symbols.Names(c.table) ==>
      var a := Symbols.GetAddr(c.table, lhs.name);
      var g := GenStmt(Assign(lhs, rhs), c);
      && (g.Success? <==> GenExpr(rhs, c).Success?)
      && (g.Success? ==> g.value.code == GenExpr(rhs, c).value.code + [Store(A, a)])
      && (g.Success? ==> g.value.ctx.table == c.table)
  {
  }

  /** Every store in `code` writes an address in [lo, hi). */
  ghost predicate StoresWithin(code: seq<Instr>, lo: nat, hi: nat) {
    forall i :: 0 <= i < |code| && code[i].Store? ==> lo <= code[i].addr < hi
  }

  lemma StoresAppend(a: seq<Instr>, b: seq<Instr>, lo: nat, hi: nat)
    requires StoresWithin(a, lo, hi) && StoresWithin(b, lo, hi)
    ensures StoresWithin(a + b, lo, hi)
  {
    forall i | 0 <= i < |a + b| && (a + b)[i].Store? ensures lo <= (a + b)[i].addr < hi {
      if i < |a| { assert (a + b)[i] == a[i]; } else { assert (a + b)[i] == b[i - |a|]; }
    }
  }

  /** The operator's code stores only to the temporaries it takes itself:
      the two operand temporaries of the `*` placeholder. */
  lemma OperatorStores(op: char, c: Context)
    requires OperatorCode(op, c).Success?
    ensures var g := OperatorCode(op, c).value;
      StoresWithin(g.code, TmpBase + c.tmpNext, TmpBase + g.ctx.tmpNext)
  {
  }

  /** Expression code stores only to temporaries taken during its own
      generation; it never writes a variable or an older temporary. */
  lemma {:induction false} GenExprStores(e: Ast, c: Context)
    requires GenExpr(e, c).Success?
    ensures var g := GenExpr(e, c).value;
      StoresWithin(g.code, TmpBase + c.tmpNext, TmpBase + g.ctx.tmpNext)
  {
    var g := GenExpr(e, c).value;
    match e
    case BinOp(op, l, r) =>
      var (t1, c1) := AllocTmp(c);
      var gl := GenExpr(l, c1).value;
      var gr := GenExpr(r, gl.ctx).value;
      var (t2, c2) := AllocTmp(gr.ctx);
      var go := OperatorCode(op, c2).value;
      GenExprStores(l, c1);
      GenExprStores(r, gl.ctx);
      OperatorStores(op, c2);
      var lo, hi := TmpBase + c.tmpNext, TmpBase + g.ctx.tmpNext;
      var spill := [Store(A, t1)];
      var reload := [Load(B, t1), Store(A, t2), Load(A, t1), Load(B, t2)];
      assert g.code == gl.code + spill + gr.code + reload + go.code;
      assert StoresWithin(spill, lo, hi);
      assert StoresWithin(reload, lo, hi);
      StoresAppend(gl.code, spill, lo, hi);
      StoresAppend(gl.code + spill, gr.code, lo, hi);
      StoresAppend(gl.code + spill + gr.code, reload, lo, hi);
      StoresAppend(gl.code + spill + gr.code + reload, go.code, lo, hi);
    case _ =>
  }

  /** In a layout spill, gap, reload, a gap that stores only above the
      spilled address leaves it intact. */
  lemma SpillGap(pre: seq<Instr>, t: nat, gap: seq<Instr>, post: seq<Instr>, lo: nat, hi: nat)
    requires t < lo && StoresWithin(gap, lo, hi)
    ensures var code := pre + [Store(A, t)] + gap + [Load(B, t)] + post;
      && |pre| + 1 + |gap| < |code|
      && code[|pre|] == Store(A, t)
      && code[|pre| + 1 + |gap|] == Load(B, t)
      && (forall i :: |pre| < i < |pre| + 1 + |gap| && code[i].Store? ==> code[i].addr != t)
  {
    var code := pre + [Store(A, t)] + gap + [Load(B, t)] + post;
    var n := |pre|;
    forall i | n < i < n + 1 + |gap| && code[i].Store? ensures code[i].addr != t {
      assert code[i] == gap[i - n - 1];
    }
  }

  /** The spilled left value survives the right operand: between the
      store to the first temporary and its reload into B, no instruction
      writes that temporary. */
  lemma SpillSurvives(e: Ast, c: Context)
    requires e.BinOp? && GenExpr(e, c).Success?
    ensures var t1 := TmpBase + c.tmpNext;
      var code := GenExpr(e, c).value.code;
      var gl := GenExpr(e.left, c.(tmpNext := c.tmpNext + 1)).value;
      var gr := GenExpr(e.right, gl.ctx).value;
      var reload := |gl.code| + 1 + |gr.code|;
      && reload < |code|
      && code[|gl.code|] == Store(A, t1)
      && code[reload] == Load(B, t1)
      && (forall i :: |gl.code| < i < reload && code[i].Store? ==> code[i].addr != t1)
  {
    var (t1, c1) := AllocTmp(c);
    assert c1 == c.(tmpNext := c.tmpNext + 1);
    var gl := GenExpr(e.left, c1).value;
    var gr := GenExpr(e.right, gl.ctx).value;
    var (t2, c2) := AllocTmp(gr.ctx);
    var go := OperatorCode(e.op, c2).value;
    var post := [Store(A, t2), Load(A, t1), Load(B, t2)] + go.code;
    assert GenExpr(e, c).value.code == gl.code + [Store(A, t1)] + gr.code + [Load(B, t1)] + post;
    GenExprStores(e.right, gl.ctx);
    SpillGap(gl.code, t1, gr.code, post, TmpBase + gl.ctx.tmpNext, TmpBase + gr.ctx.tmpNext);
  }

  /** Reading or assigning a name that was never declared fails, whatever
      the right-hand side is. */
  lemma UndeclaredFails(x: string, e: Ast, c: Context)
    requires x !in Symbols.Names(c.table)
    ensures GenExpr(Ident(x), c) == Failure(UndefinedVariable(x))
    ensures GenStmt(Assign(Ident(x), e), c) == Failure(AssignToUndeclared(x))
  {
  }

  /** Where the dump sits: after `hlt` and the table banner, at the very
      end of the program text. */
  lemma DumpLayout(pre: seq<Instr>, syms: seq<Symbols.Sym>)
    requires |pre| >= 1
    ensures var code := pre + [Hlt, Note("---- symbol table ----")] + SymbolNotes(syms);
      && |code| >= |syms| + 3
      && code[|code| - |syms|..] == SymbolNotes(syms)
      && code[|code| - |syms| - 1] == Note("---- symbol table ----")
      && code[|code| - |syms| - 2] == Hlt
  {
    var mid := pre + [Hlt, Note("---- symbol table ----")];
    var code := mid + SymbolNotes(syms);
    assert |code| - |syms| == |mid|;
    assert code[|mid|..] == SymbolNotes(syms);
    assert code[|mid| - 1] == mid[|mid| - 1];
    assert code[|mid| - 2] == mid[|mid| - 2];
  }

  /** `code` ends with the dump of `syms`, a table as `sym_add` builds it
      holding exactly the names the reference check collects from
      `stmts`, in the reference declaration order. */
  ghost predicate EndsWithDump(stmts: seq<Ast>, code: seq<Instr>, syms: seq<Symbols.Sym>) {
    && |code| >= |syms| + 3
    && code[|code| - |syms|..] == SymbolNotes(syms)
    && code[|code| - |syms| - 1] == Note("---- symbol table ----")
    && code[|code| - |syms| - 2] == Hlt
    && (forall k :: 0 <= k < |syms| ==> syms[k].addr == Symbols.DataBase + k)
    && (forall j, k :: 0 <= j < k < |syms| ==> syms[j].name != syms[k].name)
    && CheckStmts(stmts, {}) == Some(set k | 0 <= k < |syms| :: syms[k].name)
    && |DeclOrders(stmts, [])| == |syms|
    && (forall k :: 0 <= k < |syms| ==> syms[k].name == DeclOrders(stmts, [])[k])
  }

  /** The names a successful run declares are the ones the reference
      check collects, and the table it leaves is well formed. */
  lemma RunTable(stmts: seq<Ast>)
    requires GenStmts(stmts, FreshContext).Success?
    ensures var t := GenStmts(stmts, FreshContext).value.ctx.table;
      Symbols.Valid(t) && CheckStmts(stmts, {}) == Some(Symbols.Names(t))
  {
    Symbols.EmptyValid();
    GenStmtsSucceedsIff(stmts, FreshContext);
    assert Symbols.Names(Symbols.EmptyTable) == {};
  }

  /** Reference order of declaration: the names of the `int` declarations
      a statement reaches, each appended to `seen` at its first
      occurrence, walking into `if` bodies and blocks in source order. */
  function DeclOrder(s: Ast, seen: seq<string>): seq<string>
    decreases s, 1
  {
    match s
    case Decl(x, _) => if x in seen then seen else seen + [x]
    case If(_, body) => DeclOrders(body, seen)
    case Block(ss) => DeclOrders(ss, seen)
    case _ => seen
  }

  function DeclOrders(ss: seq<Ast>, seen: seq<string>): seq<string>
    decreases ss, 0
  {
    if |ss| == 0 then seen else DeclOrders(ss[1..], DeclOrder(ss[0], seen))
  }

  /** The names of a table's entries, in table order. */
  function NameSeq(syms: seq<Symbols.Sym>): (r: seq<string>)
    ensures |r| == |syms| && forall k :: 0 <= k < |syms| ==> r[k] == syms[k].name
  {
    if |syms| == 0 then [] else [syms[0].name] + NameSeq(syms[1..])
  }

  lemma NameSeqIn(t: Symbols.SymTable, x: string)
    ensures x in NameSeq(t.syms) <==> x in Symbols.Names(t)
  {
    var ns := NameSeq(t.syms);
    if x in ns {
      var k :| 0 <= k < |ns| && ns[k] == x;
      assert t.syms[k].name == x;
    }
    if x in Symbols.Names(t) {
      var k :| 0 <= k < |t.syms| && t.syms[k].name == x;
      assert ns[k] == x;
    }
  }

  /** `sym_add` extends the name order exactly as the reference does. */
  lemma AddOrder(t: Symbols.SymTable, x: string)
    ensures NameSeq(Symbols.Add(t, x).1.syms)
            == if x in NameSeq(t.syms) then NameSeq(t.syms) else NameSeq(t.syms) + [x]
  {
    NameSeqIn(t, x);
    var t1 := Symbols.Add(t, x).1;
    if x !in Symbols.Names(t) {
      var a, b := NameSeq(t1.syms), NameSeq(t.syms) + [x];
      assert |a| == |b|;
      forall k | 0 <= k < |a| ensures a[k] == b[k] {
        assert t1.syms[k] == (t.syms + [Symbols.Sym(x, t.nextDataAddr)])[k];
      }
    }
  }

  /** A statement that generates leaves its table's entries in the
      reference declaration order. */
  lemma {:induction false} GenStmtOrder(s: Ast, c: Context)
    requires GenStmt(s, c).Success?
    ensures NameSeq(GenStmt(s, c).value.ctx.table.syms) == DeclOrder(s, NameSeq(c.table.syms))
    decreases s, 1
  {
    match s
    case Decl(x, init) =>
      AddOrder(c.table, x);
    case Assign(lhs, rhs) =>
    case If(cond, body) =>
      var c1 := NewLabel("if_end", c).1;
      var g := GenExpr(cond, c1).value;
      GenStmtsOrder(body, g.ctx);
    case Block(ss) =>
      GenStmtsOrder(ss, c);
  }

  lemma {:induction false} GenStmtsOrder(ss: seq<Ast>, c: Context)
    requires GenStmts(ss, c).Success?
    ensures NameSeq(GenStmts(ss, c).value.ctx.table.syms) == DeclOrders(ss, NameSeq(c.table.syms))
    decreases ss, 0
  {
    if |ss| > 0 {
      var g := GenStmt(ss[0], c).value;
      GenStmtOrder(ss[0], c);
      GenStmtsOrder(ss[1..], g.ctx);
    }
  }

  /** The symbol dump at the end of a run lists every declared name once,
      in declaration order, the k-th at address 0x10 + k. */
  lemma GenProgramDump(stmts: seq<Ast>)
    requires GenProgram(stmts).Success?
    ensures exists syms: seq<Symbols.Sym> :: EndsWithDump(stmts, GenProgram(stmts).value, syms)
  {
    var g := GenStmts(stmts, FreshContext).value;
    var syms := g.ctx.table.syms;
    var pre := [Note(Banner), Start] + g.code;
    var code := GenProgram(stmts).value;
    assert code == pre + [Hlt, Note("---- symbol table ----")] + SymbolNotes(syms);
    DumpLayout(pre, syms);
    RunTable(stmts);
    GenStmtsOrder(stmts, FreshContext);
    assert EndsWithDump(stmts, code, syms);
  }

  /** For `int a; int b;` the dump must list `a` before `b`: a table
      holding the two names the other way round is no dump of it. */
  lemma DumpOrderExample(code: seq<Instr>)
    ensures DeclOrders([Decl("a", None), Decl("b", None)], []) == ["a", "b"]
    ensures !EndsWithDump([Decl("a", None), Decl("b", None)], code,
                          [Symbols.Sym("b", 0x10), Symbols.Sym("a", 0x11)])
  {
    var ss := [Decl("a", None), Decl("b", None)];
    assert DeclOrder(ss[0], []) == ["a"];
    assert ss[1..][1..] == [];
    assert DeclOrders(ss, []) == ["a", "b"];
    assert "b" != "a" by { assert "b"[0] != "a"[0]; }
  }
}
