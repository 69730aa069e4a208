# simplec in Dafny

This is a model of `simple.c`, a one-file compiler. It reads a tiny C-like language:
- `int` declarations with an optional initialiser;
- assignments;
- `if (...) { ... }` without an else;
- `+ - * /` expressions over identifiers and 8-bit literals.

It emits assembly for a two-register (A, B) machine.

The model follows the program's own phases:

| file | module | models |
|---|---|---|
| `results.dfy` | `Results` | the `Result`/`Option` types; every `exit(1)` becomes a `Failure` |
| `decimal.dfy` | `Decimal` | decimal digit strings, `printf("%d")`, and reading digits back |
| `lexer.dfy` | `Lexer` | `skip_ws` and `get_token` over a string; `Lex` is the token stream that repeated `advance` calls produce |
| `syntax.dfy` | `Syntax` | `struct Ast`, one constructor per node type |
| `parser.dfy` | `Parser` | `expect`, `parse_primary`, `parse_term`, `parse_expr`, `parse_statement` and `parse_program`, with the token stream as a sequence and the lookahead as an index |
| `symbols.dfy` | `Symbols` | `sym_get_addr` and `sym_add` |
| `codegen.dfy` | `CodeGen` | `alloc_tmp`, `new_label`, `gen_expr`, `gen_stmt` and `gen_program`; every `emit` is one `Instr`, and `Render` gives the line it prints |
| `compiler.dfy` | `Compiler` | `main` after the file is open: lex, parse, generate, render |

Three modules state properties of the model against independent definitions:
- `LexerProperties` spells canonical tokens out as text and lexes them back.
- `ParserProperties` uses flat expression forms and statement forms built from them, their token sequences and their trees, and states the statement rule's error exits.
- `CodeGenProperties` uses a reference checker for which programs generate, plus label bookkeeping.

The C globals become one `Context` value threaded through the generator:
- the symbol table;
- `next_data_addr`;
- `tmp_next`;
- `label_counter`.

A run starts from `FreshContext`. Constants are as in the source:
- variables are at `0x10 + k`;
- temporaries are at `0xF0 + n`;
- literals are masked to 8 bits;
- labels are `prefix_n`.

Three behaviours of `simple.c` that the model keeps as written:
- **Parentheses.** A parenthesised primary calls the *statement* rule (simple.c:149-153), not the expression rule. So `(1)` is a parse error, and `(x = 1;)` is an assignment node used as an operand. The generator then rejects that node.
- **Binary-operation lowering.** The first temporary is allocated before the left operand is generated. Its reload sequence is `mov B M t1; mov M A t2; mov A M t1; mov B M t2`, as written (simple.c:307-316).
- **`*` and `/`.** These emit the source's fixed placeholder lines and carry no numeric meaning.

## Model

| member | source | states |
|---|---|---|
| Decimal.NatToDecimal | simple.c:66 | the `%d` rendering is a non-empty digit string without a leading zero |
| Decimal.ValueOfDecimal | simple.c:58-66 | reading a rendered number's digits back gives the number |
| Decimal.DecimalInjective | simple.c:66 | distinct numbers render as distinct texts |
| Lexer.PunctKind | simple.c:70-87 | exactly the ten punctuators get a kind of their own, every other character is Unknown, and none is a word, number or end kind |
| Lexer.PunctKindInjective | simple.c:71-80 | no two punctuators share a kind |
| Lexer.SkipWs | simple.c:38-40 | stops at the first non-whitespace character or the end, having passed only whitespace |
| Lexer.ScanWord | simple.c:48-51 | stops at the end of the maximal run of letters, digits and `_` |
| Lexer.ScanDigits | simple.c:59-63 | the accumulated value is the decimal value of the maximal digit run |
| Lexer.GetTokenSpec | simple.c:42-88 | end of input iff only whitespace is left, and then nothing is consumed; a word spans the maximal run and is `int`/`if` exactly when it spells them; a literal spans the maximal digit run, its number is the run's value mod 256 and its text that number in decimal; any other character is consumed alone, and is Unknown iff it is not a punctuator |
| Lexer.GetToken | simple.c:42-88 | the cursor never moves back or past the end, and every token other than end of input consumes at least one character; which token is returned is stated by `GetTokenSpec` |
| Lexer.LexFrom | simple.c:91-92 | repeated `advance` calls from a cursor yield at least one token and at most one more than the characters left |
| Lexer.LexFromEnds | simple.c:42-45 | the token stream ends with the end-of-input token and contains no earlier one |
| Lexer.Lex | simple.c:91-92 | the stream from the start of the text ends with exactly one end-of-input token |
| LexerProperties.GetTokenCanonical | simple.c:42-88 | after a blank, a canonical token's text followed by a blank or the end lexes to that token, leaving the cursor just past its text |
| LexerProperties.LexSpell | simple.c:42-88 | lexing canonical tokens written out with a blank before each gives the tokens back, then end of input |
| LexerProperties.GetTokenCanonicalResult | simple.c:42-88 | every token the scanner returns, other than end of input, is canonical, so the round trip covers all of them |
| Parser.Expect | simple.c:133-139 | succeeds exactly on the expected kind and then consumes one token; otherwise it reports the kind and the token found |
| Parser.ParsePrimary | simple.c:144-158 | a literal or an identifier is one token; anything other than those or `(` is an error naming the token |
| Parser.TermRest | simple.c:165-174 | the loop stops only at a token that is not `*` or `/`, and does nothing when it starts at one |
| Parser.ExprRest | simple.c:176-185 | the loop stops only at a token that is neither additive nor multiplicative, and does nothing when it starts at one that is not additive |
| Parser.ParseTerm | simple.c:165-174 | a parsed product consumes at least one token and stops before any `*` or `/` |
| Parser.ParseExpr | simple.c:176-185 | a parsed expression consumes at least one token and stops before any operator |
| Parser.ParseStatement | simple.c:187-234 | no statement (NULL) exactly at end of input, without consuming anything; any other start than `int`, `if` or an identifier is an error; every statement consumes tokens |
| Parser.ParseDecl | simple.c:188-199 | the `int` branch consumes tokens and yields a statement when it succeeds |
| Parser.ParseIf | simple.c:200-205 | the `if` branch up to `)` consumes tokens and yields a statement when it succeeds |
| Parser.ParseIfBody | simple.c:205-216 | the braced body of an `if` consumes tokens and yields a statement when it succeeds |
| Parser.ParseAssign | simple.c:217-227 | the identifier branch consumes tokens and yields a statement when it succeeds |
| Parser.ParseBlock | simple.c:207-212 | the `if` body loop stops at `}` or end of input and keeps the statements in source order |
| Parser.ParseStatements | simple.c:237-247 | statements are collected in source order after those already read |
| Parser.ParseProgram | simple.c:237-247 | a program that starts at end of input has no statements; any other program that parses has at least one |
| ParserProperties.TermRoundTrip | simple.c:165-174 | the tokens of a flat product, followed by anything but `*` or `/`, parse to its left-folded tree |
| ParserProperties.ExprRoundTrip | simple.c:165-185 | the tokens of a flat expression, followed by anything but an operator, parse to the tree in which `*` and `/` bind tighter than `+` and `-` and each level folds to the left |
| ParserProperties.StmtRoundTrip | simple.c:187-227 | the tokens of any declaration, assignment or `if` form parse back to its tree, consuming exactly those tokens |
| ParserProperties.BlockRoundTrip | simple.c:205-216 | the `if` body loop reads a run of statement forms ended by `}` back to their trees, in source order, after those already read |
| ParserProperties.StatementsRoundTrip | simple.c:237-247 | the program loop reads a run of statement forms ended by the end of input back to their trees, in source order |
| ParserProperties.ProgramRoundTrip | simple.c:237-247 | the tokens of statement forms followed by end of input parse to exactly their trees |
| ParserProperties.ParenRoundTrip | simple.c:149-153 | `(`, the tokens of any statement form and `)` parse as a primary to that statement's tree, consuming exactly those tokens |
| ParserProperties.DeclAssignErrors | simple.c:188-227 | `int` not followed by a name; a missing `;` after `int x`, after `int x = e` or after `x = e`; and a name not followed by `=`: each is reported at the token found |
| ParserProperties.IfErrors | simple.c:200-206 | an `if` without `(`, without `)` after its condition, or without `{` is reported at the token found |
| ParserProperties.IfUnclosed | simple.c:207-213 | an `if` body that runs into the end of input is reported as a missing `}` at the end-of-input token |
| ParserProperties.PrecedenceExamples | simple.c:165-185 | `a-b-c` parses to `(a-b)-c` and `a+b*c` to `a+(b*c)` |
| Compiler.ParenLiteralRejected | simple.c:149-153 | `( 1 )` is a parse error, because the statement rule rejects a literal |
| Compiler.ParenAssignOperand | simple.c:149-153 | `( x = 1 ; )` parses as a primary whose node is an assignment |
| Compiler.ParenAssignParses | simple.c:187-199 | `int y = ( x = 1 ; ) ;` parses to a declaration whose initialiser is an assignment node |
| Compiler.ParenAssignRejected | simple.c:344-346 | the generator rejects that initialiser as an unsupported expression node |
| Compiler.QuirkSpelling | simple.c:42-88 | the text ` int y = ( x = 1 ; ) ;` is those tokens written out, each canonical |
| Compiler.ParenAssignCompile | simple.c:399-410 | the text ` int y = ( x = 1 ; ) ;` lexes and parses, and compiling it fails in the generator with the assignment node as the unsupported expression |
| Symbols.FindFrom | simple.c:261 | finds the first entry with the name, or -1 exactly when none has it |
| Symbols.GetAddr | simple.c:260-263 | -1 exactly when the name was never added; otherwise the address of an entry with that name |
| Symbols.Add | simple.c:264-272 | a present name keeps its address and the table is unchanged; a fresh name is appended at `next_data_addr`, which grows by one; afterwards the name is found at the returned address |
| Symbols.AddIdempotent | simple.c:264-266 | adding a name a second time returns the first address and changes nothing |
| Symbols.EmptyValid | simple.c:256-258 | the empty table starts at address 0x10 |
| Symbols.AddPreservesValid | simple.c:264-272 | every table built by `sym_add` has the k-th entry at 0x10 + k, the next address after the last, and no repeated name |
| Symbols.ValidLookup | simple.c:258-272 | in such a table the k-th declared name is found at 0x10 + k |
| Symbols.AddKeepsOthers | simple.c:264-272 | adding one name never changes where another name is found |
| CodeGen.AllocTmp | simple.c:291-294 | a temporary is 0xF0 plus a counter value never handed out before in the run |
| CodeGen.NewLabel | simple.c:276-281 | a label carries the current counter, which then moves past it |
| CodeGen.OperatorCode | simple.c:317-343 | fails exactly for operators other than `+ - * /`; only `*` takes labels or temporaries |
| CodeGen.GenExpr | simple.c:299-348 | an identifier fails exactly when undeclared; nodes other than literal, identifier and binary operation fail as unsupported; the table is untouched and the counters only grow |
| CodeGen.GenStmt | simple.c:351-383 | the symbol table only grows at its end and stays well formed; the counters only grow |
| CodeGen.GenStmts | simple.c:376-379 | the same for a statement sequence |
| CodeGen.SymbolNotes | simple.c:392-394 | one `; var` line per table entry, in table order |
| CodeGen.GenProgram | simple.c:386-395 | fails exactly when the statements fail; output opens with the banner and `start:` |
| CodeGenProperties.GenExprSucceedsIff | simple.c:299-348 | expression code exists exactly when the reference check accepts the expression |
| CodeGenProperties.GenStmtSucceedsIff | simple.c:351-383 | statement code exists exactly when the reference check accepts it, and the names declared afterwards are the ones the check computes |
| CodeGenProperties.GenStmtsSucceedsIff | simple.c:376-379 | the same for a statement sequence |
| CodeGenProperties.ExprLowering | simple.c:301-306 | a literal emits `ldi A` with its low eight bits; a declared identifier emits `mov A M` from its address; an undeclared one fails |
| CodeGenProperties.BinOpLowering | simple.c:307-317 | a binary operation emits the left code, a spill to 0xF0 + tmp_next (taken before the left operand), the right code, the four reload moves through a second temporary taken after the right operand, then the operator's code |
| CodeGenProperties.AssignLowering | simple.c:363-368 | a non-identifier target and an undeclared name fail with their errors; otherwise the right-hand side's code is followed by `mov M A` to the name's address and nothing is declared |
| CodeGenProperties.OperatorStores | simple.c:322-327 | the operator's code writes only the temporaries it takes itself |
| CodeGenProperties.GenExprStores | simple.c:299-348 | expression code writes only temporaries taken during its own generation, never a variable or an older temporary |
| CodeGenProperties.SpillSurvives | simple.c:308-312 | between the spill of the left value and its reload into B, no instruction writes the spilled temporary |
| CodeGenProperties.GenExprLabels | simple.c:320-335 | expression code defines only labels numbered during its own generation, each once, and its jumps land inside it |
| CodeGenProperties.GenStmtLabels | simple.c:369-377 | the same for statement code, `if` end labels included |
| CodeGenProperties.GenProgramLabels | simple.c:276-281 | in a whole run no label text is printed twice and every jump targets a label that the output defines |
| CodeGenProperties.LabelTextInjective | simple.c:279 | two labels print the same text exactly when they are the same label |
| CodeGenProperties.IfLowering | simple.c:369-377 | `if` lowers to condition code, `ldi B 0`, `cmp`, `jz if_end_k`, the body in source order, `if_end_k:`, with k the counter on entry |
| CodeGenProperties.IfJumpSkipsBody | simple.c:369-377 | the `jz` follows the condition and the compare, the body follows the `jz`, and its target is defined once, as the last line, right after the body |
| CodeGenProperties.IfEndFresh | simple.c:276-281 | the condition and body of an `if` never define its end label again, since the counter moved past it before they were generated |
| CodeGenProperties.DeclLowering | simple.c:353-362 | a declaration registers its name before the initialiser (which may read it), and stores to its address; with no initialiser it emits `ldi A 0` then the store; a new name gets the next data address |
| CodeGenProperties.UndeclaredFails | simple.c:303-366 | reading or assigning a name never declared fails, with the respective error |
| CodeGenProperties.GenStmtOrder | simple.c:264-272 | after a statement the table's names are in the reference declaration order: a name is appended at its first `int`, walking into `if` bodies in source order |
| CodeGenProperties.GenStmtsOrder | simple.c:376-379 | the same for a statement sequence |
| CodeGenProperties.GenProgramDump | simple.c:386-395 | the output ends with `hlt`, the table banner and one line per declared name, in declaration order, the k-th at 0x10 + k, names distinct, exactly those the reference check collects, and the k-th is the k-th name of the reference declaration order |
| CodeGenProperties.DumpOrderExample | simple.c:386-395 | for `int a; int b;` the declaration order is `a`, `b`, and a table listing `b` at 0x10 and `a` at 0x11 is not a dump of that program |
| Compiler.Compile | simple.c:399-410 | a parse error stops the run before generation; successful output opens with the banner and `start:` |
| Compiler.CompileSucceedsIff | simple.c:399-410 | a program that parses compiles exactly when the reference check accepts its statements |

## Left out

- File and stream I/O: `main`'s argument handling, `fopen`/`fgetc`/`fclose` and the character cursor. The input is a string.
- Lexer.GetToken: each character of the input stands for one byte (0..255) of the file, and characters above 255, which `fgetc` cannot return, are not excluded. A NUL byte's Unknown token carries the text `"\0"` here, where the C text is empty because the NUL ends the string; only the payload of the resulting parse error differs.
- Output printing: `emit` appends an `Instr`, and `Render` gives the line's text. Lines that C prints before a later `exit(1)` are not kept; a failing run is only its `Failure`.
- `exit(1)` and the `stderr` messages. Each becomes a `Failure` value naming the error.
- Memory management: `calloc`/`malloc`/`realloc`, capacity doubling, and leaked nodes and labels.
- The 127-character token text and 63-character name truncation. Identifiers are taken to be shorter than that.
- C `int` overflow while accumulating a long digit run. The value is an unbounded natural, then taken modulo 256.
- Locale: `isspace`, `isalpha` and `isdigit` are the C-locale ASCII classes.
- Target-machine semantics: nothing is said about what the emitted code computes, and the `*`/`/` placeholders get no numeric meaning.
- Temporaries that grow past 0xFF, or variables that reach 0xF0. Addresses are unbounded naturals here, and a collision of the two ranges is not detected, exactly as in the source.
- Parser.ParseStatement: its own contract states the end-of-input and unexpected-token exits and that statements consume tokens. What each branch yields is stated by `ParserProperties.StmtRoundTrip`, and the other errors by `ParserProperties.DeclAssignErrors`, `ParserProperties.IfErrors` and `ParserProperties.IfUnclosed`.
- Parser.ParseBlock: its own contract keeps the statements read so far as a prefix. The trees it collects are stated by `ParserProperties.BlockRoundTrip`.
- Parser.ParseStatements: the same; the trees are stated by `ParserProperties.StatementsRoundTrip` and `ParserProperties.ProgramRoundTrip`.
- Parser.ParseDecl: its own contract only bounds the cursor. What the `int` branch yields, and its errors, are stated by `ParserProperties.StmtRoundTrip` and `ParserProperties.DeclAssignErrors`.
- Parser.ParseIf: its own contract only bounds the cursor. What the `if` branch yields, and its errors, are stated by `ParserProperties.StmtRoundTrip`, `ParserProperties.IfErrors` and `ParserProperties.IfUnclosed`.
- Parser.ParseIfBody: the same as `ParseIf`, whose second half it is.
- Parser.ParseAssign: its own contract only bounds the cursor. What the identifier branch yields, and its errors, are stated by `ParserProperties.StmtRoundTrip` and `ParserProperties.DeclAssignErrors`.
- Parser.ParseParenthesised: its own contract only bounds the cursor. What a parenthesised primary yields is stated by `ParserProperties.ParenRoundTrip` for every statement form, and by the `Compiler.Paren*` lemmas on concrete programs.
- CodeGen.Render: the text of each line is its definition. No separate property is stated beyond the label-text injectivity.
