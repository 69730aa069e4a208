/** The scanner of simple.c (`skip_ws`, `get_token`). The C code reads
    characters one at a time from a file; here the whole input is a string
    and the scanner's cursor is an index into it. */
module Lexer {
  import opened Decimal

  datatype Kind =
    | Eof | Int | If | Identifier | Number
    | Assign | Plus | Minus | Mul | Div
    | LParen | RParen | LBrace | RBrace | Semi
    | Unknown

  /** As in the C struct: a kind, the token's text and, for literals, its
      value. `number` is 0 for every other kind. */
  datatype Token = Token(kind: Kind, text: string, number: nat)

  const EofToken := Token(Eof, "", 0)

  /** The C-locale `isspace`: space, and tab through carriage return. */
  predicate IsSpace(c: char) {
    c == ' ' || '\t' <= c <= '\r'
  }

  predicate IsAlpha(c: char) {
    'a' <= c <= 'z' || 'A' <= c <= 'Z'
  }

  predicate StartsWord(c: char) {
    IsAlpha(c) || c == '_'
  }

  predicate IsWordChar(c: char) {
    IsAlpha(c) || IsDigit(c) || c == '_'
  }

  const Punctuators := "=+-*/(){};"

  /** The kind of a one-character token: each of the ten punctuators has
      a kind of its own, and every other character is Unknown. */
  function PunctKind(c: char): (k: Kind)
    ensures k == Unknown <==> c !in Punctuators
    ensures k !in {Eof, Int, If, Identifier, Number}
  {
    match c
    case '=' => Assign
    case '+' => Plus
    case '-' => Minus
    case '*' => Mul
    case '/' => Div
    case '(' => LParen
    case ')' => RParen
    case '{' => LBrace
    case '}' => RBrace
    case ';' => Semi
    case _ => Unknown
  }

  /** No two punctuators share a kind. */
  lemma PunctKindInjective(c: char, d: char)
    requires c in Punctuators && d in Punctuators
    requires PunctKind(c) == PunctKind(d)
    ensures c == d
  {
  }

  /** Position of the first non-whitespace character at or after `i`. */
  function SkipWs(s: string, i: nat): (j: nat)
    requires i <= |s|
    ensures i <= j <= |s|
    ensures forall k :: i <= k < j ==> IsSpace(s[k])
    ensures j == |s| || !IsSpace(s[j])
    decreases |s| - i
  {
    if i < |s| && IsSpace(s[i]) then SkipWs(s, i + 1) else i
  }

  /** End of the maximal run of word characters starting at `i`. */
  function ScanWord(s: string, i: nat): (j: nat)
    requires i <= |s|
    ensures i <= j <= |s|
    ensures forall k :: i <= k < j ==> IsWordChar(s[k])
    ensures j == |s| || !IsWordChar(s[j])
    decreases |s| - i
  {
    if i < |s| && IsWordChar(s[i]) then ScanWord(s, i + 1) else i
  }

  /** The digit loop of `get_token`: from `i`, keep taking digits and
      accumulate `acc * 10 + digit`. Given that `acc` is the value of the
      digits already read from `start`, the result is the value of the
      whole maximal run. */
  function ScanDigits(s: string, start: nat, i: nat, acc: nat): (r: (nat, nat))
    requires start <= i <= |s|
    requires AllDigits(s[start..i]) && acc == Value(s[start..i])
    ensures i <= r.0 <= |s|
    ensures AllDigits(s[start..r.0]) && r.1 == Value(s[start..r.0])
    ensures r.0 == |s| || !IsDigit(s[r.0])
    decreases |s| - i
  {
    if i < |s| && IsDigit(s[i]) then
      assert s[start..i + 1] == s[start..i] + [s[i]];
      ValueSnoc(s[start..i], s[i]);
      ScanDigits(s, start, i + 1, acc * 10 + DigitValue(s[i]))
    else
      (i, acc)
  }

  function WordToken(w: string): Token {
    if w == "int" then Token(Int, w, 0)
    else if w == "if" then Token(If, w, 0)
    else Token(Identifier, w, 0)
  }

  /** One call of `get_token` with the cursor at `i`: the token and the
      cursor position after it. What it returns is stated by
      `GetTokenSpec` below. */
  function GetToken(s: string, i: nat): (r: (Token, nat))
    requires i <= |s|
    ensures i <= r.1 <= |s|
    ensures r.0.kind != Eof ==> i < r.1
  {
    var k := SkipWs(s, i);
    if k == |s| then
      (EofToken, k)
    else if StartsWord(s[k]) then
      var e := ScanWord(s, k);
      (WordToken(s[k..e]), e)
    else if IsDigit(s[k]) then
      var (e, v) := ScanDigits(s, k, k, 0);
      var n := v % 256;
      (Token(Number, NatToDecimal(n), n), e)
    else
      (Token(PunctKind(s[k]), [s[k]], 0), k + 1)
  }

  /** What one `get_token` call returns. Leading whitespace is skipped;
      then, at the first other character `s[k]`:
      - at the end of input the token is EofToken and nothing is consumed;
      - a letter or `_` starts a word spanning the maximal run of letters,
        digits and `_`, which is the keyword `int` or `if` exactly when it
        spells one and an identifier otherwise;
      - a digit starts a literal spanning the maximal digit run, whose
        number is the run's value modulo 256 and whose text is that
        number in decimal;
      - any other character is consumed alone and becomes a punctuator or
        an Unknown token carrying that character. */
  lemma GetTokenSpec(s: string, i: nat)
    requires i <= |s|
    ensures var r := GetToken(s, i);
      r.0.kind == Eof <==> forall k :: i <= k < |s| ==> IsSpace(s[k])
    ensures var r := GetToken(s, i);
      r.0.kind == Eof ==> r.0 == EofToken && r.1 == |s|
    ensures var r := GetToken(s, i); var k := SkipWs(s, i);
      k < |s| && StartsWord(s[k]) ==>
        && k < r.1
        && (forall m :: k <= m < r.1 ==> IsWordChar(s[m]))
        && (r.1 == |s| || !IsWordChar(s[r.1]))
        && r.0.text == s[k..r.1]
        && (r.0.kind == Int <==> r.0.text == "int")
        && (r.0.kind == If <==> r.0.text == "if")
        && (r.0.kind == Identifier <==> r.0.text !in {"int", "if"})
    ensures var r := GetToken(s, i); var k := SkipWs(s, i);
      k < |s| && IsDigit(s[k]) ==>
        && r.0.kind == Number
        && k < r.1
        && AllDigits(s[k..r.1])
        && (r.1 == |s| || !IsDigit(s[r.1]))
        && r.0.number == Value(s[k..r.1]) % 256
        && r.0.number < 256
        && r.0.text == NatToDecimal(r.0.number)
    ensures var r := GetToken(s, i); var k := SkipWs(s, i);
      k < |s| && !StartsWord(s[k]) && !IsDigit(s[k]) ==>
        && r.1 == k + 1
        && r.0.text == [s[k]]
        && (r.0.kind == Unknown <==> s[k] !in Punctuators)
  {
  }

  /** All tokens from cursor `i` up to and including the end-of-input one. */
  function LexFrom(s: string, i: nat): (r: seq<Token>)
    requires i <= |s|
    ensures 1 <= |r| <= |s| - i + 1
    decreases |s| - i
  {
    var (t, j) := GetToken(s, i);
    if t.kind == Eof then [t] else [t] + LexFrom(s, j)
  }

  /** The stream ends with the end-of-input token and has no other. */
  lemma {:induction false} LexFromEnds(s: string, i: nat)
    requires i <= |s|
    ensures var ts := LexFrom(s, i);
      |ts| >= 1 && ts[|ts| - 1] == EofToken
      && forall k :: 0 <= k < |ts| - 1 ==> ts[k].kind != Eof
    decreases |s| - i
  {
    var (t, j) := GetToken(s, i);
    if t.kind != Eof {
      LexFromEnds(s, j);
      var rest := LexFrom(s, j);
      assert LexFrom(s, i) == [t] + rest;
      assert forall k :: 1 <= k < |rest| + 1 ==> ([t] + rest)[k] == rest[k - 1];
    }
  }

  /** The whole token stream of a source text: every token `get_token`
      returns, in order, ending with the single end-of-input token. */
  function Lex(s: string): (ts: seq<Token>)
    ensures |ts| >= 1 && ts[|ts| - 1] == EofToken
    ensures forall k :: 0 <= k < |ts| - 1 ==> ts[k].kind != Eof
  {
    LexFromEnds(s, 0);
    LexFrom(s, 0)
  }
}
