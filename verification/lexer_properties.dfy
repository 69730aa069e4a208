/** The scanner read backwards: tokens written out with a blank before
    each one lex back to the same tokens, followed by the end-of-input
    token. */
module LexerProperties {
  import opened Decimal
  import opened Lexer

  /** A token the scanner can produce from its own text: a word whose kind
      is the keyword test's verdict, a literal below 256 written without
      leading zeros, or a single character that starts neither a word nor
      a literal and is not whitespace. */
  predicate Canonical(t: Token) {
    || (&& |t.text| > 0 && StartsWord(t.text[0])
        && (forall m :: 0 <= m < |t.text| ==> IsWordChar(t.text[m]))
        && t == WordToken(t.text))
    || (t.kind == Number && t.number < 256 && t.text == NatToDecimal(t.number))
    || (&& |t.text| == 1 && !IsSpace(t.text[0]) && !StartsWord(t.text[0]) && !IsDigit(t.text[0])
        && t == Token(PunctKind(t.text[0]), t.text, 0))
  }

  /** The source text: each token's text preceded by one blank. */
  function Spell(ts: seq<Token>): string {
    if |ts| == 0 then "" else " " + ts[0].text + Spell(ts[1..])
  }

  /** `w` occurs in `s` at `i` and is followed by the end or a blank. */
  predicate Delimited(s: string, i: nat, w: string) {
    && i + |w| <= |s|
    && (forall m :: 0 <= m < |w| ==> s[i + m] == w[m])
    && (i + |w| == |s| || s[i + |w|] == ' ')
  }

  /** A word run ends exactly where the delimited word ends. */
  lemma ScanWordDelimited(s: string, i: nat, w: string)
    requires Delimited(s, i, w)
    requires forall m :: 0 <= m < |w| ==> IsWordChar(w[m])
    ensures ScanWord(s, i) == i + |w|
    ensures s[i..i + |w|] == w
  {
    assert forall m :: i <= m < i + |w| ==> s[m] == w[m - i];
  }

  /** A delimited literal's digit run is read back as the number it
      renders. */
  lemma ScanDigitsDelimited(s: string, i: nat, n: nat)
    requires Delimited(s, i, NatToDecimal(n))
    ensures AllDigits(s[i..i]) && 0 == Value(s[i..i])
    ensures ScanDigits(s, i, i, 0) == (i + |NatToDecimal(n)|, n)
  {
    var w := NatToDecimal(n);
    assert s[i..i] == [];
    assert forall m :: i <= m < i + |w| ==> s[m] == w[m - i];
    var r := ScanDigits(s, i, i, 0);
    assert r.0 == i + |w|;
    assert s[i..r.0] == w;
    ValueOfDecimal(n);
  }

  /** The blank before a token is all the whitespace there is. */
  lemma SkipBlank(s: string, i: nat)
    requires i + 1 < |s| && s[i] == ' ' && !IsSpace(s[i + 1])
    ensures SkipWs(s, i) == i + 1
  {
    assert SkipWs(s, i) == SkipWs(s, i + 1);
  }

  lemma GetTokenWord(s: string, i: nat, t: Token)
    requires |t.text| > 0 && StartsWord(t.text[0])
    requires forall m :: 0 <= m < |t.text| ==> IsWordChar(t.text[m])
    requires t == WordToken(t.text)
    requires i < |s| && Delimited(s, i + 1, t.text)
    requires SkipWs(s, i) == i + 1
    ensures GetToken(s, i) == (t, i + 1 + |t.text|)
  {
    ScanWordDelimited(s, i + 1, t.text);
    assert s[i + 1] == t.text[0];
  }

  lemma GetTokenNumber(s: string, i: nat, t: Token)
    requires t.kind == Number && t.number < 256 && t.text == NatToDecimal(t.number)
    requires i < |s| && Delimited(s, i + 1, t.text)
    requires SkipWs(s, i) == i + 1
    ensures GetToken(s, i) == (t, i + 1 + |t.text|)
  {
    ScanDigitsDelimited(s, i + 1, t.number);
    assert s[i + 1] == t.text[0];
    assert IsDigit(s[i + 1]) && !StartsWord(s[i + 1]);
  }

  lemma GetTokenSingle(s: string, i: nat, t: Token)
    requires |t.text| == 1 && !StartsWord(t.text[0]) && !IsDigit(t.text[0])
    requires t == Token(PunctKind(t.text[0]), t.text, 0)
    requires i < |s| && Delimited(s, i + 1, t.text)
    requires SkipWs(s, i) == i + 1
    ensures GetToken(s, i) == (t, i + 2)
  {
    assert s[i + 1] == t.text[0];
    assert [s[i + 1]] == t.text;
  }

  /** One canonical token after a blank: `get_token` skips the blank and
      returns the token, leaving the cursor just after its text. */
  lemma GetTokenCanonical(s: string, i: nat, t: Token)
    requires Canonical(t)
    requires i < |s| && s[i] == ' '
    requires Delimited(s, i + 1, t.text)
    ensures GetToken(s, i) == (t, i + 1 + |t.text|)
  {
    if t.kind == Number && t.number < 256 && t.text == NatToDecimal(t.number) {
      assert s[i + 1 + 0] == t.text[0];
      SkipBlank(s, i);
      GetTokenNumber(s, i, t);
    } else if |t.text| == 1 && !IsSpace(t.text[0]) && !StartsWord(t.text[0]) && !IsDigit(t.text[0]) {
      assert s[i + 1 + 0] == t.text[0];
      SkipBlank(s, i);
      GetTokenSingle(s, i, t);
    } else {
      assert s[i + 1 + 0] == t.text[0];
      SkipBlank(s, i);
      GetTokenWord(s, i, t);
    }
  }

  /** From `i` on, `s` is the spelling of the canonical tokens `ts`: a
      blank, the first token's text ending at a blank or the end, and so
      on to the end of `s`. */
  predicate SpelledAt(s: string, i: nat, ts: seq<Token>)
    decreases |ts|
  {
    if |ts| == 0 then i == |s|
    else
      && i < |s| && s[i] == ' '
      && Canonical(ts[0])
      && Delimited(s, i + 1, ts[0].text)
      && SpelledAt(s, i + 1 + |ts[0].text|, ts[1..])
  }

  lemma SpelledAtCons(s: string, i: nat, ts: seq<Token>)
    requires |ts| > 0 && SpelledAt(s, i, ts)
    ensures i < |s| && s[i] == ' ' && Canonical(ts[0]) && Delimited(s, i + 1, ts[0].text)
    ensures SpelledAt(s, i + 1 + |ts[0].text|, ts[1..])
  {
  }

  /** A word placed after a blank and before a blank-led (or empty) rest
      is delimited there. */
  lemma Placed(p: string, w: string, rest: string)
    requires |rest| == 0 || rest[0] == ' '
    ensures |p| < |p + " " + w + rest| && (p + " " + w + rest)[|p|] == ' '
    ensures Delimited(p + " " + w + rest, |p| + 1, w)
  {
    var p' := p + " " + w;
    var s := p' + rest;
    forall m | 0 <= m < |w|
      ensures s[|p| + 1 + m] == w[m]
    {
      assert s[|p| + 1 + m] == p'[|p| + 1 + m];
    }
    if |rest| > 0 {
      assert s[|p'|] == rest[0];
    }
  }

  /** Where the first spelled token lies. */
  lemma SpellCons(p: string, ts: seq<Token>)
    requires |ts| > 0
    ensures p + Spell(ts) == (p + " " + ts[0].text) + Spell(ts[1..])
    ensures |p| < |p + Spell(ts)| && (p + Spell(ts))[|p|] == ' '
    ensures Delimited(p + Spell(ts), |p| + 1, ts[0].text)
  {
    var rest := Spell(ts[1..]);
    assert |rest| == 0 || rest[0] == ' ';
    assert p + Spell(ts) == p + " " + ts[0].text + rest;
    Placed(p, ts[0].text, rest);
  }

  lemma CanonicalTail(ts: seq<Token>)
    requires |ts| > 0
    requires forall k :: 0 <= k < |ts| ==> Canonical(ts[k])
    ensures Canonical(ts[0])
    ensures forall k :: 0 <= k < |ts[1..]| ==> Canonical(ts[1..][k])
  {
    forall k | 0 <= k < |ts[1..]|
      ensures Canonical(ts[1..][k])
    {
      assert ts[1..][k] == ts[k + 1];
    }
  }

  /** The spelling of canonical tokens, after any prefix, is laid out as
      `SpelledAt` describes. */
  lemma {:induction false} SpellLaidOut(p: string, ts: seq<Token>)
    requires forall k :: 0 <= k < |ts| ==> Canonical(ts[k])
    ensures SpelledAt(p + Spell(ts), |p|, ts)
    decreases |ts|
  {
    if |ts| == 0 {
      assert p + Spell(ts) == p;
    } else {
      var p' := p + " " + ts[0].text;
      SpellCons(p, ts);
      CanonicalTail(ts);
      SpellLaidOut(p', ts[1..]);
      SpelledAtIntro(p + Spell(ts), |p|, ts, |p'|);
    }
  }

  lemma SpelledAtIntro(s: string, i: nat, ts: seq<Token>, j: nat)
    requires |ts| > 0 && i < |s| && s[i] == ' '
    requires Canonical(ts[0]) && Delimited(s, i + 1, ts[0].text)
    requires j == i + 1 + |ts[0].text| && SpelledAt(s, j, ts[1..])
    ensures SpelledAt(s, i, ts)
  {
  }

  /** No canonical token is the end-of-input token. */
  lemma CanonicalNotEof(t: Token)
    requires Canonical(t)
    ensures t.kind != Eof
  {
  }

  /** `LexFrom` takes one token and carries on after it. */
  lemma LexFromStep(s: string, i: nat, t: Token, j: nat, rest: seq<Token>)
    requires i <= |s|
    requires GetToken(s, i) == (t, j) && t.kind != Eof
    requires j <= |s| ==> LexFrom(s, j) == rest
    ensures LexFrom(s, i) == [t] + rest
  {
  }

  lemma ConsSnoc<T>(xs: seq<T>, y: T)
    requires |xs| > 0
    ensures [xs[0]] + (xs[1..] + [y]) == xs + [y]
  {
    assert xs == [xs[0]] + xs[1..];
  }

  /** At the end of the text only the end-of-input token is left. */
  lemma LexAtEnd(s: string)
    ensures LexFrom(s, |s|) == [EofToken]
  {
    assert GetToken(s, |s|).0 == EofToken;
  }

  /** One token in front of text that already lexes back: the token
      comes back first. */
  lemma LexSpelledCons(s: string, i: nat, ts: seq<Token>)
    requires |ts| > 0 && SpelledAt(s, i, ts)
    requires i + 1 + |ts[0].text| <= |s| ==> LexFrom(s, i + 1 + |ts[0].text|) == ts[1..] + [EofToken]
    ensures LexFrom(s, i) == ts + [EofToken]
  {
    SpelledAtCons(s, i, ts);
    LexCanonicalStep(s, i, ts[0], ts[1..] + [EofToken]);
    ConsSnoc(ts, EofToken);
  }

  /** Lexing at a blank followed by a canonical token's text yields that
      token and then whatever the text after it yields. */
  lemma LexCanonicalStep(s: string, i: nat, t: Token, rest: seq<Token>)
    requires i < |s| && s[i] == ' ' && Canonical(t) && Delimited(s, i + 1, t.text)
    requires i + 1 + |t.text| <= |s| ==> LexFrom(s, i + 1 + |t.text|) == rest
    ensures LexFrom(s, i) == [t] + rest
  {
    CanonicalNotEof(t);
    GetTokenCanonical(s, i, t);
    LexFromStep(s, i, t, i + 1 + |t.text|, rest);
  }

  /** Lexing from a point where the rest of the text spells `ts` gives
      `ts` back and then the end-of-input token. */
  lemma {:induction false} LexSpelled(s: string, i: nat, ts: seq<Token>)
    requires SpelledAt(s, i, ts)
    ensures i <= |s|
    ensures LexFrom(s, i) == ts + [EofToken]
    decreases |ts|
  {
    if |ts| == 0 {
      LexAtEnd(s);
    } else {
      var j := i + 1 + |ts[0].text|;
      SpelledAtCons(s, i, ts);
      LexSpelled(s, j, ts[1..]);
      LexSpelledCons(s, i, ts);
    }
  }

  /** Lexing resumed after any prefix reads the spelled tokens back. */
  lemma LexAfterPrefix(p: string, ts: seq<Token>)
    requires forall k :: 0 <= k < |ts| ==> Canonical(ts[k])
    ensures LexFrom(p + Spell(ts), |p|) == ts + [EofToken]
  {
    SpellLaidOut(p, ts);
    LexSpelled(p + Spell(ts), |p|, ts);
  }

  /** The round trip for a whole source text: spelling canonical tokens
      with a blank before each and lexing the result gives the tokens
      back, followed by the end-of-input token. */
  lemma {:induction false} LexSpell(ts: seq<Token>)
    requires forall k :: 0 <= k < |ts| ==> Canonical(ts[k])
    ensures Lex(Spell(ts)) == ts + [EofToken]
  {
    LexAfterPrefix("", ts);
    assert "" + Spell(ts) == Spell(ts);
  }

  /** Every token the scanner returns, other than end of input, is
      canonical: its text alone lexes back to it. */
  lemma GetTokenCanonicalResult(s: string, i: nat)
    requires i <= |s|
    requires GetToken(s, i).0.kind != Eof
    ensures Canonical(GetToken(s, i).0)
  {
    var k := SkipWs(s, i);
    var t := GetToken(s, i).0;
    if StartsWord(s[k]) {
      assert t.text[0] == s[k];
    } else if IsDigit(s[k]) {
    } else {
    }
  }
}
