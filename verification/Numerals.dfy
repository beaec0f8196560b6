/** Numbers written out, and what the evaluator reads back. */
module Numerals {
  import opened Words
  import opened Tokenizer
  import opened Numbers

  const LOWER: string := "0123456789abcdef"
  const UPPER: string := "0123456789ABCDEF"

  /** A number in a base of at most 16, most significant digit first. */
  function Digits(n: nat, base: nat, symbols: string): (r: string)
    requires 2 <= base <= |symbols|
    ensures r != ""
  {
    if n < base then [symbols[n]]
    else
      QuotientFalls(n, base);
      Digits(n / base, base, symbols) + [symbols[n % base]]
  }

  lemma QuotientFalls(n: nat, base: nat)
    requires 2 <= base <= n
    ensures n / base < n && n == n / base * base + n % base && n % base < base
  {
    var q := n / base;
    assert n == q * base + n % base;
  }

  function Decimal(n: nat): string { Digits(n, 10, LOWER) }

  /** strtol gives the largest long for anything larger. */
  function CutOff(n: nat): nat {
    if n < 0x8000_0000_0000_0000 then n else 0x7FFF_FFFF_FFFF_FFFF
  }

  // ----- Digits -----

  lemma SymbolIsDigit(symbols: string, d: nat)
    requires (symbols == LOWER || symbols == UPPER) && d < 16
    ensures DigitValue(symbols[d]) == d
  {
    if d < 8 {
      assert symbols[0] == '0' && symbols[1] == '1' && symbols[2] == '2' && symbols[3] == '3';
      assert symbols[4] == '4' && symbols[5] == '5' && symbols[6] == '6' && symbols[7] == '7';
    } else if symbols == LOWER {
      assert symbols[8] == '8' && symbols[9] == '9' && symbols[10] == 'a' && symbols[11] == 'b';
      assert symbols[12] == 'c' && symbols[13] == 'd' && symbols[14] == 'e' && symbols[15] == 'f';
    } else {
      assert symbols[8] == '8' && symbols[9] == '9' && symbols[10] == 'A' && symbols[11] == 'B';
      assert symbols[12] == 'C' && symbols[13] == 'D' && symbols[14] == 'E' && symbols[15] == 'F';
    }
  }

  lemma {:induction false} DigitsDenote(n: nat, base: nat, symbols: string)
    requires (symbols == LOWER || symbols == UPPER) && 2 <= base <= 16 == |symbols|
    ensures AllDigits(Digits(n, base, symbols), base) && NumeralValue(Digits(n, base, symbols), base) == n
  {
    hide DigitValue;
    if n >= base { QuotientFalls(n, base); }
    var d := if n < base then n else n % base;
    var last := symbols[d];
    SymbolIsDigit(symbols, d);
    if n < base {
      assert [last][..0] == "" && NumeralValue("", base) == 0;
    } else {
      DigitsDenote(n / base, base, symbols);
      var front := Digits(n / base, base, symbols);
      assert (front + [last])[..|front|] == front;
    }
  }

  lemma {:induction false} LeadingDigitsOfAll(s: string, base: nat)
    requires AllDigits(s, base)
    ensures LeadingDigits(s, base) == s
  {
    if s != "" { LeadingDigitsOfAll(s[1..], base); }
  }

  lemma DigitsAreRead(n: nat, base: nat, symbols: string)
    requires (symbols == LOWER || symbols == UPPER) && 2 <= base <= 16 == |symbols|
    ensures StrToL(Digits(n, base, symbols), base) == CutOff(n)
  {
    DigitsDenote(n, base, symbols);
    LeadingDigitsOfAll(Digits(n, base, symbols), base);
  }

  // ----- Tokens -----

  lemma DecimalToken(n: nat)
    ensures LooksLikeNumber(Decimal(n)) && TokenValue(Decimal(n)) == CutOff(n)
  {
    DigitsDenote(n, 10, LOWER);
    DigitsAreRead(n, 10, LOWER);
    var t := Decimal(n);
    assert IsDigit(t[0], 10) && (|t| > 1 ==> IsDigit(t[1], 10));
    hide Digits;
  }

  lemma HexadecimalToken(n: nat, symbols: string)
    requires symbols == LOWER || symbols == UPPER
    ensures var t := "0x" + Digits(n, 16, symbols); LooksLikeNumber(t) && TokenValue(t) == CutOff(n)
  {
    DigitsDenote(n, 16, symbols);
    DigitsAreRead(n, 16, symbols);
    var d := Digits(n, 16, symbols);
    var t := "0x" + d;
    hide Digits;
    assert t[2..] == d && t[..2] == "0x" && t[1] == 'x';
  }

  lemma BinaryToken(n: nat)
    ensures var t := "b" + Digits(n, 2, LOWER); LooksLikeNumber(t) && TokenValue(t) == CutOff(n)
  {
    DigitsDenote(n, 2, LOWER);
    DigitsAreRead(n, 2, LOWER);
    var d := Digits(n, 2, LOWER);
    var t := "b" + d;
    hide Digits;
    assert t[1..] == d && t[0] == 'b';
    assert IsDigit(d[0], 2) && t[1] == d[0];
  }

  // ----- Expressions of such tokens -----

  /** No operator, and no white space. */
  predicate IsWord(s: string) {
    FreeOf(s, {'+', '-', '*', '/', '~', ' ', '\t', '\n', '\r'})
  }

  lemma TrimOfWord(s: string)
    requires IsWord(s)
    ensures Trim(s, BLANKS) == s
  {
    if s != "" { assert s[0] !in BLANKS && s[|s| - 1] !in BLANKS; }
  }

  lemma {:induction false} TrimOfWords(pieces: seq<string>)
    requires forall k | 0 <= k < |pieces| :: IsWord(pieces[k])
    ensures TrimAll(pieces, BLANKS) == pieces
  {
    if pieces != [] {
      TrimOfWords(pieces[..|pieces| - 1]);
      TrimOfWord(pieces[|pieces| - 1]);
    }
  }

  /** Words between operators, the first of them possibly missing in front of a leading operator. */
  lemma WordsAreRead(pieces: seq<string>, ops: seq<char>, modulus: nat)
    requires 0 < modulus && |pieces| == |ops| + 1 && forall k | 0 <= k < |pieces| :: IsWord(pieces[k])
    requires forall k | 0 <= k < |ops| :: ops[k] in {'+', '-', '*', '/', '~'}
    requires (forall k | 0 < k < |pieces| :: pieces[k] != "") && (ops == [] ==> pieces[0] != "")
    requires Proper(if pieces[0] == "" then pieces[1..] else pieces, pieces[0] == "", ops, modulus)
    ensures NumberOf(Glue(pieces, ops), modulus)
            == Value(Exact(if pieces[0] == "" then pieces[1..] else pieces, pieces[0] == "", ops) % modulus)
  {
    hide NumberOf, Exact, Proper, Glue;
    TrimOfWords(pieces);
    forall k | 0 <= k < |pieces| ensures Trim(pieces[k], BLANKS) == pieces[k] && FreeOf(pieces[k], OPERATORS) {
      TrimOfWord(pieces[k]);
    }
    ExpressionMeaning(pieces, ops, modulus);
  }

  predicate IsToken(s: string) {
    s != "" && IsWord(s) && LooksLikeNumber(s)
  }

  lemma OneTerm(s: string, leading: bool, ops: seq<char>, modulus: nat)
    requires IsToken(s) && (leading ==> ops != [])
    ensures Proper([s], leading, ops, modulus)
    ensures Exact([s], leading, ops) == if leading then ExactLeading(ops[0], TokenValue(s)) else TokenValue(s)
  {
    hide TokenValue, LooksLikeNumber, IsWord;
    assert [s][..0] == [];
  }

  lemma TwoTerms(s: string, t: string, leading: bool, ops: seq<char>, modulus: nat)
    requires IsToken(s) && IsToken(t) && |ops| == if leading then 2 else 1
    requires var op := ops[|ops| - 1];
             && op in {'+', '-', '*', '/'}
             && (op == '/' ==> 0 < TokenValue(t) < modulus && 0 <= Exact([s], leading, ops) < modulus)
    ensures Proper([s, t], leading, ops, modulus)
    ensures Exact([s, t], leading, ops) == ExactStep(ops[|ops| - 1], Exact([s], leading, ops), TokenValue(t))
  {
    OneTerm(s, leading, ops, modulus);
    hide TokenValue, LooksLikeNumber, IsWord, ExactStep;
    assert [s, t][..1] == [s];
  }

  /** A number alone. */
  lemma TokenIsRead(s: string, modulus: nat)
    requires 0 < modulus && IsToken(s)
    ensures NumberOf(s, modulus) == Value(TokenValue(s) % modulus)
  {
    hide NumberOf, TokenValue, LooksLikeNumber, IsWord;
    OneTerm(s, false, [], modulus);
    WordsAreRead([s], [], modulus);
  }

  /** A complement. */
  lemma ComplementIsRead(s: string, modulus: nat)
    requires 0 < modulus && IsToken(s)
    ensures NumberOf("~" + s, modulus) == Value((-1 - TokenValue(s)) % modulus)
  {
    hide NumberOf, TokenValue, LooksLikeNumber;
    var pieces, ops := ["", s], ['~'];
    assert IsWord("");
    hide IsWord;
    OneTerm(s, true, ops, modulus);
    assert pieces[1..] == [s] && pieces[..1] == [""] && ops[..0] == [];
    assert Glue([""], []) == "" && Glue(pieces, ops) == "" + ['~'] + s == "~" + s;
    WordsAreRead(pieces, ops, modulus);
  }

  /** A complement less a number. */
  lemma ComplementMinusIsRead(s: string, t: string, modulus: nat)
    requires 0 < modulus && IsToken(s) && IsToken(t)
    ensures NumberOf("~" + s + "-" + t, modulus) == Value((-1 - TokenValue(s) - TokenValue(t)) % modulus)
  {
    hide NumberOf, TokenValue, LooksLikeNumber;
    var pieces, ops := ["", s, t], ['~', '-'];
    assert IsWord("");
    hide IsWord;
    OneTerm(s, true, ops, modulus);
    TwoTerms(s, t, true, ops, modulus);
    assert pieces[1..] == [s, t];
    assert pieces[..2] == ["", s] && ["", s][..1] == [""] && ops[..1] == ['~'] && ['~'][..0] == [];
    assert Glue(["", s], ['~']) == "" + ['~'] + s;
    assert Glue(pieces, ops) == "~" + s + "-" + t;
    WordsAreRead(pieces, ops, modulus);
  }

  /** Two numbers with an arithmetic operator between them. */
  lemma OperationIsRead(s: string, op: char, t: string, modulus: nat)
    requires 0 < modulus && IsToken(s) && IsToken(t) && op in {'+', '-', '*', '/'}
    requires op == '/' ==> 0 < TokenValue(t) < modulus && TokenValue(s) < modulus
    ensures var x, y := TokenValue(s), TokenValue(t);
            NumberOf(s + [op] + t, modulus)
            == Value((if op == '+' then x + y else if op == '-' then x - y else if op == '*' then x * y
                      else assert y > 0; x / y) % modulus)
  {
    hide NumberOf, TokenValue, LooksLikeNumber, IsWord;
    var pieces, ops := [s, t], [op];
    OneTerm(s, false, ops, modulus);
    TwoTerms(s, t, false, ops, modulus);
    assert pieces[..1] == [s] && ops[..0] == [];
    assert Glue([s], []) == s && Glue(pieces, ops) == s + [op] + t;
    WordsAreRead(pieces, ops, modulus);
  }

  // ----- A text for every 64-bit number -----

  lemma {:induction false} DigitsAreWord(n: nat)
    ensures forall k | 0 <= k < |Decimal(n)| :: '0' <= Decimal(n)[k] <= '9'
  {
    DigitsDenote(n, 10, LOWER);
    forall k | 0 <= k < |Decimal(n)| ensures '0' <= Decimal(n)[k] <= '9' {
      assert IsDigit(Decimal(n)[k], 10);
    }
  }

  lemma DecimalIsToken(n: nat)
    ensures IsToken(Decimal(n)) && TokenValue(Decimal(n)) == CutOff(n)
  {
    DigitsAreWord(n);
    DecimalToken(n);
    hide Digits;
  }

  /** Decimal below 2^63, a complement from there on. */
  function NumberText(v: u64): string {
    if v < 0x8000_0000_0000_0000 then Decimal(v) else "~" + Decimal(0xFFFF_FFFF_FFFF_FFFF - v)
  }

  /** A text that starts with an operator, for the numbers that must not look like plain ones. */
  function InvertedText(v: u64): string
    requires v > 0
  {
    if v < 0x8000_0000_0000_0000 then "~" + Decimal(0x7FFF_FFFF_FFFF_FFFF) + "-" + Decimal(0x8000_0000_0000_0000 - v)
    else "~" + Decimal(0xFFFF_FFFF_FFFF_FFFF - v)
  }

  lemma NumberTextIsRead(v: u64)
    ensures NumberOf(NumberText(v), TWO64) == Value(v)
  {
    hide NumberOf, Decimal, TokenValue;
    if v < 0x8000_0000_0000_0000 {
      DecimalIsToken(v);
      TokenIsRead(Decimal(v), TWO64);
    } else {
      DecimalIsToken(0xFFFF_FFFF_FFFF_FFFF - v);
      ComplementIsRead(Decimal(0xFFFF_FFFF_FFFF_FFFF - v), TWO64);
      DivModUnique(v - TWO64, TWO64, -1, v);
    }
  }

  lemma InvertedTextIsRead(v: u64)
    requires v > 0
    ensures NumberOf(InvertedText(v), TWO64) == Value(v) && InvertedText(v)[0] == '~'
  {
    hide NumberOf, Decimal, TokenValue;
    if v < 0x8000_0000_0000_0000 {
      var a, b := Decimal(0x7FFF_FFFF_FFFF_FFFF), Decimal(0x8000_0000_0000_0000 - v);
      DecimalIsToken(0x7FFF_FFFF_FFFF_FFFF);
      DecimalIsToken(0x8000_0000_0000_0000 - v);
      hide IsToken;
      ComplementMinusIsRead(a, b, TWO64);
      assert -1 - TokenValue(a) - TokenValue(b) == v - TWO64;
    } else {
      DecimalIsToken(0xFFFF_FFFF_FFFF_FFFF - v);
      ComplementIsRead(Decimal(0xFFFF_FFFF_FFFF_FFFF - v), TWO64);
    }
    DivModUnique(v - TWO64, TWO64, -1, v);
  }
}
