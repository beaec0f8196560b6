/** The expression evaluator of the run-plan compiler: `getNumber<T>` for unsigned T.

    `modulus` is 2^16 or 2^64, the two instances the compiler uses.  strtol's result is the value of
    the longest numeral at the front of the token, cut off at 2^63 - 1. */
module Numbers {
  import opened Words
  import opened Tokenizer

  const OPERATORS: set<char> := {'+', '-', '*', '/', '~'}
  const BLANKS: set<char> := {' ', '\t', '\n', '\r'}

  /** What reading a numeric argument gives: DivisionByZero stands for the trap of an integer division,
      UnknownOperator for the exception thrown on '~' between two numbers. */
  datatype NumberResult = Value(value: nat) | NotANumber | UnknownOperator | DivisionByZero

  // ----- One token -----

  function DigitValue(ch: char): int {
    if '0' <= ch <= '9' then ch as int - '0' as int
    else if 'a' <= ch <= 'f' then ch as int - 'a' as int + 10
    else if 'A' <= ch <= 'F' then ch as int - 'A' as int + 10
    else -1
  }

  predicate IsDigit(ch: char, base: nat) {
    0 <= DigitValue(ch) < base
  }

  predicate AllDigits(s: string, base: nat) {
    forall k | 0 <= k < |s| :: IsDigit(s[k], base)
  }

  function NumeralValue(s: string, base: nat): nat
    requires AllDigits(s, base)
  {
    if s == "" then 0 else NumeralValue(s[..|s| - 1], base) * base + DigitValue(s[|s| - 1])
  }

  function LeadingDigits(s: string, base: nat): (r: string)
    ensures AllDigits(r, base)
  {
    if s != "" && IsDigit(s[0], base) then [s[0]] + LeadingDigits(s[1..], base) else ""
  }

  function StrToL(s: string, base: nat): nat {
    var v := NumeralValue(LeadingDigits(s, base), base);
    if v < TWO63 then v else TWO63 - 1
  }

  predicate IsDecimalChar(ch: char) {
    IsDigit(ch, 10) || ch == '.' || ch == '+' || ch == '-'
  }

  /** The token looks like a number: 0x..., b..., or digits with dots. */
  predicate LooksLikeNumber(t: string)
    requires t != ""
  {
    if "0x" <= t then AllDigits(t[2..], 16)
    else if t[0] == 'b' then AllDigits(t[1..], 2)
    else forall k | 0 <= k < |t| :: IsDecimalChar(t[k])
  }

  function TokenValue(t: string): nat {
    if |t| > 2 && t[1] == 'x' then StrToL(t[2..], 16)
    else if |t| > 1 && t[0] == 'b' then StrToL(t[1..], 2)
    else StrToL(t, 10)
  }

  // ----- A whole expression -----

  function ApplyLeading(op: char, v: nat, modulus: nat): nat
    requires 0 < modulus
  {
    if op == '-' then -(v as int) % modulus
    else if op == '~' then (-1 - v as int) % modulus
    else v
  }

  function Apply(op: char, x: nat, v: nat, modulus: nat): NumberResult
    requires 0 < modulus
  {
    match op
    case '+' => Value((x + v) % modulus)
    case '-' => Value((x - v) % modulus)
    case '*' => Value(x * v % modulus)
    case '/' => if v == 0 then DivisionByZero else Value(x / v)
    case _ => UnknownOperator
  }

  function NonBlank(tokens: seq<string>): (r: seq<string>)
    ensures |r| <= |tokens|
    ensures forall k | 0 <= k < |r| :: r[k] != ""
  {
    if tokens == [] then []
    else
      var r, t := NonBlank(tokens[..|tokens| - 1]), tokens[|tokens| - 1];
      if t == "" then r else r + [t]
  }

  /** The first number has an operator of its own exactly when one blank token stands before it. */
  predicate HasLeading(tokens: seq<string>) {
    |tokens| > 1 && tokens[0] == "" && tokens[1] != ""
  }

  /** Left to right, no precedence; the first token that is not a number ends the reading. */
  function Evaluate(terms: seq<string>, leading: bool, ops: seq<char>, modulus: nat): NumberResult
    requires 0 < modulus
    requires forall k | 0 <= k < |terms| :: terms[k] != ""
    requires |terms| + (if leading then 1 else 0) <= |ops| + 1
  {
    if terms == [] then Value(0)
    else
      var last := |terms| - 1;
      var before := Evaluate(terms[..last], leading, ops, modulus);
      if !before.Value? then before
      else if !LooksLikeNumber(terms[last]) then NotANumber
      else
        var v := TokenValue(terms[last]) % modulus;
        if last == 0 then Value(if leading then ApplyLeading(ops[0], v, modulus) else v)
        else Apply(ops[if leading then last else last - 1], before.value, v, modulus)
  }

  /** The number a text denotes. */
  function NumberOf(s: string, modulus: nat): NumberResult
    requires 0 < modulus
  {
    var tokens := TrimAll(Split(s, OPERATORS), BLANKS);
    SplitCountsCuts(s, OPERATORS);
    LeadingLeavesRoom(tokens);
    Evaluate(NonBlank(tokens), HasLeading(tokens), Cuts(s, OPERATORS), modulus)
  }

  lemma LeadingLeavesRoom(tokens: seq<string>)
    ensures HasLeading(tokens) ==> |NonBlank(tokens)| < |tokens|
  {
    if HasLeading(tokens) { NonBlankDrops(tokens, 1); }
  }

  /** Leading blanks do not count. */
  lemma {:induction false} NonBlankDrops(tokens: seq<string>, n: nat)
    requires n <= |tokens| && forall k | 0 <= k < n :: tokens[k] == ""
    ensures NonBlank(tokens) == NonBlank(tokens[n..])
    ensures |NonBlank(tokens)| <= |tokens| - n
  {
    if n < |tokens| {
      var front := tokens[..|tokens| - 1];
      NonBlankDrops(front, n);
      assert tokens[n..][..|tokens| - n - 1] == front[n..];
    } else if n > 0 {
      var front := tokens[..|tokens| - 1];
      NonBlankDrops(front, n - 1);
      assert front[n - 1..] == [] && tokens[n..] == [];
    }
  }

  // ----- The loops -----

  /** The digit checks of one token. */
  method VerifyToken(number: string) returns (ok: bool)
    requires number != ""
    ensures ok == LooksLikeNumber(number)
  {
    var verified := false;
    if |number| >= 2 && number[..2] == "0x" {
      for i := 2 to |number|
        invariant forall k | 2 <= k < i :: IsDigit(number[k], 16)
      {
        if !IsDigit(number[i], 16) {
          assert !IsDigit(number[2..][i - 2], 16);
          return false;
        }
      }
      verified := true;
    } else if number[0] == 'b' {
      for i := 1 to |number|
        invariant forall k | 1 <= k < i :: IsDigit(number[k], 2)
      {
        if !IsDigit(number[i], 2) {
          assert !IsDigit(number[1..][i - 1], 2);
          return false;
        }
      }
      verified := true;
    }
    if !verified {
      for i := 0 to |number|
        invariant forall k | 0 <= k < i :: IsDecimalChar(number[k])
      {
        if !IsDecimalChar(number[i]) { return false; }
      }
    }
    ok := true;
  }

  /** getNumber<T>: walks the tokens with a running value and two indices, one into the numbers and one
      into the operators. */
  method GetNumber(s: string, modulus: nat) returns (result: NumberResult)
    requires modulus == TWO16 || modulus == TWO64
    ensures result == NumberOf(s, modulus)
    ensures result.Value? ==> result.value < modulus
  {
    hide Evaluate, NonBlank, TrimAll, Split, LooksLikeNumber, TokenValue;
    var numbers, ops := GetVectorFromString(s, OPERATORS, BLANKS);
    assert OPERATORS - BLANKS == OPERATORS;
    var retValue: nat := 0;
    var i, opsi, blankNumberCount := 0, 0, 0;
    ghost var leading := HasLeading(numbers);
    LeadingLeavesRoom(numbers);
    EvaluateNothing(leading, ops, modulus);
    assert numbers[..0] == [];
    for k := 0 to |numbers|
      invariant i == |NonBlank(numbers[..k])| && blankNumberCount == k - i
      invariant i == 0 ==> forall m | 0 <= m < k :: numbers[m] == ""
      invariant opsi == if leading && i > 0 then i else if i > 0 then i - 1 else 0
      invariant i + (if leading then 1 else 0) <= |ops| + 1
      invariant Evaluate(NonBlank(numbers[..k]), leading, ops, modulus) == Value(retValue)
      invariant retValue < modulus
    {
      var number := numbers[k];
      NonBlankNext(numbers, k);
      if number == "" {
        blankNumberCount := blankNumberCount + 1;
        continue;
      }
      EvaluateNext(numbers, k, leading, ops, modulus, retValue);
      EvaluateStops(numbers, k + 1, leading, ops, modulus);
      var ok := VerifyToken(number);
      if !ok { return NotANumber; }
      var tmpValue := TokenValue(number) % modulus;
      if i == 0 {
        retValue := tmpValue;
        if |ops| == |numbers| - blankNumberCount {
          retValue := ApplyLeading(ops[opsi], tmpValue, modulus);
          opsi := opsi + 1;
        }
      } else {
        var r := Apply(ops[opsi], retValue, tmpValue, modulus);
        if !r.Value? { return r; }
        ApplyFits(ops[opsi], retValue, tmpValue, modulus);
        retValue := r.value;
        opsi := opsi + 1;
      }
      i := i + 1;
    }
    assert numbers[..|numbers|] == numbers;
    result := Value(retValue);
  }

  lemma EvaluateNothing(leading: bool, ops: seq<char>, modulus: nat)
    requires 0 < modulus
    ensures NonBlank([]) == [] && Evaluate([], leading, ops, modulus) == Value(0)
  {
  }

  lemma ApplyFits(op: char, x: nat, v: nat, modulus: nat)
    requires x < modulus
    ensures var r := Apply(op, x, v, modulus); r.Value? ==> r.value < modulus
  {
    if v != 0 { QuotientIsSmaller(x, v); }
  }

  lemma NonBlankNext(tokens: seq<string>, k: nat)
    requires k < |tokens|
    ensures tokens[k] == "" ==> NonBlank(tokens[..k + 1]) == NonBlank(tokens[..k])
    ensures tokens[k] != "" ==> NonBlank(tokens[..k + 1]) == NonBlank(tokens[..k]) + [tokens[k]]
    ensures |NonBlank(tokens[..k + 1])| <= |NonBlank(tokens)|
    ensures k + 1 == |tokens| ==> tokens[..k + 1] == tokens
  {
    assert tokens[..k + 1][..k] == tokens[..k];
    NonBlankPrefix(tokens, k + 1);
  }

  /** One more number: exactly one blank token before the first one means a leading operator. */
  lemma EvaluateNext(tokens: seq<string>, k: nat, leading: bool, ops: seq<char>, modulus: nat, x: nat)
    requires 0 < modulus && k < |tokens| && tokens[k] != "" && leading == HasLeading(tokens)
    requires |NonBlank(tokens)| + (if leading then 1 else 0) <= |ops| + 1
    requires |NonBlank(tokens[..k])| <= |NonBlank(tokens)|
    requires |NonBlank(tokens[..k])| == 0 ==> forall m | 0 <= m < k :: tokens[m] == ""
    requires Evaluate(NonBlank(tokens[..k]), leading, ops, modulus) == Value(x)
    ensures |NonBlank(tokens[..k + 1])| <= |NonBlank(tokens)|
    ensures var i := |NonBlank(tokens[..k])|;
            var v := TokenValue(tokens[k]) % modulus;
            && (i == 0 ==> (leading <==> k == 1))
            && (i > 0 ==> (if leading then i else i - 1) < |ops|)
            && Evaluate(NonBlank(tokens[..k + 1]), leading, ops, modulus) ==
               if !LooksLikeNumber(tokens[k]) then NotANumber
               else if i == 0 then Value(if leading then ApplyLeading(ops[0], v, modulus) else v)
               else Apply(ops[if leading then i else i - 1], x, v, modulus)
  {
    NonBlankNext(tokens, k);
    var done := NonBlank(tokens[..k]);
    assert (done + [tokens[k]])[..|done|] == done;
  }

  lemma NonBlankPrefix(tokens: seq<string>, k: nat)
    requires k <= |tokens|
    ensures |NonBlank(tokens[..k])| <= |NonBlank(tokens)| && NonBlank(tokens[..k]) <= NonBlank(tokens)
    decreases |tokens| - k
  {
    if k < |tokens| {
      assert tokens[..k + 1][..k] == tokens[..k];
      NonBlankPrefix(tokens, k + 1);
    } else {
      assert tokens[..k] == tokens;
    }
  }

  /** An error found in a prefix of the tokens is the result. */
  lemma {:induction false} EvaluateStops(tokens: seq<string>, k: nat, leading: bool, ops: seq<char>, modulus: nat)
    requires 0 < modulus && k <= |tokens|
    requires |NonBlank(tokens)| + (if leading then 1 else 0) <= |ops| + 1
    ensures |NonBlank(tokens[..k])| <= |NonBlank(tokens)|
    ensures var r := Evaluate(NonBlank(tokens[..k]), leading, ops, modulus);
            !r.Value? ==> Evaluate(NonBlank(tokens), leading, ops, modulus) == r
    decreases |tokens|
  {
    NonBlankPrefix(tokens, k);
    if k == |tokens| {
      assert tokens[..k] == tokens;
    } else {
      var front := tokens[..|tokens| - 1];
      assert front[..k] == tokens[..k];
      EvaluateStops(front, k, leading, ops, modulus);
      var all := NonBlank(tokens);
      if tokens[|tokens| - 1] != "" { assert all[..|all| - 1] == NonBlank(front); }
    }
  }

  // ----- What an expression means -----

  /** One step of ordinary integer arithmetic. */
  function ExactStep(op: char, x: int, v: nat): int {
    match op
    case '+' => x + v
    case '-' => x - v
    case '*' => x * v
    case '/' => if v == 0 then 0 else x / v
    case _ => x
  }

  function ExactLeading(op: char, v: nat): int {
    if op == '-' then 0 - v else if op == '~' then -1 - v else v
  }

  /** The terms combined from left to right over the integers. */
  function Exact(terms: seq<string>, leading: bool, ops: seq<char>): int
    requires terms != [] && |terms| + (if leading then 1 else 0) <= |ops| + 1
  {
    var last := |terms| - 1;
    var v := TokenValue(terms[last]);
    if last == 0 then if leading then ExactLeading(ops[0], v) else v
    else ExactStep(ops[if leading then last else last - 1], Exact(terms[..last], leading, ops), v)
  }

  /** The texts the evaluator is for: every term is a number, the operators between terms are the four
      arithmetic ones, and a division has a dividend and a divisor (not zero) that fit the type. */
  predicate Proper(terms: seq<string>, leading: bool, ops: seq<char>, modulus: nat)
    requires |terms| + (if leading then 1 else 0) <= |ops| + 1
  {
    terms != [] ==>
      var last := |terms| - 1;
      && Proper(terms[..last], leading, ops, modulus)
      && terms[last] != "" && LooksLikeNumber(terms[last])
      && (last > 0 ==>
            var op := ops[if leading then last else last - 1];
            && op in {'+', '-', '*', '/'}
            && (op == '/' ==>
                  0 < TokenValue(terms[last]) < modulus && 0 <= Exact(terms[..last], leading, ops) < modulus))
  }

  lemma ModIsUnique(x: int, y: int, k: int, m: int)
    requires 0 < m && x == y + k * m
    ensures x % m == y % m
  {
    var q, r := y / m, y % m;
    assert y == q * m + r;
    assert x == (q + k) * m + r by { assert (q + k) * m == q * m + k * m; }
    DivModUnique(x, m, q + k, r);
  }

  lemma ModLeft(x: int, y: int, m: int)
    requires 0 < m
    ensures (x % m + y) % m == (x + y) % m
  {
    ModIsUnique(x + y, x % m + y, x / m, m);
  }

  lemma ModRight(x: int, y: int, m: int)
    requires 0 < m
    ensures (x - y % m) % m == (x - y) % m
  {
    var k := 0 - y / m;
    assert k * m == 0 - (y / m) * m;
    ModIsUnique(x - y, x - y % m, k, m);
  }

  lemma ModOfSum(x: int, y: int, m: int)
    requires 0 < m
    ensures (x % m + y % m) % m == (x + y) % m
    ensures (x % m - y % m) % m == (x - y) % m
  {
    var a, b := x % m, y % m;
    ModLeft(x, b, m);
    ModLeft(y, x, m);
    ModLeft(x, 0 - b, m);
    ModRight(x, y, m);
    assert a + b == b + a && x + b == b + x;
  }

  lemma ModOfProduct(x: int, y: int, m: int)
    requires 0 < m
    ensures (x % m) * (y % m) % m == x * y % m
  {
    Expand(x % m, y % m, x / m, y / m, m);
    ModIsUnique(x * y, (x % m) * (y % m), (x / m) * y + (x % m) * (y / m), m);
  }

  lemma Expand(a: int, b: int, k: int, l: int, m: int)
    ensures (k * m + a) * (l * m + b) == a * b + (k * (l * m + b) + a * l) * m
  {
    var y := l * m + b;
    assert (k * m + a) * y == k * m * y + a * y;
    assert a * y == a * (l * m) + a * b;
    assert a * (l * m) == (a * l) * m;
    assert k * m * y == (k * y) * m;
    assert (k * y + a * l) * m == (k * y) * m + (a * l) * m;
  }

  lemma ModOfLeading(op: char, v: nat, m: nat)
    requires 0 < m
    ensures ApplyLeading(op, v % m, m) == ExactLeading(op, v) % m
  {
    ModRight(0, v, m);
    ModRight(-1, v, m);
  }

  /** The running value is the exact result modulo the width of T, at every step. */
  lemma {:induction false} EvaluateIsExact(terms: seq<string>, leading: bool, ops: seq<char>, modulus: nat)
    requires 0 < modulus && terms != []
    requires |terms| + (if leading then 1 else 0) <= |ops| + 1
    requires forall k | 0 <= k < |terms| :: terms[k] != ""
    requires Proper(terms, leading, ops, modulus)
    ensures Evaluate(terms, leading, ops, modulus) == Value(Exact(terms, leading, ops) % modulus)
  {
    var last := |terms| - 1;
    var v := TokenValue(terms[last]);
    if last == 0 {
      assert terms[..0] == [];
      if leading { ModOfLeading(ops[0], v, modulus); }
    } else {
      EvaluateIsExact(terms[..last], leading, ops, modulus);
      var x := Exact(terms[..last], leading, ops);
      var op := ops[if leading then last else last - 1];
      ModOfSum(x, v, modulus);
      ModOfProduct(x, v, modulus);
      if op == '/' {
        DivModUnique(x, modulus, 0, x);
        DivModUnique(v, modulus, 0, v);
        QuotientFits(x, v, modulus);
      }
    }
  }

  lemma QuotientFits(x: nat, v: nat, m: nat)
    requires 0 < v && x < m
    ensures (x / v) % m == x / v
  {
    QuotientIsSmaller(x, v);
    DivModUnique(x / v, m, 0, x / v);
  }

  lemma QuotientIsSmaller(x: nat, v: nat)
    requires 0 < v
    ensures x / v <= x
  {
    ProductIsLarger(x / v, v);
  }

  lemma ProductIsLarger(q: nat, v: nat)
    requires 0 < v
    ensures q * v >= q
  {
    assert q * (v - 1) >= 0;
  }

  /** A text is read as its author meant it.

      Take terms and operators, glue them together (with white space around the terms if you like):
      when the result is Proper, getNumber gives the exact value modulo 2^16 or 2^64. */
  lemma ExpressionMeaning(pieces: seq<string>, ops: seq<char>, modulus: nat)
    requires 0 < modulus && |pieces| == |ops| + 1
    requires forall k | 0 <= k < |pieces| :: FreeOf(pieces[k], OPERATORS)
    requires forall k | 0 <= k < |ops| :: ops[k] in OPERATORS
    requires forall k | 0 < k < |pieces| :: Trim(pieces[k], BLANKS) != ""
    requires ops == [] ==> Trim(pieces[0], BLANKS) != ""
    ensures var tokens := TrimAll(pieces, BLANKS);
            var leading := tokens[0] == "";
            var terms := if leading then tokens[1..] else tokens;
            Proper(terms, leading, ops, modulus) ==>
              NumberOf(Glue(pieces, ops), modulus) == Value(Exact(terms, leading, ops) % modulus)
  {
    GlueSplits(pieces, ops, OPERATORS);
    var tokens := TrimAll(pieces, BLANKS);
    TrimAllAt(pieces, BLANKS);
    var leading := tokens[0] == "";
    var terms := if leading then tokens[1..] else tokens;
    if leading {
      NonBlankDrops(tokens, 1);
    }
    NonBlankIsAll(terms);
    assert HasLeading(tokens) == leading;
    if Proper(terms, leading, ops, modulus) {
      EvaluateIsExact(terms, leading, ops, modulus);
    }
  }

  lemma {:induction false} TrimAllAt(pieces: seq<string>, white: set<char>)
    ensures forall k | 0 <= k < |pieces| :: TrimAll(pieces, white)[k] == Trim(pieces[k], white)
  {
    if pieces != [] { TrimAllAt(pieces[..|pieces| - 1], white); }
  }

  lemma {:induction false} NonBlankIsAll(tokens: seq<string>)
    requires forall k | 0 <= k < |tokens| :: tokens[k] != ""
    ensures NonBlank(tokens) == tokens
  {
    if tokens != [] { NonBlankIsAll(tokens[..|tokens| - 1]); }
  }
}
