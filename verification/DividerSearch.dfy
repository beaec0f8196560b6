/** The search for oscillator dividers.  Doubles are modelled as real numbers. */
module DividerSearch {

  const MIN_FREQ: real := 4850000000.0
  const MAX_FREQ: real := 5670000000.0
  const HSDIV_VALUES: seq<int> := [11, 9, 7, 6, 5, 4]

  /** The oscillator's internal frequency for a pair of dividers. */
  function Dco(hsdiv: int, n1: int, target: real): real {
    hsdiv as real * n1 as real * target
  }

  predicate IsN1(n: int) {
    n == 1 || (n % 2 == 0 && 2 <= n <= 128)
  }

  predicate InWindow(f: real) {
    MIN_FREQ <= f <= MAX_FREQ
  }

  /** A pair the search may choose: in the window, except N1 = 1 on its lower edge. */
  predicate Eligible(hsdiv: int, n1: int, target: real) {
    && hsdiv in HSDIV_VALUES && IsN1(n1) && InWindow(Dco(hsdiv, n1, target))
    && !(n1 == 1 && Dco(hsdiv, n1, target) == MIN_FREQ)
  }

  /** The largest HSDIV with an eligible N1, and the least such N1. */
  ghost predicate Best(hsdiv: int, n1: int, target: real) {
    && Eligible(hsdiv, n1, target)
    && (forall h, n | Eligible(h, n, target) :: h <= hsdiv)
    && (forall n | Eligible(hsdiv, n, target) :: n1 <= n)
  }

  /** N1 as the inner loop leaves it: the first of 1, 2, 4, ... above, or from 2 on at, the lower edge. */
  predicate FirstAbove(hsdiv: int, n1: int, target: real) {
    && IsN1(n1)
    && (if n1 == 1 then Dco(hsdiv, 1, target) > MIN_FREQ
        else Dco(hsdiv, 1, target) <= MIN_FREQ <= Dco(hsdiv, n1, target)
             && (n1 > 2 ==> Dco(hsdiv, n1 - 2, target) < MIN_FREQ))
  }

  predicate OutOfReach(hsdiv: int, target: real) {
    Dco(hsdiv, 128, target) < MIN_FREQ
  }

  lemma ComparesAsQuotient(n: real, m: real, d: real)
    requires d > 0.0
    ensures n < m / d <==> n * d < m
    ensures n > m / d <==> n * d > m
  {
    assert m / d * d == m;
    if n < m / d { MultiplyLess(n, m / d, d); }
    if n > m / d { MultiplyLess(m / d, n, d); }
  }

  lemma MultiplyLess(x: real, y: real, d: real)
    requires d > 0.0 && x < y
    ensures x * d < y * d
  {
    assert (y - x) * d > 0.0;
  }

  lemma DcoGrows(h: int, n: int, k: int, m: int, target: real)
    requires target > 0.0 && 0 < h <= k && 0 < n <= m
    ensures Dco(h, n, target) <= Dco(k, m, target)
  {
    ProductGrows(h as real, n as real, k as real, m as real);
    ProductGrows(h as real * n as real, target, k as real * m as real, target);
  }

  lemma ProductGrows(a: real, b: real, c: real, d: real)
    requires 0.0 <= a <= c && 0.0 <= b <= d
    ensures 0.0 <= a * b <= c * d
  {
    assert c * d - a * b == (c - a) * d + a * (d - b);
  }

  /** Before the first N1 the window is not reached. */
  lemma FirstIsLeast(h: int, n1: int, n: int, target: real)
    requires target > 0.0 && FirstAbove(h, n1, target) && Eligible(h, n, target)
    ensures n1 <= n && Dco(h, n1, target) <= Dco(h, n, target)
  {
    if n < n1 {
      if n1 == 2 { assert false; }
      DcoGrows(h, n, h, n1 - 2, target);
    }
    DcoGrows(h, n1, h, n, target);
  }

  /** The inner loop, for a minimum that is not above 128. */
  method FirstN1(hsdiv: int, target: real, minN: real) returns (thisN: int)
    requires hsdiv in HSDIV_VALUES && target != 0.0 && minN == MIN_FREQ / (target * hsdiv as real) && minN <= 128.0
    ensures IsN1(thisN)
    ensures target > 0.0 ==> FirstAbove(hsdiv, thisN, target)
    ensures target < 0.0 ==> thisN == 1
  {
    thisN := 2;
    if target < 0.0 {
      NegativeQuotient(target, hsdiv as real);
    } else {
      N1Compares(hsdiv, 1, target);
    }
    if minN < 1.0 { thisN := 1; }
    while (thisN as real) < minN
      invariant IsN1(thisN) && (thisN == 1 <==> minN < 1.0)
      invariant thisN > 2 ==> (thisN - 2) as real < minN
      decreases 130 - thisN
    {
      thisN := thisN + 2;
    }
    if target > 0.0 {
      N1Compares(hsdiv, thisN, target);
      N1Compares(hsdiv, thisN - 2, target);
    }
  }

  lemma NegativeQuotient(target: real, h: real)
    requires target < 0.0 && h > 0.0
    ensures MIN_FREQ / (target * h) < 0.0
  {
    var d := target * h;
    assert d < 0.0;
    assert MIN_FREQ / d * d == MIN_FREQ;
  }

  lemma N1Compares(h: int, n: int, target: real)
    requires target > 0.0 && h > 0
    ensures n as real < MIN_FREQ / (target * h as real) <==> Dco(h, n, target) < MIN_FREQ
    ensures n as real > MIN_FREQ / (target * h as real) <==> Dco(h, n, target) > MIN_FREQ
  {
    assert target * h as real > 0.0;
    ComparesAsQuotient(n as real, MIN_FREQ, target * h as real);
    assert n as real * (target * h as real) == h as real * n as real * target;
  }

  /** What the first loop adds for one HSDIV. */
  predicate Candidate(hsdiv: int, value: (int, real), target: real) {
    && IsN1(value.0) && value.1 == Dco(hsdiv, value.0, target)
    && (target > 0.0 ==> FirstAbove(hsdiv, value.0, target))
    && (target < 0.0 ==> value.0 == 1)
  }

  /** The first loop; its break ends the list.  A target of zero makes the quotient infinite, above 128. */
  method ListCandidates(target: real) returns (values: seq<(int, real)>)
    ensures |values| <= 6 && forall i | 0 <= i < |values| :: Candidate(HSDIV_VALUES[i], values[i], target)
    ensures target > 0.0 && |values| < 6 ==> OutOfReach(HSDIV_VALUES[|values|], target)
    ensures target == 0.0 ==> values == []
    ensures target < 0.0 ==> |values| == 6
  {
    values := [];
    for i := 0 to 6
      invariant |values| == i && (target == 0.0 ==> i == 0)
      invariant forall j | 0 <= j < i :: Candidate(HSDIV_VALUES[j], values[j], target)
    {
      var hsdiv := HSDIV_VALUES[i];
      if target == 0.0 { break; }
      var minN := MIN_FREQ / (target * hsdiv as real);
      if target > 0.0 { N1Compares(hsdiv, 128, target); } else { NegativeQuotient(target, hsdiv as real); }
      if minN > 128.0 { break; }
      var thisN := FirstN1(hsdiv, target, minN);
      values := values + [(thisN, Dco(hsdiv, thisN, target))];
    }
  }

  /** Nothing is eligible before the first candidate that is not above the window. */
  lemma NotChosen(values: seq<(int, real)>, k: nat, target: real)
    requires target > 0.0 && k <= |values| <= 6
    requires forall i | 0 <= i < k :: Candidate(HSDIV_VALUES[i], values[i], target) && values[i].1 > MAX_FREQ
    ensures forall h, n, i | 0 <= i < k && h == HSDIV_VALUES[i] :: !Eligible(h, n, target)
  {
    forall h, n, i | 0 <= i < k && h == HSDIV_VALUES[i]
      ensures !Eligible(h, n, target)
    {
      if Eligible(h, n, target) { FirstIsLeast(h, values[i].0, n, target); }
    }
  }

  /** Nothing is eligible from an HSDIV out of reach on. */
  lemma BeyondReach(k: nat, target: real)
    requires target > 0.0 && k < 6 && OutOfReach(HSDIV_VALUES[k], target)
    ensures forall h, n | h in HSDIV_VALUES && h <= HSDIV_VALUES[k] :: !Eligible(h, n, target)
  {
    forall h, n | h in HSDIV_VALUES && h <= HSDIV_VALUES[k]
      ensures !Eligible(h, n, target)
    {
      if Eligible(h, n, target) { DcoGrows(h, n, HSDIV_VALUES[k], 128, target); }
    }
  }

  /** The two loops of CalculateFrequencyForProgramming_: HSDIV 0 when there is no solution. */
  method SearchDividers(target: real) returns (hsdiv: int, n1: int, fdco: real)
    ensures target > 0.0 ==> if hsdiv == 0 then forall h, n :: !Eligible(h, n, target) else Best(hsdiv, n1, target)
    ensures if hsdiv == 0 then n1 == 0 && fdco == 0.0
            else hsdiv in HSDIV_VALUES && IsN1(n1) && fdco == Dco(hsdiv, n1, target)
    ensures target == 0.0 ==> hsdiv == 0
    ensures target < 0.0 ==> hsdiv == 11 && n1 == 1
  {
    var parameterValues := ListCandidates(target);
    var counter := -1;
    hsdiv, n1, fdco := 0, 0, 0.0;
    for k := 0 to |parameterValues|
      invariant counter == k - 1 && hsdiv == 0 && n1 == 0 && fdco == 0.0
      invariant forall i | 0 <= i < k :: parameterValues[i].1 > MAX_FREQ
      invariant target < 0.0 ==> k == 0
    {
      var values := parameterValues[k];
      counter := counter + 1;
      assert Candidate(HSDIV_VALUES[k], values, target);
      if target < 0.0 { NegativeDco(target); }
      if values.1 > MAX_FREQ { continue; }
      hsdiv, n1, fdco := HSDIV_VALUES[counter], values.0, values.1;
      if target > 0.0 { ChosenIsBest(parameterValues, k, target); }
      return;
    }
    if target > 0.0 { NoneChosen(parameterValues, target); }
  }

  lemma NegativeDco(target: real)
    requires target < 0.0
    ensures Dco(11, 1, target) < 0.0
  {
  }

  lemma ChosenIsBest(values: seq<(int, real)>, k: nat, target: real)
    requires target > 0.0 && k < |values| <= 6
    requires forall i | 0 <= i < |values| :: Candidate(HSDIV_VALUES[i], values[i], target)
    requires forall i | 0 <= i < k :: values[i].1 > MAX_FREQ
    requires values[k].1 <= MAX_FREQ
    ensures Best(HSDIV_VALUES[k], values[k].0, target)
  {
    var hsdiv, n1 := HSDIV_VALUES[k], values[k].0;
    assert Candidate(hsdiv, values[k], target);
    NotChosen(values, k, target);
    forall h, n | Eligible(h, n, target) ensures h <= hsdiv {
      var i :| 0 <= i < 6 && HSDIV_VALUES[i] == h;
      if i < k { assert false; }
    }
    forall n | Eligible(hsdiv, n, target) ensures n1 <= n {
      FirstIsLeast(hsdiv, n1, n, target);
    }
  }

  lemma NoneChosen(values: seq<(int, real)>, target: real)
    requires target > 0.0 && |values| <= 6
    requires forall i | 0 <= i < |values| :: Candidate(HSDIV_VALUES[i], values[i], target) && values[i].1 > MAX_FREQ
    requires |values| < 6 ==> OutOfReach(HSDIV_VALUES[|values|], target)
    ensures forall h, n :: !Eligible(h, n, target)
  {
    NotChosen(values, |values|, target);
    if |values| < 6 { BeyondReach(|values|, target); }
    forall h, n ensures !Eligible(h, n, target) {
      if h in HSDIV_VALUES {
        var i :| 0 <= i < 6 && HSDIV_VALUES[i] == h;
        if i >= |values| { assert h <= HSDIV_VALUES[|values|]; }
      }
    }
  }

  // ----- What the strict comparison with 1 costs -----

  ghost predicate Solvable(target: real) {
    exists h, n :: h in HSDIV_VALUES && IsN1(n) && InWindow(Dco(h, n, target))
  }

  ghost predicate Found(target: real) {
    exists h, n :: Eligible(h, n, target)
  }

  /** The exception loses the only solution of exactly two targets: a quarter and a fifth of the lower edge. */
  lemma LosesExactly(target: real)
    requires target > 0.0
    ensures Solvable(target) && !Found(target) <==> target == MIN_FREQ / 4.0 || target == MIN_FREQ / 5.0
  {
    if Solvable(target) && !Found(target) {
      var h, n :| h in HSDIV_VALUES && IsN1(n) && InWindow(Dco(h, n, target));
      assert !Eligible(h, n, target);
      if h != 4 && h != 5 { OtherSolution(h, target); }
    }
    if target == MIN_FREQ / 4.0 {
      OnlyTheEdge(4, target);
      assert InWindow(Dco(4, 1, target));
    }
    if target == MIN_FREQ / 5.0 {
      OnlyTheEdge(5, target);
      assert InWindow(Dco(5, 1, target));
    }
  }

  /** On the other edges another pair takes over. */
  lemma OtherSolution(h: int, target: real)
    requires h in HSDIV_VALUES && Dco(h, 1, target) == MIN_FREQ && h != 4 && h != 5
    ensures Found(target)
  {
    var k, n := if h == 6 then 7 else if h == 7 then 4 else if h == 9 then 5 else 6, if h == 6 then 1 else 2;
    assert Eligible(k, n, target);
  }

  lemma OnlyTheEdge(m: int, target: real)
    requires m == 4 || m == 5
    requires m as real * target == MIN_FREQ
    ensures !Found(target)
  {
    forall h, n ensures !Eligible(h, n, target) {
      if Eligible(h, n, target) {
        EdgeProduct(m, h, n, target);
        assert false;
      }
    }
  }

  lemma EdgeProduct(m: int, h: int, n: int, target: real)
    requires m == 4 || m == 5
    requires m as real * target == MIN_FREQ && h in HSDIV_VALUES && IsN1(n) && InWindow(Dco(h, n, target))
    ensures h == m && n == 1
  {
    var p := h * n;
    assert Dco(h, n, target) == p as real * target;
    assert p == m;
  }

  /** The pairs the search may choose, in numbers: the oscillator runs between 4.85 and 5.67 GHz. */
  lemma EligiblePairs(h: int, n: int, target: real)
    requires target > 0.0
    ensures Eligible(h, n, target) <==>
              && h in {4, 5, 6, 7, 9, 11} && (n == 1 || (n % 2 == 0 && 2 <= n <= 128))
              && 4850000000.0 <= h as real * n as real * target <= 5670000000.0
              && (n == 1 ==> h as real * target != 4850000000.0)
  {
  }

  /** The dividers of the three standard clocks. */
  lemma StandardClocks()
    ensures Best(11, 4, 125000000.0) && Best(9, 4, 156250000.0) && Best(11, 2, 240000000.0)
  {
    forall h, n | Eligible(h, n, 156250000.0) ensures h <= 9 {
      EligiblePairs(h, n, 156250000.0);
    }
  }
}
