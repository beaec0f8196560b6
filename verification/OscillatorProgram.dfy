/** The oscillator program: a 48-bit word of two dividers and a fixed-point multiplier. */
module OscillatorProgram {
  import opened Words
  import opened DividerSearch

  const TWO28: int := 0x1000_0000
  const TWO38: int := 0x40_0000_0000
  const TWO45: int := 0x2000_0000_0000

  type Program = x: int | 0 <= x < TWO48

  // ----- Encoders and decoders -----

  function DecodeHighSpeedDivider(input: int): int {
    if input == 0 then 4 else if input == 1 then 5 else if input == 2 then 6
    else if input == 3 then 7 else if input == 5 then 9 else if input == 7 then 11 else -1
  }

  function EncodeHighSpeedDivider(input: int): int {
    if input == 4 then 0 else if input == 5 then 1 else if input == 6 then 2
    else if input == 7 then 3 else if input == 9 then 5 else if input == 11 then 7 else -1
  }

  function DecodeOutputDivider(input: int): int { input + 1 }

  function EncodeOutputDivider(input: nat): int {
    if input == 1 then 0 else input / 2 * 2 - 1
  }

  function DecodeRFREQ(input: nat): real {
    input as real / TWO28 as real
  }

  /** The product is truncated and its low 38 bits are kept. */
  function EncodeRFREQ(input: real): (r: nat)
    requires input >= 0.0
    ensures r < TWO38
  {
    (input * TWO28 as real).Floor % TWO38
  }

  /** The program word. */
  function Pack(hsdiv: int, n1: nat, rfreq: real): (p: Program)
    requires hsdiv in HSDIV_VALUES && IsN1(n1) && rfreq >= 0.0
  {
    EncodeHighSpeedDivider(hsdiv) * TWO45 + EncodeOutputDivider(n1) * TWO38 + EncodeRFREQ(rfreq)
  }

  function HsdivOf(p: Program): int {
    DecodeHighSpeedDivider(p / TWO45 % 8)
  }

  function N1Of(p: Program): (r: int)
    ensures 1 <= r <= 128
  {
    DecodeOutputDivider(p / TWO38 % 128)
  }

  function RfreqOf(p: Program): (r: real)
    ensures 0.0 <= r < 1024.0
  {
    assert (p % TWO38) as real < TWO38 as real;
    QuotientBelow((p % TWO38) as real, 1024.0, TWO28 as real);
    DecodeRFREQ(p % TWO38)
  }

  lemma QuotientBelow(a: real, b: real, d: real)
    requires 0.0 <= a < b * d && d > 0.0
    ensures 0.0 <= a / d < b
  {
    assert a / d * d == a;
  }

  // ----- Round trips -----

  /** Unpacking a packed word gives the dividers back, and the multiplier as encoded. */
  lemma UnpackPack(hsdiv: int, n1: nat, rfreq: real)
    requires hsdiv in HSDIV_VALUES && IsN1(n1) && rfreq >= 0.0
    ensures var p := Pack(hsdiv, n1, rfreq);
            HsdivOf(p) == hsdiv && N1Of(p) == n1 && RfreqOf(p) == DecodeRFREQ(EncodeRFREQ(rfreq))
  {
    var e, o, r := EncodeHighSpeedDivider(hsdiv), EncodeOutputDivider(n1), EncodeRFREQ(rfreq);
    Fields(e, o, r);
  }

  /** The codes: HSDIV less 4 in three bits, N1 less 1 in seven; no other HSDIV has a code, no other code an HSDIV. */
  lemma DividerCodes(h: int, n: nat, code: int)
    ensures EncodeHighSpeedDivider(h) == if h in {4, 5, 6, 7, 9, 11} then h - 4 else -1
    ensures DecodeHighSpeedDivider(code) == if code in {0, 1, 2, 3, 5, 7} then code + 4 else -1
    ensures IsN1(n) ==> EncodeOutputDivider(n) == n - 1 && DecodeOutputDivider(n - 1) == n
  {
  }

  /** The word, from the top: three bits of HSDIV, seven of N1, and the multiplier in units of 2^-28 in 38 bits. */
  lemma WordLayout(p: Program, code: nat, n: nat, r: nat)
    requires p == code * 0x2000_0000_0000 + (n - 1) * 0x40_0000_0000 + r
    requires code < 8 && 1 <= n <= 128 && r < 0x40_0000_0000
    ensures N1Of(p) == n && RfreqOf(p) * 268435456.0 == r as real
    ensures HsdivOf(p) == if code in {0, 1, 2, 3, 5, 7} then code + 4 else -1
  {
    Fields(code, n - 1, r);
    hide DecodeHighSpeedDivider;
    DividerCodes(4, 1, code);
  }

  lemma Fields(e: nat, o: nat, r: nat)
    requires e < 8 && o < 128 && r < TWO38
    ensures var p := e * TWO45 + o * TWO38 + r;
            p < TWO48 && p / TWO45 % 8 == e && p / TWO38 % 128 == o && p % TWO38 == r
  {
  }

  /** The multiplier comes back within one part in 2^28, from below, exactly when it is below 1024. */
  lemma RfreqRoundTrip(x: real)
    requires x >= 0.0
    ensures 0.0 <= (x - DecodeRFREQ(EncodeRFREQ(x))) * TWO28 as real < 1.0 <==> x < 1024.0
  {
    var f, r := (x * TWO28 as real).Floor, EncodeRFREQ(x);
    assert DecodeRFREQ(r) * TWO28 as real == r as real;
    assert (x - DecodeRFREQ(r)) * TWO28 as real == x * TWO28 as real - r as real;
    assert x < 1024.0 <==> x * TWO28 as real < TWO38 as real;
    assert f < TWO38 ==> r == f;
  }

  // ----- The program for a frequency -----

  /** The crystal frequency a program and the frequency it gives imply. */
  function Crystal(frequency: real, p: Program): real
    requires RfreqOf(p) != 0.0
  {
    frequency * HsdivOf(p) as real * N1Of(p) as real / RfreqOf(p)
  }

  /** The frequency a program gives on a crystal. */
  function Achieved(fXTAL: real, p: Program): real
    requires HsdivOf(p) != -1
  {
    fXTAL * RfreqOf(p) / (HsdivOf(p) * N1Of(p)) as real
  }

  lemma CrystalSign(frequency: real, p: Program)
    requires frequency > 0.0 && RfreqOf(p) != 0.0
    ensures Crystal(frequency, p) != 0.0
    ensures Crystal(frequency, p) > 0.0 <==> HsdivOf(p) != -1
  {
    var h, n, r := HsdivOf(p) as real, N1Of(p) as real, RfreqOf(p);
    var x := frequency * h;
    assert x > 0.0 <==> h > 0.0;
    assert x != 0.0;
    var y := x * n;
    assert y > 0.0 <==> x > 0.0;
    QuotientSign(y, r);
    QuotientSign(-y, r);
    assert -y / r == -(y / r);
  }

  lemma QuotientSign(a: real, d: real)
    requires d != 0.0
    ensures a / d > 0.0 <==> (a > 0.0 && d > 0.0) || (a < 0.0 && d < 0.0)
  {
    assert a / d * d == a;
  }

  /** The word holds the best dividers and the multiplier they need on the crystal. */
  ghost predicate ProgramFor(target: real, fXTAL: real, p: Program) {
    fXTAL > 0.0 && exists h, n: nat :: ProgramWith(h, n, target, fXTAL, p)
  }

  ghost predicate ProgramWith(h: int, n: nat, target: real, fXTAL: real, p: Program)
    requires fXTAL > 0.0
  {
    Best(h, n, target) && Dco(h, n, target) / fXTAL > 0.0 && p == Pack(h, n, Dco(h, n, target) / fXTAL)
  }

  /** The outcome of the computation, 0 for no program.  A negative target and an invalid HSDIV code cancel out. */
  ghost predicate Computes(target: real, frequency: real, p: Program, output: Program)
    requires frequency > 0.0 && RfreqOf(p) != 0.0
  {
    CrystalSign(frequency, p);
    var fXTAL := Crystal(frequency, p);
    if target > 0.0 && HsdivOf(p) != -1 && Found(target) then ProgramFor(target, fXTAL, output)
    else if target < 0.0 && HsdivOf(p) == -1 then
      QuotientSign(Dco(11, 1, target), fXTAL);
      output == Pack(11, 1, Dco(11, 1, target) / fXTAL)
    else output == 0
  }

  /** There is one outcome. */
  lemma ComputesOnce(target: real, frequency: real, p: Program, o: Program, o': Program)
    requires frequency > 0.0 && RfreqOf(p) != 0.0
    requires Computes(target, frequency, p, o) && Computes(target, frequency, p, o')
    ensures o == o'
  {
    hide Crystal, Dco, Pack, RfreqOf, HsdivOf, Eligible;
    var fXTAL := Crystal(frequency, p);
    if target > 0.0 && HsdivOf(p) != -1 && Found(target) {
      var h, n: nat :| ProgramWith(h, n, target, fXTAL, o);
      var h', n': nat :| ProgramWith(h', n', target, fXTAL, o');
      assert h == h' && n == n';
    }
  }

  /** The decoding of the current program, and the crystal frequency it implies. */
  method EstimateCrystal(currentFrequency: real, currentProgram: Program) returns (fXTAL: real)
    requires RfreqOf(currentProgram) != 0.0
    ensures fXTAL == Crystal(currentFrequency, currentProgram)
  {
    var currentHighSpeedDivider := DecodeHighSpeedDivider(currentProgram / TWO45 % 8);
    var currentOutputDivider := DecodeOutputDivider(currentProgram / TWO38 % 128);
    var currentRFREQ := DecodeRFREQ(currentProgram % TWO38);
    fXTAL := currentFrequency * currentHighSpeedDivider as real * currentOutputDivider as real / currentRFREQ;
  }

  /** CalculateFrequencyForProgramming_: 0 stands for no program. */
  method CalculateFrequencyForProgramming(targetFrequency: real, currentFrequency: real, currentProgram: Program)
    returns (output: Program)
    requires currentFrequency > 0.0 && RfreqOf(currentProgram) != 0.0
    ensures Computes(targetFrequency, currentFrequency, currentProgram, output)
  {
    var fXTAL := EstimateCrystal(currentFrequency, currentProgram);
    CrystalSign(currentFrequency, currentProgram);
    hide Crystal, Dco, Eligible, RfreqOf, HsdivOf, N1Of, DecodeHighSpeedDivider, DecodeOutputDivider, DecodeRFREQ;
    var hsdiv, n1, fdco := SearchDividers(targetFrequency);
    var newRFREQ := fdco / fXTAL;
    QuotientSign(fdco, fXTAL);
    DcoSign(hsdiv, n1, targetFrequency);
    output := 0;
    if EncodeHighSpeedDivider(hsdiv) == -1 { return; }
    if n1 > 128 || n1 < 0 { return; }
    if newRFREQ <= 0.0 { return; }
    assert targetFrequency > 0.0 ==> Eligible(hsdiv, n1, targetFrequency);
    hide Best, Found, IsN1;
    Fields(EncodeHighSpeedDivider(hsdiv), EncodeOutputDivider(n1), EncodeRFREQ(newRFREQ));
    output := EncodeHighSpeedDivider(hsdiv) * TWO45 + EncodeOutputDivider(n1) * TWO38 + EncodeRFREQ(newRFREQ);
    assert output == Pack(hsdiv, n1, newRFREQ);
    assert targetFrequency > 0.0 && fXTAL > 0.0 ==> ProgramWith(hsdiv, n1, targetFrequency, fXTAL, output);
  }

  lemma DcoSign(h: int, n: int, target: real)
    ensures h > 0 && n > 0 && target > 0.0 ==> Dco(h, n, target) > 0.0
    ensures h > 0 && n > 0 && target < 0.0 ==> Dco(h, n, target) < 0.0
  {
    if h > 0 && n > 0 { assert h as real * n as real > 0.0; }
  }

  // ----- How far off the frequency is -----

  /** With a multiplier below 1024 the frequency is at most the target, and off by less than
      fXTAL * 2^-28 / (HSDIV * N1). */
  lemma FrequencyError(fXTAL: real, target: real, h: int, n: nat)
    requires fXTAL > 0.0 && target > 0.0 && h in HSDIV_VALUES && IsN1(n)
    requires 0.0 < Dco(h, n, target) / fXTAL < 1024.0
    ensures var p := Pack(h, n, Dco(h, n, target) / fXTAL);
            && HsdivOf(p) == h && N1Of(p) == n
            && Achieved(fXTAL, p) <= target
            && (target - Achieved(fXTAL, p)) * (h * n) as real * TWO28 as real < fXTAL
  {
    hide Dco, Pack, RfreqOf, HsdivOf, N1Of, EncodeRFREQ, DecodeRFREQ;
    var x := Dco(h, n, target) / fXTAL;
    EncodedClose(h, n, x);
    QuotientTimes(Dco(h, n, target), fXTAL);
    hide Achieved;
    AchievedClose(fXTAL, target, h, n, x, Pack(h, n, x));
  }

  lemma EncodedClose(h: int, n: nat, x: real)
    requires h in HSDIV_VALUES && IsN1(n) && 0.0 <= x < 1024.0
    ensures var p := Pack(h, n, x);
            HsdivOf(p) == h && N1Of(p) == n && 0.0 <= (x - RfreqOf(p)) * TWO28 as real < 1.0
  {
    UnpackPack(h, n, x);
    RfreqRoundTrip(x);
  }

  lemma AchievedClose(f: real, t: real, h: int, n: int, x: real, p: Program)
    requires f > 0.0 && h > 0 && n > 0 && x * f == Dco(h, n, t) && HsdivOf(p) == h && N1Of(p) == n
    requires 0.0 <= (x - RfreqOf(p)) * TWO28 as real < 1.0
    ensures Achieved(f, p) <= t && (t - Achieved(f, p)) * (h * n) as real * TWO28 as real < f
  {
    hide Dco, RfreqOf, HsdivOf, N1Of;
    ErrorBound(f, t, h, n, x, RfreqOf(p));
    assert Achieved(f, p) == f * RfreqOf(p) / (h * n) as real;
  }

  lemma ErrorBound(f: real, t: real, h: int, n: int, x: real, y: real)
    requires f > 0.0 && h > 0 && n > 0 && x * f == Dco(h, n, t) && 0.0 <= (x - y) * TWO28 as real < 1.0
    ensures f * y / (h * n) as real <= t
    ensures (t - f * y / (h * n) as real) * (h * n) as real * TWO28 as real < f
  {
    var d := (h * n) as real;
    assert d == h as real * n as real;
    QuotientTimes(f * y, d);
    assert d * t == x * f;
    Gap(f, d, TWO28 as real, x - y, t - f * y / d);
  }

  lemma Gap(f: real, d: real, c: real, s: real, gap: real)
    requires f > 0.0 && d > 0.0 && c > 0.0 && gap * d == f * s && 0.0 <= s * c < 1.0
    ensures 0.0 <= gap && gap * d * c < f
  {
    assert s >= 0.0;
    assert gap * d >= 0.0;
    var q := s * c;
    GapScaled(f, d, c, s, gap);
    assert gap * d * c == f * q;
    ProductBelow(f, q);
    assert f * q < f;
  }

  lemma GapScaled(f: real, d: real, c: real, s: real, gap: real)
    requires gap * d == f * s
    ensures gap * d * c == f * (s * c)
  {
    var u := gap * d;
    assert f * (s * c) == u * c;
  }

  lemma QuotientTimes(a: real, d: real)
    requires d != 0.0
    ensures a / d * d == a
  {
  }

  lemma ProductBelow(f: real, q: real)
    requires f > 0.0 && q < 1.0
    ensures f * q < f
  {
    assert f * (1.0 - q) > 0.0;
  }

  /** A crystal of at least 5.54 MHz keeps the multiplier below 1024. */
  lemma OrdinaryCrystal(fXTAL: real, f: real)
    requires fXTAL >= 5540000.0 && f <= MAX_FREQ
    ensures f / fXTAL < 1024.0
  {
    QuotientTimes(f, fXTAL);
  }

  /** So on an ordinary crystal the program computed for a target gives it, with the best dividers. */
  lemma ProgrammedFrequency(fXTAL: real, target: real, p: Program)
    requires fXTAL >= 5540000.0 && target > 0.0 && ProgramFor(target, fXTAL, p)
    ensures HsdivOf(p) != -1 && Best(HsdivOf(p), N1Of(p), target) && Achieved(fXTAL, p) <= target
    ensures (target - Achieved(fXTAL, p)) * (HsdivOf(p) * N1Of(p)) as real * TWO28 as real < fXTAL
  {
    hide ProgramWith, Best, Achieved, HsdivOf, N1Of;
    var h, n: nat :| ProgramWith(h, n, target, fXTAL, p);
    ProgrammedWith(h, n, fXTAL, target, p);
  }

  lemma ProgrammedWith(h: int, n: nat, fXTAL: real, target: real, p: Program)
    requires fXTAL >= 5540000.0 && target > 0.0 && ProgramWith(h, n, target, fXTAL, p)
    ensures HsdivOf(p) == h && N1Of(p) == n && h > 0 && Best(h, n, target) && Achieved(fXTAL, p) <= target
    ensures (target - Achieved(fXTAL, p)) * (h * n) as real * TWO28 as real < fXTAL
  {
    hide Dco, Pack, RfreqOf, HsdivOf, N1Of, Achieved, Best, Eligible;
    BestInWindow(h, n, target);
    OrdinaryCrystal(fXTAL, Dco(h, n, target));
    FrequencyError(fXTAL, target, h, n);
  }

  lemma BestInWindow(h: int, n: int, target: real)
    requires Best(h, n, target)
    ensures h in HSDIV_VALUES && IsN1(n) && InWindow(Dco(h, n, target))
  {
    assert Eligible(h, n, target);
  }

  /** On an ordinary crystal nothing is computed exactly for target 0, an invalid HSDIV code or a target without
      dividers. */
  lemma NoProgramIff(target: real, frequency: real, p: Program)
    requires frequency > 0.0 && RfreqOf(p) != 0.0 && target >= 0.0
    requires HsdivOf(p) != -1 ==> 5540000.0 <= Crystal(frequency, p) <= MIN_FREQ
    ensures Computes(target, frequency, p, 0) <==> target == 0.0 || HsdivOf(p) == -1 || !Found(target)
  {
    hide Crystal, Found;
    if target > 0.0 && HsdivOf(p) != -1 && ProgramFor(target, Crystal(frequency, p), 0) {
      ProgramNotZero(target, Crystal(frequency, p));
    }
  }

  lemma ProgramNotZero(target: real, fXTAL: real)
    requires 5540000.0 <= fXTAL <= MIN_FREQ && target > 0.0
    ensures !ProgramFor(target, fXTAL, 0)
  {
    hide ProgramWith;
    if ProgramFor(target, fXTAL, 0) {
      var h, n: nat :| ProgramWith(h, n, target, fXTAL, 0);
      ZeroHasNoMultiplier(h, n, target, fXTAL);
      assert false;
    }
  }

  lemma ZeroHasNoMultiplier(h: int, n: nat, target: real, fXTAL: real)
    requires 5540000.0 <= fXTAL <= MIN_FREQ && target > 0.0
    ensures !ProgramWith(h, n, target, fXTAL, 0)
  {
    assert RfreqOf(0) == 0.0;
    if ProgramWith(h, n, target, fXTAL, 0) {
      hide Dco, Eligible, Best, Pack, HsdivOf, N1Of, RfreqOf;
      var x := Dco(h, n, target) / fXTAL;
      BestInWindow(h, n, target);
      OrdinaryCrystal(fXTAL, Dco(h, n, target));
      QuotientAtLeastOne(Dco(h, n, target), fXTAL);
      EncodedClose(h, n, x);
      assert false;
    }
  }

  lemma QuotientAtLeastOne(a: real, d: real)
    requires 0.0 < d <= a
    ensures a / d >= 1.0
  {
    QuotientTimes(a, d);
  }

  /** Estimating the crystal again from the target and the program written for it never gives less, and gives more
      by less than fXTAL * 2^-28 over the multiplier stored. */
  lemma EstimateDrifts(fXTAL: real, target: real, h: int, n: nat)
    requires fXTAL > 0.0 && target > 0.0 && h in HSDIV_VALUES && IsN1(n)
    requires 0.0 < Dco(h, n, target) / fXTAL < 1024.0
    requires RfreqOf(Pack(h, n, Dco(h, n, target) / fXTAL)) > 0.0
    ensures var p := Pack(h, n, Dco(h, n, target) / fXTAL);
            && fXTAL <= Crystal(target, p)
            && (Crystal(target, p) - fXTAL) * RfreqOf(p) * TWO28 as real < fXTAL
  {
    hide Dco, Pack, RfreqOf, HsdivOf, N1Of, EncodeRFREQ, DecodeRFREQ;
    var x := Dco(h, n, target) / fXTAL;
    EncodedClose(h, n, x);
    QuotientTimes(Dco(h, n, target), fXTAL);
    hide Crystal;
    CrystalClose(fXTAL, target, h, n, x, Pack(h, n, x));
  }

  lemma CrystalClose(f: real, t: real, h: int, n: int, x: real, p: Program)
    requires f > 0.0 && RfreqOf(p) > 0.0 && x * f == Dco(h, n, t) && HsdivOf(p) == h && N1Of(p) == n
    requires 0.0 <= (x - RfreqOf(p)) * TWO28 as real < 1.0
    ensures f <= Crystal(t, p) && (Crystal(t, p) - f) * RfreqOf(p) * TWO28 as real < f
  {
    hide Dco, RfreqOf, HsdivOf, N1Of, Crystal;
    CrystalIs(t, p, h, n, RfreqOf(p));
    DriftBound(f, t, h, n, x, RfreqOf(p), Crystal(t, p));
  }

  lemma CrystalIs(t: real, p: Program, h: int, n: int, y: real)
    requires y != 0.0 && HsdivOf(p) == h && N1Of(p) == n && RfreqOf(p) == y
    ensures Crystal(t, p) == t * h as real * n as real / y
  {
  }

  lemma DriftBound(f: real, t: real, h: int, n: int, x: real, y: real, g: real)
    requires f > 0.0 && y > 0.0 && x * f == Dco(h, n, t) && 0.0 <= (x - y) * TWO28 as real < 1.0
    requires g == t * h as real * n as real / y
    ensures f <= g && (g - f) * y * TWO28 as real < f
  {
    assert t * h as real * n as real == h as real * n as real * t;
    QuotientTimes(t * h as real * n as real, y);
    Gap(f, y, TWO28 as real, x - y, g - f);
  }
}
