/** Every calorimeter block the simulator builds is accepted by the verifier. */
module CalorimeterAgreement {
  import opened Words
  import opened DataHeaders
  import opened CalorimeterBlock
  import opened BlockVerifier

  // ----- Where the words of a simulated block are -----

  lemma {:induction false} OffsetAt(n: nat, m: nat, k: nat)
    requires k < m && Offset(n, m) < 0x1_0000
    ensures Offsets(n, m)[k] == Offset(n, k)
  {
    if k < m - 1 { OffsetAt(n, m - 1, k); }
  }

  lemma {:induction false} HitAt(link: nat, dtcId: nat, t0Step: nat, n: nat, k: nat)
    requires k < n
    ensures 12 * k + 12 <= 12 * n
    ensures Hits(link, dtcId, t0Step, n)[12 * k..12 * k + 12] == HitWords(link, dtcId, t0Step, k)
  {
    hide HitWords;
    if k < n - 1 {
      HitAt(link, dtcId, t0Step, n - 1, k);
      var h := Hits(link, dtcId, t0Step, n - 1);
      Inside([], h, HitWords(link, dtcId, t0Step, n - 1), 12 * k, 12);
      assert [] + h + HitWords(link, dtcId, t0Step, n - 1) == Hits(link, dtcId, t0Step, n);
    }
  }

  lemma Inside<T>(a: seq<T>, b: seq<T>, c: seq<T>, i: nat, k: nat)
    requires i + k <= |b|
    ensures (a + b + c)[|a| + i..|a| + i + k] == b[i..i + k]
  {
  }

  /** The words in front of the hits: the count, the offsets, and the second board word. */
  lemma IndexAt(n: u16, link: nat, dtcId: nat, k: nat)
    requires 0 < n && 26 * n + 6 < 0x1_0000 && k < n
    ensures var f := IndexWords(n, link, dtcId); f[0] == n && f[1 + k] == Offset(n, k) && f[n + 2] == 0x3FFF
  {
    OffsetAt(n, n, k);
  }

  lemma FitsBound(n: u16)
    requires Fits(n)
    ensures 26 * n + 22 < 0x1_0000
  {
  }

  const RAMP: seq<u16> := [0x1111, 0x2222, 0x3333, 0x4444, 0x5555, 0x6666, 0x7777]

  lemma HitWordsSplit(link: nat, dtcId: nat, t0Step: nat, k: nat)
    ensures var h := HitWords(link, dtcId, t0Step, k); h[4] == 0x0607 && h[5..] == RAMP
  {
  }

  /** The front words. */
  lemma FrontFields(n: u16, link: nat, dtcId: nat, k: nat)
    requires 0 < n && Fits(n) && k < n
    ensures var d := SimulatedData(n, link, dtcId);
            |d| >= 13 * n + 3 && d[0] == n && d[1 + k] == Offset(n, k) && d[n + 2] == 0x3FFF
  {
    FitsBound(n);
    hide Hits, IndexWords, RoundUp8, Fits;
    IndexAt(n, link, dtcId, k);
    assert SimulatedData(n, link, dtcId)[..n + 3] == IndexWords(n, link, dtcId);
  }

  /** Hit k is at word n + 3 + 12k. */
  lemma HitSlice(n: u16, link: nat, dtcId: nat, k: nat, d: seq<u16>, p: nat)
    requires 0 < n && k < n && d == SimulatedData(n, link, dtcId) && p == n + 3 + 12 * k
    ensures p + 12 <= |d| && d[p..p + 12] == HitWords(link, dtcId, 2000 / n, k)
  {
    hide HitWords, Hits, IndexWords, RoundUp8, Zeros;
    var hits := Hits(link, dtcId, 2000 / n, n);
    var front, zeros := IndexWords(n, link, dtcId), Zeros(RoundUp8(13 * n + 3) - (13 * n + 3));
    assert d == front + hits + zeros;
    hide SimulatedData;
    HitAt(link, dtcId, 2000 / n, n, k);
    Inside(front, hits, zeros, 12 * k, 12);
  }

  /** The sample count word of hit k, and its samples. */
  lemma HitFields(n: u16, link: nat, dtcId: nat, k: nat, d: seq<u16>, p: nat)
    requires 0 < n && Fits(n) && k < n && d == SimulatedData(n, link, dtcId) && p == n + 3 + 12 * k
    ensures p + 12 <= |d| && d[1 + k] == 2 * p && d[p + 4] == 0x0607 && d[p + 5..p + 12] == RAMP
  {
    hide HitWords, SimulatedData, RoundUp8, Fits;
    FrontFields(n, link, dtcId, k);
    HitSlice(n, link, dtcId, k, d, p);
    HitWordsSplit(link, dtcId, 2000 / n, k);
    PartsOf(d, p, HitWords(link, dtcId, 2000 / n, k));
  }

  lemma PartsOf(d: seq<u16>, p: nat, h: seq<u16>)
    requires p + 12 <= |d| && d[p..p + 12] == h
    ensures d[p + 4] == h[4] && d[p + 5..p + 12] == h[5..]
  {
    assert d[p..p + 12][4] == d[p + 4];
  }

  // ----- What the verifier makes of them -----

  lemma {:induction false} HitPosOfSimulated(n: u16, link: nat, dtcId: nat, k: nat)
    requires 0 < n && Fits(n) && k <= n
    ensures HitPos(SimulatedData(n, link, dtcId), n, k) == n + 3 + 12 * k
  {
    hide SimulatedData, RoundUp8;
    if k > 0 {
      HitPosOfSimulated(n, link, dtcId, k - 1);
      HitFields(n, link, dtcId, k - 1, SimulatedData(n, link, dtcId), n + 3 + 12 * (k - 1));
    }
  }

  lemma PeakOfRamp()
    ensures PeakIndex(RAMP) == 6
  {
    PeakIsMaximum(RAMP);
    assert RAMP[6] == 0x7777;
  }

  lemma HitIsOk(n: u16, link: nat, dtcId: nat, k: nat)
    requires 0 < n && Fits(n) && k < n
    ensures HitOk(SimulatedData(n, link, dtcId), n, k)
  {
    hide SimulatedData, RoundUp8, HitPos, PeakIndex;
    HitPosOfSimulated(n, link, dtcId, k);
    HitPosOfSimulated(n, link, dtcId, k + 1);
    HitFields(n, link, dtcId, k, SimulatedData(n, link, dtcId), n + 3 + 12 * k);
    PeakOfRamp();
  }

  lemma SimulatedIsWellFormed(n: u16, link: nat, dtcId: nat, byteCount: nat)
    requires 0 < n && Fits(n) && 2 * n <= byteCount
    ensures WellFormed(SimulatedData(n, link, dtcId), byteCount)
    ensures LongEnough(SimulatedData(n, link, dtcId))
  {
    hide HitOk, RoundUp8;
    var d := SimulatedData(n, link, dtcId);
    FrontFields(n, link, dtcId, 0);
    forall k | 0 <= k < n ensures HitOk(d, n, k) && HitPos(d, n, k) + 5 <= |d| {
      HitIsOk(n, link, dtcId, k);
      HitPosOfSimulated(n, link, dtcId, k);
    }
    HitPosOfSimulated(n, link, dtcId, n);
    var e := 13 * n + 3;
    assert d[e..] == Zeros(RoundUp8(e) - e);
    forall i | e <= i < RoundUp8(e) ensures d[i] == 0 {
      assert d[i] == d[e..][i - e];
    }
  }

  /** Build one, verify it: always accepted. */
  method SimulateAndVerify(numHits: u16, link: nat, dtcId: nat, status: byte, mode: byte) returns (v: Verdict)
    requires 0 < numHits && Fits(numHits)
    ensures v == Accept
  {
    var b := CalorimeterBlockSimulator(numHits, link, dtcId, status, mode);
    SimulatedIsWellFormed(numHits, link, dtcId, b.byteCount);
    var verifier := new DataVerifier();
    v := verifier.VerifyBlock(b);
  }

  /** In the hardware's view the packet count has 11 bits: stored in them it still agrees with the byte count exactly
      up to 1259 hits. */
  lemma ElevenBitCountIff(numHits: u16)
    requires 0 < numHits && Fits(numHits)
    ensures var words := RoundUp8(13 * numHits + 3);
            (words / 8 % 0x800 + 1) * 16 == 16 + 2 * words <==> numHits <= 1259
  {
  }
}
