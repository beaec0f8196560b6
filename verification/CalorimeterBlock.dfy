/** Calorimeter blocks: the simulator that builds them and the part of the verifier that reads their data.

    A read past the words of the block, which the original does not notice, is the verdict Overrun. */
module CalorimeterBlock {
  import opened Words
  import opened DataHeaders

  // ----- What a correct block is -----

  /** The least multiple of 8 that is at least k. */
  function RoundUp8(k: nat): (r: nat)
    ensures k <= r < k + 8 && r % 8 == 0
  {
    (k + 7) / 8 * 8
  }

  /** Where hit k starts, in words: after the count, the n offsets and two board words, and the hits before it,
      each five words and its samples. */
  function HitPos(d: seq<u16>, n: nat, k: nat): (p: nat)
    ensures p >= n + 3
  {
    if k == 0 then n + 3
    else
      var p := HitPos(d, n, k - 1);
      p + 5 + if p + 4 < |d| then d[p + 4] % 256 else 0
  }

  /** The first position of the largest sample; 0 when there is none above zero. */
  function PeakIndex(samples: seq<u16>): (r: nat)
    ensures samples == [] || r < |samples|
    ensures samples == [] ==> r == 0
  {
    if samples == [] then 0
    else
      var front, last := samples[..|samples| - 1], |samples| - 1;
      if samples[last] > Peak(front) then last else PeakIndex(front)
  }

  /** The largest sample, at least 0. */
  function Peak(samples: seq<u16>): u16 {
    if samples == [] then 0
    else
      var front, last := Peak(samples[..|samples| - 1]), samples[|samples| - 1];
      if last > front then last else front
  }

  lemma {:induction false} PeakIsMaximum(samples: seq<u16>)
    ensures forall k | 0 <= k < |samples| :: samples[k] <= Peak(samples)
    ensures var i := PeakIndex(samples);
            if Peak(samples) == 0 then i == 0
            else samples != [] && samples[i] == Peak(samples) && forall k | 0 <= k < i :: samples[k] < Peak(samples)
  {
    if samples != [] {
      PeakIsMaximum(samples[..|samples| - 1]);
    }
  }

  /** Hit k lies inside the data, its stored offset is where it starts, in bytes, and its stored peak is right. */
  predicate HitOk(d: seq<u16>, n: nat, k: nat)
    requires 1 + k < |d|
  {
    var p := HitPos(d, n, k);
    && p + 4 < |d| && HitPos(d, n, k + 1) <= |d|
    && d[1 + k] == 2 * p
    && d[p + 4] / 256 == PeakIndex(d[p + 5..HitPos(d, n, k + 1)])
  }

  predicate PaddingOk(d: seq<u16>, e: nat) {
    RoundUp8(e) <= |d| && forall i | e <= i < RoundUp8(e) :: d[i] == 0
  }

  predicate WellFormed(d: seq<u16>, blockByteSize: nat) {
    && d != []
    && var n := d[0];
       && n + 2 < |d| && 2 * n <= blockByteSize
       && d[n + 2] < 0x4000
       && (forall k | 0 <= k < n :: HitOk(d, n, k))
       && PaddingOk(d, HitPos(d, n, n))
  }

  /** Everything the verifier may look at is there. */
  predicate LongEnough(d: seq<u16>) {
    && d != []
    && var n := d[0];
       && (forall k | 0 <= k < n :: HitPos(d, n, k) + 5 <= |d|)
       && RoundUp8(HitPos(d, n, n)) <= |d|
  }

  /** The declared offsets: 2n + 6 bytes, and 10 bytes and the samples of each earlier hit. */
  function EarlierBytes(d: seq<u16>, n: nat, k: nat): nat {
    if k == 0 then 0
    else
      var p := HitPos(d, n, k - 1);
      EarlierBytes(d, n, k - 1) + 10 + 2 * (if p + 4 < |d| then d[p + 4] % 256 else 0)
  }

  lemma {:induction false} OffsetsAddUp(d: seq<u16>, n: nat, k: nat)
    ensures 2 * HitPos(d, n, k) == 2 * n + 6 + EarlierBytes(d, n, k)
  {
    if k != 0 { OffsetsAddUp(d, n, k - 1); }
  }

  lemma {:induction false} HitPosGrows(d: seq<u16>, n: nat, k: nat, l: nat)
    requires k <= l
    ensures HitPos(d, n, k) + 5 * (l - k) <= HitPos(d, n, l)
    decreases l - k
  {
    if k < l { HitPosGrows(d, n, k, l - 1); }
  }

  // ----- The verifier -----

  /** The loop over the samples of one hit. */
  method ScanSamples(d: seq<u16>, at: nat, numSamples: nat) returns (currentMaximumIndex: nat, overrun: bool)
    ensures overrun <==> numSamples > 0 && at + numSamples > |d|
    ensures !overrun && at <= |d| ==> currentMaximumIndex == PeakIndex(d[at..at + numSamples])
  {
    var currentMaximumValue := 0;
    currentMaximumIndex, overrun := 0, false;
    for jj := 0 to numSamples
      invariant jj == 0 || at + jj <= |d|
      invariant at <= |d| ==> at + jj <= |d| && currentMaximumValue == Peak(d[at..at + jj])
      invariant at <= |d| ==> currentMaximumIndex == PeakIndex(d[at..at + jj])
    {
      if at + jj >= |d| { return currentMaximumIndex, true; }
      assert d[at..at + jj + 1][..jj] == d[at..at + jj];
      if d[at + jj] > currentMaximumValue {
        currentMaximumValue := d[at + jj];
        currentMaximumIndex := jj;
      }
    }
  }

  /** The body of the loop over the hits: pointer and offset stand on the word before the hit, and are left on its
      last word. */
  method CheckHit(d: seq<u16>, ghost n: nat, ghost k: nat, hitOffset: u16, ptr: nat, offset: nat)
    returns (v: Verdict, dataPtr: nat, currentOffset: nat)
    requires 1 + k < |d| && hitOffset == d[1 + k] && ptr + 1 == HitPos(d, n, k) && offset == 2 * ptr
    ensures v == Accept <==> HitOk(d, n, k)
    ensures v != BadHeader
    ensures v == Accept ==> dataPtr + 1 == HitPos(d, n, k + 1) && dataPtr < |d| && currentOffset == 2 * dataPtr
    ensures v == Overrun ==> HitPos(d, n, k) + 5 > |d| || HitPos(d, n, k + 1) > |d|
  {
    dataPtr, currentOffset := ptr + 1, offset + 2;
    if currentOffset != hitOffset { return Reject, dataPtr, currentOffset; }
    dataPtr, currentOffset := dataPtr + 4, currentOffset + 8;
    if dataPtr >= |d| { return Overrun, dataPtr, currentOffset; }
    var numSamples, maxSample := d[dataPtr] % 256, d[dataPtr] / 256;
    var currentMaximumIndex, overrun := ScanSamples(d, dataPtr + 1, numSamples);
    if overrun { return Overrun, dataPtr, currentOffset; }
    dataPtr, currentOffset := dataPtr + numSamples, currentOffset + 2 * numSamples;
    v := if maxSample != currentMaximumIndex then Reject else Accept;
  }

  lemma AtBoundary(p: nat, e: nat)
    requires e <= p <= RoundUp8(e)
    ensures 2 * p % 16 == 0 <==> p == RoundUp8(e)
  {
  }

  /** The check of the padding: pointer and offset stand on the last word of the last hit. */
  method CheckPadding(d: seq<u16>, ptr: nat, offset: nat) returns (v: Verdict)
    requires ptr < |d| && offset == 2 * ptr
    ensures v == Accept <==> PaddingOk(d, ptr + 1)
    ensures v != BadHeader
    ensures v == Overrun ==> RoundUp8(ptr + 1) > |d|
  {
    hide RoundUp8;
    var dataPtr, currentOffset := ptr + 1, offset + 2;
    AtBoundary(dataPtr, ptr + 1);
    while currentOffset % 16 != 0
      invariant ptr + 1 <= dataPtr <= RoundUp8(ptr + 1) && currentOffset == 2 * dataPtr
      invariant currentOffset % 16 == 0 <==> dataPtr == RoundUp8(ptr + 1)
      invariant dataPtr <= |d| && forall i | ptr + 1 <= i < dataPtr :: d[i] == 0
      decreases RoundUp8(ptr + 1) - dataPtr
    {
      if dataPtr >= |d| { return Overrun; }
      if d[dataPtr] != 0 { return Reject; }
      dataPtr, currentOffset := dataPtr + 1, currentOffset + 2;
      AtBoundary(dataPtr, ptr + 1);
    }
    v := Accept;
  }

  /** The loop over the offset table. */
  method ReadOffsets(d: seq<u16>, blockByteSize: nat)
    returns (v: Verdict, hitOffsets: seq<u16>, dataPtr: nat, currentOffset: nat)
    requires d != []
    ensures if d[0] < |d| && 2 * d[0] <= blockByteSize
            then v == Accept && hitOffsets == d[1..1 + d[0]] && dataPtr == d[0] && currentOffset == 2 * d[0] as int
            else v == Reject || (v == Overrun && d[0] >= |d|)
  {
    v, hitOffsets, dataPtr, currentOffset := Accept, [], 0, 0;
    for ii := 0 to d[0]
      invariant v == Accept && dataPtr == ii && currentOffset == 2 * ii && ii < |d|
      invariant hitOffsets == d[1..1 + ii]
      invariant 2 * ii <= blockByteSize
    {
      dataPtr := dataPtr + 1;
      if dataPtr >= |d| { return Overrun, hitOffsets, dataPtr, currentOffset; }
      hitOffsets := hitOffsets + [d[dataPtr]];
      currentOffset := currentOffset + 2;
      if currentOffset > blockByteSize { return Reject, hitOffsets, dataPtr, currentOffset; }
    }
  }

  /** The loop over the hits. */
  method CheckHits(d: seq<u16>, hitOffsets: seq<u16>, ptr: nat, offset: nat)
    returns (v: Verdict, dataPtr: nat, currentOffset: nat)
    requires d != [] && d[0] as int + 2 == ptr < |d| && hitOffsets == d[1..1 + d[0]] && offset == 2 * ptr
    ensures v == Accept <==> forall k | 0 <= k < d[0] :: HitOk(d, d[0], k)
    ensures v == Accept ==> dataPtr + 1 == HitPos(d, d[0], d[0]) && dataPtr < |d| && currentOffset == 2 * dataPtr
    ensures v != BadHeader && (v == Overrun ==> !LongEnough(d))
  {
    hide HitOk, RoundUp8;
    v, dataPtr, currentOffset := Accept, ptr, offset;
    for ii := 0 to d[0]
      invariant v == Accept
      invariant dataPtr + 1 == HitPos(d, d[0], ii) && currentOffset == 2 * dataPtr && dataPtr < |d|
      invariant forall k | 0 <= k < ii :: HitOk(d, d[0], k)
    {
      LongEnoughAt(d, ii);
      v, dataPtr, currentOffset := CheckHit(d, d[0], ii, hitOffsets[ii], dataPtr, currentOffset);
      if v != Accept { return; }
    }
  }

  /** VerifyCalorimeterDataBlock: one pointer through the words and one running byte offset. */
  method VerifyCalorimeterDataBlock(d: seq<u16>, blockByteSize: nat) returns (v: Verdict)
    ensures v == Accept <==> blockByteSize == 0x10 || WellFormed(d, blockByteSize)
    ensures v != BadHeader
    ensures v == Overrun ==> !LongEnough(d)
  {
    hide HitOk, PaddingOk, RoundUp8;
    if blockByteSize == 0x10 { return Accept; }
    if d == [] { return Overrun; }
    LongEnoughBound(d);
    var hitOffsets, dataPtr, currentOffset;
    v, hitOffsets, dataPtr, currentOffset := ReadOffsets(d, blockByteSize);
    if v != Accept { return; }
    dataPtr, currentOffset := dataPtr + 2, currentOffset + 4;
    if dataPtr >= |d| { return Overrun; }
    if d[dataPtr] >= 0x4000 { return Reject; }
    v, dataPtr, currentOffset := CheckHits(d, hitOffsets, dataPtr, currentOffset);
    if v == Accept { v := CheckPadding(d, dataPtr, currentOffset); }
  }

  lemma LongEnoughAt(d: seq<u16>, k: nat)
    requires d != [] && k < d[0]
    ensures LongEnough(d) ==> HitPos(d, d[0], k) + 5 <= |d| && HitPos(d, d[0], k + 1) <= |d|
  {
    HitPosGrows(d, d[0], k + 1, d[0]);
  }

  lemma LongEnoughBound(d: seq<u16>)
    requires d != []
    ensures LongEnough(d) ==> d[0] + 3 <= |d|
  {
    HitPosGrows(d, d[0], 0, d[0]);
  }

  // ----- The simulator -----

  function BoardNumber(link: nat, dtcId: nat): nat {
    (link % 256 + dtcId * 6) % 0x1_0000 % 0x40
  }

  /** The byte count of the block fits its 16-bit field. */
  predicate Fits(numHits: u16) {
    16 + 2 * RoundUp8(13 * numHits + 3) < 0x1_0000
  }

  /** One hit: the two DIRAC words, error flags, time, peak and sample count, seven samples. */
  function HitWords(link: nat, dtcId: nat, t0Step: nat, idx: nat): (r: seq<u16>)
    ensures |r| == 12
  {
    var rocId := (link % 256 + dtcId * 6) % 0x1_0000;
    [BoardNumber(link, dtcId), 10 * rocId % 0x1_0000, 0, idx * t0Step % 0x1_0000, 0x0607,
     0x1111, 0x2222, 0x3333, 0x4444, 0x5555, 0x6666, 0x7777]
  }

  function Offset(n: nat, idx: nat): nat {
    2 + 2 * n + 4 + idx * 24
  }

  function Hits(link: nat, dtcId: nat, t0Step: nat, n: nat): (r: seq<u16>)
    ensures |r| == 12 * n
  {
    if n == 0 then [] else Hits(link, dtcId, t0Step, n - 1) + HitWords(link, dtcId, t0Step, n - 1)
  }

  /** The first k entries of the offset table. */
  function Offsets(n: nat, k: nat): (r: seq<u16>)
    ensures |r| == k
  {
    if k == 0 then [] else Offsets(n, k - 1) + [Offset(n, k - 1) % 0x1_0000]
  }

  function Zeros(k: nat): (r: seq<u16>)
    ensures |r| == k && forall i | 0 <= i < k :: r[i] == 0
  {
    if k == 0 then [] else Zeros(k - 1) + [0]
  }

  /** Hit count, offset table and board words. */
  function IndexWords(numHits: u16, link: nat, dtcId: nat): (r: seq<u16>)
    ensures |r| == numHits + 3
  {
    [numHits] + Offsets(numHits, numHits) + [0xFC00 + 8 * BoardNumber(link, dtcId), 0x3FFF]
  }

  /** The data words of a simulated block. */
  function SimulatedData(numHits: u16, link: nat, dtcId: nat): (r: seq<u16>)
    requires 0 < numHits
    ensures |r| == RoundUp8(13 * numHits + 3)
  {
    IndexWords(numHits, link, dtcId) + Hits(link, dtcId, 2000 / numHits, numHits)
    + Zeros(RoundUp8(13 * numHits + 3) - (13 * numHits + 3))
  }

  /** The pushes for one hit. */
  method PushHit(before: seq<u16>, link: nat, dtcId: nat, t0Step: nat, idx: nat) returns (buffer: seq<u16>)
    ensures buffer == before + HitWords(link, dtcId, t0Step, idx)
  {
    var rocId := (link % 256 + dtcId * 6) % 0x1_0000;
    buffer := before + [rocId % 0x40];
    buffer := buffer + [10 * rocId % 0x1_0000];
    buffer := buffer + [0];
    buffer := buffer + [idx * t0Step % 0x1_0000];
    buffer := buffer + [0x0607];
    buffer := buffer + [0x1111];
    buffer := buffer + [0x2222];
    buffer := buffer + [0x3333];
    buffer := buffer + [0x4444];
    buffer := buffer + [0x5555];
    buffer := buffer + [0x6666];
    buffer := buffer + [0x7777];
  }

  /** Zero words up to the packet boundary. */
  method PadToPacket(before: seq<u16>) returns (buffer: seq<u16>)
    ensures |buffer| == RoundUp8(|before|) && buffer == before + Zeros(|buffer| - |before|)
  {
    buffer := before;
    while |buffer| % 8 != 0
      invariant |before| <= |buffer| <= RoundUp8(|before|) && buffer == before + Zeros(|buffer| - |before|)
      decreases RoundUp8(|before|) - |buffer|
    {
      buffer := buffer + [0];
    }
  }

  /** The pushes before the hits. */
  method IndexPacket(header: seq<u16>, numHits: u16, link: nat, dtcId: nat) returns (buffer: seq<u16>)
    ensures buffer == header + IndexWords(numHits, link, dtcId)
  {
    buffer := header + [numHits];
    assert buffer == header + ([numHits] + Offsets(numHits, 0));
    for idx := 0 to numHits
      invariant buffer == header + ([numHits] + Offsets(numHits, idx))
    {
      buffer := buffer + [(2 + 2 * numHits + 4 + idx * 24) % 0x1_0000];
    }
    buffer := buffer + [0xFC00 + 8 * BoardNumber(link, dtcId)];
    buffer := buffer + [0x3FFF];
  }

  /** The pushes of the hits. */
  method HitPackets(before: seq<u16>, numHits: u16, link: nat, dtcId: nat) returns (buffer: seq<u16>)
    requires 0 < numHits
    ensures buffer == before + Hits(link, dtcId, 2000 / numHits, numHits)
  {
    hide HitWords;
    var t0Step := 2000 / numHits;
    buffer := before;
    for idx := 0 to numHits
      invariant buffer == before + Hits(link, dtcId, t0Step, idx)
    {
      buffer := PushHit(buffer, link, dtcId, t0Step, idx);
    }
  }

  /** calorimeterBlockSimulator_: pushes the words one after the other behind room for the header, pads to a
      whole number of packets, and fills in the header. */
  method CalorimeterBlockSimulator(numHits: u16, link: nat, dtcId: nat, status: byte, mode: byte) returns (b: Block)
    requires 0 < numHits && Fits(numHits)
    ensures b.data == SimulatedData(numHits, link, dtcId)
    ensures b.typeWord == TypeWord(link, CALORIMETER) && b.tail == Tail(status, 0, dtcId % 256, mode)
    ensures b.byteCount == 16 + 2 * |b.data| && b.packetCount == |b.data| / 8
  {
    var header: seq<u16> := [0, 0, 0, 0, 0, 0, 0, 0];
    var buffer := IndexPacket(header, numHits, link, dtcId);
    hide IndexWords, Hits, Zeros;
    buffer := HitPackets(buffer, numHits, link, dtcId);
    ghost var size := 13 * numHits + 3;
    assert |buffer| == 8 + size && RoundUp8(8 + size) == 8 + RoundUp8(size);
    buffer := PadToPacket(buffer);
    hide RoundUp8;
    var nPackets := |buffer| / 8 - 1;
    b := Block(2 * |buffer|, TypeWord(link, CALORIMETER), nPackets, Tail(status, 0, dtcId % 256, mode), buffer[8..]);
    assert buffer == header + SimulatedData(numHits, link, dtcId);
  }
}
