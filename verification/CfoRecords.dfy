/** The extraction loop of ReadNextCFORecordDMA: event records, each behind a size word, in one DMA buffer.

    The size of a record and where its tag lies belong to headers that are not part of this model: both are
    parameters. */
module CfoRecords {
  import opened Outcomes
  import opened Words

  const BUFFER_SIZE: nat := 0x1_0000

  datatype Fault = ImpossibleSize | RepeatedTag(tag: nat) | Leftover(size: nat) | Overrun

  type Record = seq<byte>

  /** A DMA buffer and what is known of the records in it. */
  datatype Buffer = Buffer(data: seq<byte>, size: nat, tagOf: Record -> nat) {
    ghost predicate Valid() {
      |data| == BUFFER_SIZE && 8 <= size && forall r :: tagOf(r) < TWO48
    }

    /** A record and the size word in front of it. */
    function Stride(): (r: nat)
      ensures r > 0
    {
      size + 8
    }

    /** Where record i starts: past the first size word, one stride apart. */
    function Offset(i: nat): nat { 8 + i * Stride() }

    predicate Holds(i: nat) { Offset(i) + size <= |data| }

    function RecordAt(i: nat): Record
      requires Holds(i)
    {
      data[Offset(i)..Offset(i) + size]
    }

    function TagAt(i: nat): nat {
      if Holds(i) then tagOf(RecordAt(i)) else 0
    }

    /** Among the first n records none repeats the tag of the one before. */
    predicate Distinct(n: nat) {
      forall i | 0 < i < n :: TagAt(i) != TagAt(i - 1)
    }

    predicate Extracted(output: seq<Record>) {
      forall i | 0 <= i < |output| :: Holds(i) && output[i] == RecordAt(i)
    }
  }

  /** Subtraction of unsigned 64-bit numbers. */
  function Minus(a: u64, b: nat): (r: u64)
    requires b < TWO64
    ensures r == if b <= a then a - b else a - b + TWO64
  {
    (a + TWO64 - b) % TWO64
  }

  lemma StrideStep(b: Buffer, n: nat)
    ensures b.Offset(n + 1) == b.Offset(n) + b.size + 8
    ensures (n + 1) * b.Stride() == n * b.Stride() + b.Stride()
  {
  }

  /** n whole strides and rem bytes fit into m in one way. */
  lemma WholeRecords(m: nat, stride: nat, n: nat)
    requires stride > 0
    ensures n * stride <= m < n * stride + stride <==> n == m / stride
    ensures n == m / stride ==> m - n * stride == m % stride
  {
    if n * stride <= m < n * stride + stride {
      DivModUnique(m, stride, n, m - n * stride);
    }
    assert m == m / stride * stride + m % stride;
  }

  /** What remains after n records, as the unsigned counter has it. */
  ghost predicate Remains(b: Buffer, m: nat, n: nat, remaining: u64) {
    if n * b.Stride() <= m then remaining as int == m - n * b.Stride()
    else remaining as int == m - n * b.Stride() + TWO64 && b.size <= m % b.Stride()
  }

  /** One turn: the counter wraps around when a record is left without its size word. */
  lemma RemainsAfter(b: Buffer, m: nat, n: nat, remaining: u64)
    requires b.Valid() && m < BUFFER_SIZE && Remains(b, m, n, remaining) && remaining >= b.size && b.Holds(n)
    ensures Remains(b, m, n + 1, Minus(Minus(remaining, 8), b.size))
  {
    var s := b.Stride();
    StrideStep(b, n);
    assert n * s <= BUFFER_SIZE;
    if n * s <= m < (n + 1) * s { WholeRecords(m, s, n); }
  }

  /** The loop's end: fewer bytes than a record are left, after all whole strides. */
  lemma RemainsAtEnd(b: Buffer, m: nat, n: nat, remaining: u64)
    requires b.Valid() && m < BUFFER_SIZE && Remains(b, m, n, remaining) && remaining < b.size
    requires n == 0 || b.Holds(n - 1)
    ensures n == m / b.Stride() && remaining == m % b.Stride()
  {
    if n > 0 { StrideStep(b, n - 1); }
    assert n * b.Stride() <= BUFFER_SIZE;
    WholeRecords(m, b.Stride(), n);
  }

  /** Inside the loop: either another whole stride is due, or a record without its size word is left. */
  lemma RemainsInside(b: Buffer, m: nat, n: nat, remaining: u64)
    requires b.Valid() && m < BUFFER_SIZE && Remains(b, m, n, remaining) && remaining >= b.size
    ensures n < m / b.Stride() || b.size <= m % b.Stride()
    ensures n < m / b.Stride() ==> b.Holds(n)
  {
    var s := b.Stride();
    var k := m / s;
    WholeRecords(m, s, k);
    if n < k {
      FewerStrides(s, n, k);
    } else if n > k {
      FewerStrides(s, k, n);
    }
  }

  lemma FewerStrides(s: nat, n: nat, k: nat)
    requires n < k
    ensures n * s + s <= k * s
  {
    var d := k - n - 1;
    assert d * s >= 0;
    assert k * s == d * s + n * s + s;
  }

  lemma StartsEmpty(b: Buffer)
    ensures b.Distinct(0) && b.Extracted([])
  {
  }

  /** One more record. */
  lemma Recorded(b: Buffer, output: seq<Record>, res: Record)
    requires b.Valid() && b.Extracted(output) && b.Distinct(|output|)
    requires b.Holds(|output|) && res == b.data[b.Offset(|output|)..b.Offset(|output|) + b.size]
    ensures b.Extracted(output + [res]) && b.TagAt(|output|) == b.tagOf(res) < TWO48
    ensures (|output| > 0 ==> b.TagAt(|output| - 1) != b.tagOf(res)) ==> b.Distinct(|output| + 1)
  {
    hide Buffer.Offset;
    assert res == b.RecordAt(|output|);
  }

  /** Exactly when the loop succeeds, and with which fault it stops otherwise. */
  ghost predicate Explains(b: Buffer, metaBufferSize: nat, n: nat, fault: Option<Fault>)
    requires 1 <= metaBufferSize
  {
    var m, s := metaBufferSize - 1, b.Stride();
    && (fault == None <==> metaBufferSize != BUFFER_SIZE && m % s == 0 && b.Distinct(m / s))
    && (fault.Some? && fault.value.Leftover? <==>
          metaBufferSize != BUFFER_SIZE && 0 < m % s < b.size && b.Distinct(m / s))
    && (fault == None ==> n == m / s)
    && (fault.Some? ==>
          match fault.value
          case ImpossibleSize => metaBufferSize == BUFFER_SIZE
          case Leftover(size) => n == m / s && size == m % s
          case RepeatedTag(tag) => n > 0 && b.Distinct(n) && tag == b.TagAt(n) == b.TagAt(n - 1)
          case Overrun => b.size <= m % s && b.Distinct(n) && !b.Holds(n))
  }

  lemma OverrunExplained(b: Buffer, metaBufferSize: nat, n: nat)
    requires 1 <= metaBufferSize < BUFFER_SIZE && b.size <= (metaBufferSize - 1) % b.Stride()
    requires b.Valid() && b.Distinct(n) && !b.Holds(n)
    ensures Explains(b, metaBufferSize, n, Some(Overrun))
  {
  }

  lemma RepeatExplained(b: Buffer, metaBufferSize: nat, n: nat, tag: nat)
    requires 1 <= metaBufferSize < BUFFER_SIZE
    requires var m, s := metaBufferSize - 1, b.Stride(); n < m / s || b.size <= m % s
    requires b.Valid() && n > 0 && b.Distinct(n) && tag == b.TagAt(n) == b.TagAt(n - 1)
    ensures Explains(b, metaBufferSize, n, Some(RepeatedTag(tag)))
  {
    hide Buffer.TagAt;
    assert n < (metaBufferSize - 1) / b.Stride() ==> !b.Distinct((metaBufferSize - 1) / b.Stride());
  }

  lemma EndExplained(b: Buffer, metaBufferSize: nat, n: nat, remaining: nat)
    requires 1 <= metaBufferSize < BUFFER_SIZE && b.Valid() && b.Distinct(n) && remaining < b.size
    requires var m, s := metaBufferSize - 1, b.Stride(); n == m / s && remaining == m % s
    ensures Explains(b, metaBufferSize, n, if remaining == 0 then None else Some(Leftover(remaining)))
  {
    hide Buffer.Distinct;
  }

  /** The loop: it takes the size word off before it looks whether a whole record is left. */
  method ExtractRecords(b: Buffer, metaBufferSize: nat) returns (output: seq<Record>, fault: Option<Fault>)
    requires b.Valid() && 1 <= metaBufferSize <= BUFFER_SIZE
    ensures b.Extracted(output) && Explains(b, metaBufferSize, |output|, fault)
  {
    if metaBufferSize == 65536 { return [], Some(ImpossibleSize); }
    ghost var m := metaBufferSize - 1;
    var remainingBufferSize: u64 := metaBufferSize - 1;
    var currentReadPtr := 8;
    var lastTag := TWO64 - 1;
    output := [];
    assert Remains(b, m, 0, m) && b.Offset(0) == 8;
    StartsEmpty(b);
    hide Explains, Remains, Minus;
    hide Buffer.Stride, Buffer.Offset, Buffer.Distinct, Buffer.TagAt, Buffer.RecordAt, Buffer.Extracted;
    while remainingBufferSize >= b.size
      invariant b.Extracted(output) && currentReadPtr == b.Offset(|output|)
      invariant |output| == 0 || b.Holds(|output| - 1)
      invariant Remains(b, m, |output|, remainingBufferSize)
      invariant lastTag == if output == [] then TWO64 - 1 else b.TagAt(|output| - 1)
      invariant b.Distinct(|output|)
      decreases |b.data| + b.size - currentReadPtr
    {
      RemainsInside(b, m, |output|, remainingBufferSize);
      ghost var remaining := remainingBufferSize;
      remainingBufferSize := Minus(remainingBufferSize, 8);
      if currentReadPtr + b.size > |b.data| {
        OverrunExplained(b, metaBufferSize, |output|);
        return output, Some(Overrun);
      }
      var res := b.data[currentReadPtr..currentReadPtr + b.size];
      Recorded(b, output, res);
      if b.tagOf(res) == lastTag {
        RepeatExplained(b, metaBufferSize, |output|, lastTag);
        return output, Some(RepeatedTag(lastTag));
      }
      lastTag := b.tagOf(res);
      StrideStep(b, |output|);
      RemainsAfter(b, m, |output|, remaining);
      currentReadPtr := currentReadPtr + b.size + 8;
      remainingBufferSize := Minus(remainingBufferSize, b.size);
      output := output + [res];
    }
    RemainsAtEnd(b, m, |output|, remainingBufferSize);
    EndExplained(b, metaBufferSize, |output|, remainingBufferSize);
    if remainingBufferSize != 0 { return output, Some(Leftover(remainingBufferSize)); }
    fault := None;
  }

  /** The smallest wrap-around: room for one record without its size word.  The counter ends eight below zero, and the
      loop never succeeds. */
  lemma CounterWraps(b: Buffer, n: nat, fault: Option<Fault>)
    requires b.Valid() && b.size + 1 < BUFFER_SIZE && Explains(b, b.size + 1, n, fault)
    ensures Minus(Minus(b.size, 8), b.size) == TWO64 - 8
    ensures fault.Some? && (fault.value.Overrun? || fault.value.RepeatedTag?)
  {
    WholeRecords(b.size, b.Stride(), 0);
  }

  // ----- Buffers built from records -----

  /** Records one after the other, each behind its size word. */
  function Laid(words: seq<seq<byte>>, records: seq<Record>): seq<byte>
    requires |words| == |records|
  {
    if records == [] then []
    else
      var n := |records| - 1;
      Laid(words[..n], records[..n]) + words[n] + records[n]
  }

  lemma {:induction false} LaidSize(words: seq<seq<byte>>, records: seq<Record>, size: nat)
    requires |words| == |records| && forall k | 0 <= k < |records| :: |words[k]| == 8 && |records[k]| == size
    ensures |Laid(words, records)| == |records| * (size + 8)
  {
    if records != [] {
      var n := |records| - 1;
      LaidSize(words[..n], records[..n], size);
      assert (n + 1) * (size + 8) == n * (size + 8) + (size + 8);
    }
  }

  lemma {:induction false} LaidRecord(words: seq<seq<byte>>, records: seq<Record>, size: nat, i: nat, at: nat)
    requires |words| == |records| && i < |records| && at == 8 + i * (size + 8)
    requires forall k | 0 <= k < |records| :: |words[k]| == 8 && |records[k]| == size
    ensures at + size <= |Laid(words, records)| && Laid(words, records)[at..at + size] == records[i]
    decreases |records|
  {
    var n := |records| - 1;
    var front := Laid(words[..n], records[..n]);
    var all := Laid(words, records);
    assert all == front + words[n] + records[n];
    hide Laid;
    if i == n {
      LaidSize(words[..n], records[..n], size);
      assert all[at..at + size] == records[n];
    } else {
      LaidRecord(words[..n], records[..n], size, i, at);
      assert all[at..at + size] == front[at..at + size];
    }
  }

  /** A buffer of n records is taken apart into just these records, without a fault exactly when no tag repeats the one
      before. */
  lemma LaidRecordsAreExtracted(b: Buffer, words: seq<seq<byte>>, records: seq<Record>, rest: seq<byte>,
                                output: seq<Record>, fault: Option<Fault>)
    requires b.Valid() && |words| == |records| && b.data == Laid(words, records) + rest
    requires forall k | 0 <= k < |records| :: |words[k]| == 8 && |records[k]| == b.size
    requires 1 + |records| * (b.size + 8) < BUFFER_SIZE
    requires b.Extracted(output) && Explains(b, 1 + |records| * (b.size + 8), |output|, fault)
    ensures fault == None <==> forall k | 0 < k < |records| :: b.tagOf(records[k]) != b.tagOf(records[k - 1])
    ensures fault == None ==> output == records
  {
    hide Laid, Buffer.Extracted, Buffer.TagAt, Buffer.Holds, Buffer.RecordAt, Explains;
    var n := |records|;
    DivModUnique(n * (b.size + 8), b.Stride(), n, 0);
    forall k | 0 <= k < n ensures b.Holds(k) && b.RecordAt(k) == records[k] && b.TagAt(k) == b.tagOf(records[k]) {
      RecordIsThere(b, words, records, rest, k);
    }
    SuccessMeans(b, n, |output|, fault);
    if fault == None {
      forall k | 0 <= k < n ensures output[k] == records[k] {
        ExtractedAt(b, output, k);
      }
    }
  }

  lemma RecordIsThere(b: Buffer, words: seq<seq<byte>>, records: seq<Record>, rest: seq<byte>, k: nat)
    requires |words| == |records| && k < |records| && b.data == Laid(words, records) + rest
    requires forall j | 0 <= j < |records| :: |words[j]| == 8 && |records[j]| == b.size
    ensures b.Holds(k) && b.RecordAt(k) == records[k] && b.TagAt(k) == b.tagOf(records[k])
  {
    hide Laid;
    var at := 8 + k * (b.size + 8);
    LaidRecord(words, records, b.size, k, at);
    assert b.Offset(k) == at;
    assert b.data[at..at + b.size] == Laid(words, records)[at..at + b.size];
  }

  lemma ExtractedAt(b: Buffer, output: seq<Record>, k: nat)
    requires b.Extracted(output) && k < |output|
    ensures b.Holds(k) && output[k] == b.RecordAt(k)
  {
  }

  lemma SuccessMeans(b: Buffer, n: nat, m: nat, fault: Option<Fault>)
    requires 1 + n * (b.size + 8) < BUFFER_SIZE && Explains(b, 1 + n * (b.size + 8), m, fault)
    ensures fault == None <==> b.Distinct(n)
    ensures fault == None ==> m == n
  {
    hide Buffer.Distinct;
    DivModUnique(n * (b.size + 8), b.Stride(), n, 0);
  }
}
