/** The DTC library's receive path on the DAQ channel: its deque of buffers, the reassembly of sub-events that
    span transfers, and GetSubEventData.

    Runs use the DAQ channel only, transfers have a positive byte count and a size field above 8 (Proper);
    the sub-event classes are reduced to the bytes they wrap, a reader of the header's byte count and tag,
    and a test whether the payload can be set up. */
module DtcReceive {
  import opened Words
  import opened Outcomes
  import opened DmaRing
  import opened DmaDevice
  import opened SubEvents

  /** What the original throws. */
  datatype DtcError = BufferAlreadyOnhand | SameBufferTwice | HeaderTooSmall | PartialSubEvent | SetupFailed

  /** A position in a slot. */
  datatype Pointer = Null | At(slot: nat, offset: nat)

  /** The sub-event classes, as far as they matter here. */
  datatype Format = Format(headerSize: nat, byteCount: CountReader, tag: seq<byte> -> nat, canSetUp: seq<byte> -> bool)

  /** The held buffers are the slots of the transfers read since the last release, in order. */
  predicate HoldsSlots(buffer: seq<nat>, first: nat, n: nat)
    requires 0 < n
  {
    forall i: nat | i < |buffer| :: buffer[i] == SlotOf(first + i, n)
  }

  class Dtc {
    const device: Mu2eDev
    const format: Format
    var buffer: seq<nat>
    var bufferIndex: nat
    var currentReadPtr: Pointer
    var lastReadPtr: Pointer

    ghost predicate Valid()
      reads this`buffer, device, device.descriptors, device.meta, device.slots
    {
      && device.Valid()
      && |buffer| == device.buffersHeld
      && HoldsSlots(buffer, device.counts.released, device.n)
      && AllProper(device.log) && ScheduleProper(device.schedule)
    }

    constructor (device: Mu2eDev, format: Format)
      requires device.Valid() && device.buffersHeld == 0 && AllProper(device.log) && ScheduleProper(device.schedule)
      ensures Valid() && this.device == device && this.format == format && buffer == []
    {
      this.device, this.format := device, format;
      buffer, bufferIndex, currentReadPtr, lastReadPtr := [], 0, Null, Null;
    }

    /** The count of held buffers, or -1. */
    function GetCurrentBuffer(): (r: int)
      reads this
      ensures |buffer| > 0 ==> r == |buffer|
      ensures |buffer| == 0 ==> r < 0
    {
      if |buffer| > 0 then |buffer| else -1
    }

    /** The size field of a held buffer; 0 for an index that is not held. */
    function GetBufferByteCount(index: nat): (r: nat)
      requires Valid()
      reads this`buffer, device, device.descriptors, device.meta, device.slots
      ensures index < |buffer| ==>
                && device.counts.released + index < |device.log|
                && r == SizeField(device.log[device.counts.released + index].data) > 8
      ensures index >= |buffer| ==> r == 0
    {
      if index >= |buffer| then 0
      else
        HeldSlot(device.State(), device.n, device.log, device.counts, index);
        SizeField(device.slots[buffer[index]])
    }

    /** The do-while loop around read_data. */
    method PollDevice(retries: int) returns (errorCode: nat, slot: nat)
      requires Valid()
      modifies device, device.descriptors, device.meta, device.slots
      ensures old(device.log) <= device.log && device.Valid()
      ensures AllProper(device.log) && ScheduleProper(device.schedule)
      ensures device.counts.released == old(device.counts.released)
      ensures errorCode > 0 ==>
                && slot == SlotOf(old(device.Taken()), device.n)
                && old(device.Taken()) < |device.log| && device.buffersHeld == old(device.buffersHeld) + 1
      ensures errorCode == 0 ==>
                device.buffersHeld == old(device.buffersHeld) && device.counts.published == device.Taken()
    {
      hide Proper, Invariant;
      var retry := if retries > 0 then retries else 1;
      errorCode, slot := 0, 0;
      var first := true;
      while first || (retry >= 0 && errorCode == 0)
        invariant device.Valid() && AllProper(device.log) && ScheduleProper(device.schedule)
        invariant device.counts.released == old(device.counts.released) && old(device.log) <= device.log
        invariant first ==> errorCode == 0
        invariant errorCode == 0 ==> device.buffersHeld == old(device.buffersHeld)
        invariant !first && errorCode == 0 ==> device.counts.published == device.Taken()
        invariant errorCode > 0 ==>
                    && slot == SlotOf(old(device.Taken()), device.n)
                    && old(device.Taken()) < |device.log| && device.buffersHeld == old(device.buffersHeld) + 1
        decreases first, retry
      {
        first := false;
        device.Environment();
        ghost var took;
        errorCode, slot, took := device.ReadData();
        if took { ProperCounts(device.log[old(device.Taken())]); }
        retry := retry - 1;
      }
    }

    /** Tries to read one more buffer; 0 is a timeout. */
    method ReadBuffer(retries: int) returns (errorCode: nat)
      requires Valid()
      modifies this`buffer, device, device.descriptors, device.meta, device.slots
      ensures Valid() && old(device.log) <= device.log
      ensures device.counts.released == old(device.counts.released)
      ensures errorCode > 0 ==>
                && |buffer| == |old(buffer)| + 1 && buffer[..|old(buffer)|] == old(buffer)
                && Held()[..|old(buffer)|] == old(Held())
                && buffer[|old(buffer)|] !in old(buffer)
      ensures errorCode == 0 ==>
                buffer == old(buffer) && Held() == old(Held()) && device.counts.published == device.Taken()
    {
      hide Proper, Invariant;
      InvariantBounds(device.State(), device.n, device.log, device.counts);
      var slot;
      errorCode, slot := PollDevice(retries);
      if errorCode > 0 {
        SlotIsNew(buffer, device.counts.released, device.n, device.State(), device.log, device.counts);
        buffer := buffer + [slot];
      }
      SameTransfers(old(device.log), device.log, device.counts.released, old(device.Taken()), device.Taken());
    }

    /** Up to ten rounds of ReadBuffer, once part of a sub-event has arrived. */
    method ReadMore() returns (sts: nat)
      requires Valid()
      modifies this`buffer, device, device.descriptors, device.meta, device.slots
      ensures Valid() && old(device.log) <= device.log
      ensures device.counts.released == old(device.counts.released)
      ensures sts > 0 ==>
                && |buffer| == |old(buffer)| + 1 && buffer[..|old(buffer)|] == old(buffer)
                && Held()[..|old(buffer)|] == old(Held())
                && buffer[|old(buffer)|] !in old(buffer)
      ensures sts == 0 ==>
                buffer == old(buffer) && Held() == old(Held()) && device.counts.published == device.Taken()
    {
      hide Invariant, Proper, HoldsSlots;
      sts := ReadBuffer(10);
      var retry := 9;
      while sts == 0 && retry > 0
        invariant Valid() && old(device.log) <= device.log
        invariant device.counts.released == old(device.counts.released)
        invariant sts > 0 ==>
                && |buffer| == |old(buffer)| + 1 && buffer[..|old(buffer)|] == old(buffer)
                && Held()[..|old(buffer)|] == old(Held())
                && buffer[|old(buffer)|] !in old(buffer)
        invariant sts == 0 ==>
                buffer == old(buffer) && Held() == old(Held()) && device.counts.published == device.Taken()
      {
        sts := ReadBuffer(10);
        retry := retry - 1;
      }
    }

    /** Gives back every buffer read so far. */
    method ReleaseBuffers()
      requires Valid()
      modifies this`buffer, device`kernelSw, device`cachedSw, device`buffersHeld, device`counts
      ensures Valid() && buffer == []
      // exactly the buffers that were read, no unread one
      ensures device.counts.released == old(device.Taken())
    {
      hide Invariant, Proper;
      var releaseBufferCount := GetCurrentBuffer();
      if releaseBufferCount > 0 {
        device.ReadRelease(releaseBufferCount);
        for ii := 0 to releaseBufferCount
          invariant buffer == old(buffer)[ii..]
          modifies this`buffer
        {
          buffer := buffer[1..];
        }
      }
    }

    /** The transfers held now. */
    ghost function Held(): (ts: seq<Transfer>)
      requires Valid()
      reads this`buffer, device, device.descriptors, device.meta, device.slots
      ensures |ts| == |buffer| && AllProper(ts)
    {
      InvariantBounds(device.State(), device.n, device.log, device.counts);
      device.log[device.counts.released..device.Taken()]
    }

    /** What stands after the header of a held buffer. */
    function PayloadAt(index: nat): (r: seq<byte>)
      requires Valid() && index < |buffer|
      reads this`buffer, device, device.descriptors, device.meta, device.slots
      ensures Proper(Held()[index]) && r == Payload(Held()[index])
    {
      HeldSlot(device.State(), device.n, device.log, device.counts, index);
      var data := device.slots[buffer[index]];
      assert Proper(device.log[device.counts.released + index]);
      data[8..SizeField(data)]
    }

    lemma PayloadSize(index: nat)
      requires Valid() && index < |buffer|
      ensures GetBufferByteCount(index) == 8 + |PayloadAt(index)|
    {
    }

    /** The newest buffer's payload, as much of it as is missing. */
    method CopyLast(inmem: array<byte>, ghost before: seq<Transfer>, bytesRead: nat) returns (size: nat, copySize: nat)
      requires Valid() && |buffer| > 1 && bytesRead < inmem.Length && Partial(inmem[..], before, bytesRead)
      requires |Held()| == |before| + 1 && Held()[..|before|] == before
      modifies inmem
      ensures Valid() && Held() == old(Held()) && Held()[0] == before[0] && size > 0
      ensures Partial(inmem[..], Held(), bytesRead + size)
    {
      hide Invariant, Proper, Payload, SizeField, HoldsSlots, Partial, Held, PayloadAt;
      var payload := PayloadAt(|buffer| - 1);
      size, copySize := |payload|, Min(inmem.Length - bytesRead, |payload|);
      PartialStep(inmem[..], before, Held(), bytesRead);
      CopyInto(inmem, bytesRead, payload, copySize);
    }

    /** The continuation loop: more buffers until the sub-event is complete. */
    method ContinueSubEvent(total: nat) returns (r: Result<seq<byte>, DtcError>)
      requires Valid() && |buffer| == 1 && |PayloadAt(0)| < total == format.byteCount(PayloadAt(0))
      modifies this`buffer, this`bufferIndex, this`currentReadPtr, this`lastReadPtr,
               device, device.descriptors, device.meta, device.slots
      ensures Valid() && old(device.log) <= device.log
      ensures device.counts.released == old(device.counts.released)
      ensures r.Ok? ==> |r.value| == total && IsSubEvent(Held(), r.value, format.byteCount)
      ensures r.Err? ==>
                && r == Err(PartialSubEvent) && device.counts.published == device.Taken()
                && Held() != [] && format.byteCount(Payload(Held()[0])) > |Gathered(Held())|
    {
      hide Invariant, Proper, Payload, SizeField, HoldsSlots, Partial, Valid, Held, PayloadAt;
      lastReadPtr := currentReadPtr;
      var inmem := new byte[total];
      var first := PayloadAt(0);
      CopyInto(inmem, 0, first, |first|);
      var bytesRead := |first|;
      PartialStart(inmem[..], Held());
      while bytesRead < total
        invariant Valid() && fresh(inmem) && |buffer| >= 1
        invariant old(device.log) <= device.log && device.counts.released == old(device.counts.released)
        invariant total == format.byteCount(Payload(Held()[0]))
        invariant Partial(inmem[..], Held(), bytesRead)
        decreases total - bytesRead
      {
        ghost var before := Held();
        var oldBufferPtr := buffer[|buffer| - 1];
        var sts := ReadMore();
        if sts == 0 {
          PartialSize(inmem[..], before, bytesRead);
          return Err(PartialSubEvent);
        }
        var slot := buffer[|buffer| - 1];
        currentReadPtr := At(slot, 0);
        if slot == oldBufferPtr { return Err(SameBufferTwice); }
        bufferIndex := bufferIndex + 1;
        currentReadPtr := At(slot, 8);
        var size, copySize := CopyLast(inmem, before, bytesRead);
        bytesRead := bytesRead + size;
        currentReadPtr := At(slot, 8 + copySize);
      }
      PartialEnd(inmem[..], Held(), bytesRead, format.byteCount);
      r := Ok(inmem[..]);
    }

    /** The next sub-event, if one has arrived: at most one DMA buffer is consumed beyond what it needs, and none
        is left half read.  The test for buffers already on hand, and the test for a buffer received twice,
        are there as in the original. */
    method ReadNextDAQSubEventDMA(tmo: int) returns (r: Result<Option<seq<byte>>, DtcError>)
      requires Valid() && 0 < format.headerSize
      modifies this`buffer, this`bufferIndex, this`currentReadPtr, this`lastReadPtr,
               device, device.descriptors, device.meta, device.slots
      ensures Valid() && old(device.log) <= device.log
      ensures device.counts.released == old(device.counts.released)
      ensures r == Err(BufferAlreadyOnhand) <==> old(buffer) != []
      ensures old(buffer) != [] ==> buffer == old(buffer)
      ensures old(buffer) == [] ==> SubEventRead(r, Held(), device.counts.published == device.Taken(), format)
    {
      hide Invariant, Proper, Payload, SizeField, HoldsSlots, Valid, Held, PayloadAt;
      var index := GetCurrentBuffer();
      if index >= 0 { return Err(BufferAlreadyOnhand); }
      var sts := ReadBuffer(tmo);
      if sts == 0 { return Ok(None); }
      var slot := buffer[|buffer| - 1];
      currentReadPtr := At(slot, 0);
      bufferIndex := bufferIndex + 1;
      currentReadPtr := At(slot, 8);
      index := |buffer| - 1;
      var first := PayloadAt(index);
      var total := format.byteCount(first);
      if total < format.headerSize { return Err(HeaderTooSmall); }
      var remainingBufferSize := GetBufferByteCount(index);
      PayloadSize(index);
      remainingBufferSize := remainingBufferSize - 8;
      var subEvent;
      if total > remainingBufferSize {
        var glued := ContinueSubEvent(total);
        if glued.Err? { return Err(glued.error); }
        subEvent := glued.value;
      } else {
        lastReadPtr := currentReadPtr;
        currentReadPtr := At(slot, 8 + total);
        OneTransfer(Held(), total, format.byteCount);
        subEvent := first[..total];
      }
      r := if format.canSetUp(subEvent) then Ok(Some(subEvent)) else Err(SetupFailed);
    }

    /** One sub-event a call, after giving back everything read before.

        Whatever the outcome -- data, nothing, a wrong tag, an exception -- the deque and the device's
        buffers_held_ agree before and after, exactly the transfers read by earlier calls have been given
        back, and neither "impossible" exception can occur.  So calls deliver consecutive sub-events of the
        stream of transfers. */
    method GetSubEventData(when: nat, matchEventWindowTag: bool) returns (r: Result<seq<seq<byte>>, DtcError>)
      requires Valid() && 0 < format.headerSize
      modifies this`buffer, this`bufferIndex, this`currentReadPtr, this`lastReadPtr,
               device, device.descriptors, device.meta, device.slots
      ensures Valid() && |buffer| == device.buffersHeld && old(device.log) <= device.log
      ensures device.counts.released == old(device.Taken())
      ensures r != Err(BufferAlreadyOnhand) && r != Err(SameBufferTwice)
      ensures var allRead := device.counts.published == device.Taken();
              match r
              case Err(e) => SubEventRead(Err(e), Held(), allRead, format)
              case Ok(out) =>
                || (out == [] && SubEventRead(Ok(None), Held(), allRead, format))
                || exists s :: SubEventRead(Ok(Some(s)), Held(), allRead, format)
                               && out == if matchEventWindowTag && format.tag(s) != when then [] else [s]
    {
      hide Invariant, Proper, Payload, SizeField, HoldsSlots, PayloadAt, IsSubEvent, SubEventRead;
      ReleaseBuffers();
      var packet: Option<seq<byte>> := None;
      var tries := 0;
      while packet.None? && tries < 3
        invariant Valid() && old(device.log) <= device.log && device.counts.released == old(device.Taken())
        invariant packet.None? ==> buffer == []
        invariant tries == 0 ==> packet == None
        invariant tries > 0 ==> SubEventRead(Ok(packet), Held(), device.counts.published == device.Taken(), format)
      {
        var next := ReadNextDAQSubEventDMA(100);
        NothingOnHand(next, Held(), device.counts.published == device.Taken(), format);
        if next.Err? { return Err(next.error); }
        packet := next.value;
        tries := tries + 1;
      }
      if packet.None? { return Ok([]); }
      if format.tag(packet.value) != when && matchEventWindowTag {
        currentReadPtr := lastReadPtr;
        return Ok([]);
      }
      r := Ok([packet.value]);
    }
  }

  /** The outcomes of reading one sub-event with no buffer on hand, in terms of the transfers held afterwards. */
  ghost predicate SubEventRead(r: Result<Option<seq<byte>>, DtcError>, held: seq<Transfer>, allRead: bool,
                               format: Format)
  {
    match r
    case Ok(None) => held == [] && allRead
    case Ok(Some(s)) => IsSubEvent(held, s, format.byteCount) && |s| >= format.headerSize && format.canSetUp(s)
    case Err(HeaderTooSmall) =>
      |held| == 1 && AllProper(held) && format.byteCount(Payload(held[0])) < format.headerSize
    case Err(PartialSubEvent) =>
      allRead && held != [] && AllProper(held) && format.byteCount(Payload(held[0])) > |Gathered(held)|
    case Err(SetupFailed) => exists s :: IsSubEvent(held, s, format.byteCount) && !format.canSetUp(s)
    case Err(_) => false
  }

  lemma NothingOnHand(r: Result<Option<seq<byte>>, DtcError>, held: seq<Transfer>, allRead: bool, format: Format)
    requires SubEventRead(r, held, allRead, format)
    ensures r == Ok(None) ==> held == []
    ensures r != Err(BufferAlreadyOnhand) && r != Err(SameBufferTwice)
  {
  }

  lemma OneTransfer(ts: seq<Transfer>, total: nat, count: CountReader)
    requires |ts| == 1 && AllProper(ts) && 0 < total <= |Payload(ts[0])| && total == count(Payload(ts[0]))
    ensures IsSubEvent(ts, Payload(ts[0])[..total], count)
  {
    assert ts[..0] == [];
    assert Gathered(ts) == [] + Payload(ts[0]) == Payload(ts[0]);
  }

  /** A longer log holds the same transfers at the same places. */
  lemma SameTransfers(log: seq<Transfer>, log': seq<Transfer>, a: nat, b: nat, b': nat)
    requires log <= log' && a <= b <= |log| && b <= b' <= |log'|
    ensures log'[a..b'][..b - a] == log[a..b]
    ensures b == b' ==> log'[a..b'] == log[a..b]
  {
    forall k | 0 <= k < b - a ensures log'[a..b'][k] == log[a..b][k] {
      assert log'[a..b'][k] == log'[a + k] == log[a + k];
    }
  }

  lemma ProperCounts(t: Transfer)
    requires Proper(t)
    ensures t.count > 0
  {
  }

  /** The slot of the next transfer is none of the held ones. */
  lemma SlotIsNew(buffer: seq<nat>, first: nat, n: nat, r: Ring, log: seq<Transfer>, c: Counts)
    requires Invariant(r, n, log, c) && HoldsSlots(buffer, first, n) && first == c.released && r.held == |buffer| + 1
    ensures SlotOf(first + |buffer|, n) !in buffer
  {
    forall i: nat | i < |buffer| ensures buffer[i] != SlotOf(first + |buffer|, n) {
      SlotsDiffer(first + i, first + |buffer|, n);
    }
  }

  /** The i-th held slot holds the i-th transfer since the last release. */
  lemma HeldSlot(r: Ring, n: nat, log: seq<Transfer>, c: Counts, i: nat)
    requires Invariant(r, n, log, c) && i < r.held
    ensures c.released + i < |log| && SlotOf(c.released + i, n) < |r.slots|
    ensures r.slots[SlotOf(c.released + i, n)] == log[c.released + i].data
  {
  }
}
