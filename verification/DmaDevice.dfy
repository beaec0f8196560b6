/** The device as the library sees it: the driver's poll loop, read_data and read_release on the DAQ channel,
    with their fields updated in place.  Each method is an instance of the steps of DmaRing. */
module DmaDevice {
  import opened Words
  import opened DmaRing
  import opened SubEvents

  /** What hardware and the driver's timer do between two library calls: transfers that finish, and whether a
      poll runs.  Timeouts are schedules in which nothing arrives in time. */
  datatype Arrival = Arrival(transfers: seq<Transfer>, poll: bool)

  // The library's steps of DmaRing, written as record updates.

  lemma RefreshStep(r: Ring, n: nat, log: seq<Transfer>, c: Counts)
    requires Invariant(r, n, log, c)
    ensures Invariant(r.(cached := r.kernel), n, log, c.(seen := c.published))
    ensures c.released + r.held <= c.seen <= c.published <= |log|
  {
    StepKeepsInvariant(r, Refresh, n, log, c);
  }

  lemma TakeStep(r: Ring, n: nat, log: seq<Transfer>, c: Counts)
    requires Invariant(r, n, log, c)
    ensures Delta(r.cached, n) > r.held ==>
              && c.released + r.held < |log|
              && NextSlot(r, n) == SlotOf(c.released + r.held, n) < |r.meta|
              && r.meta[NextSlot(r, n)] == log[c.released + r.held].count
              && Invariant(r.(held := r.held + 1), n, log, c)
    ensures Delta(r.cached, n) <= r.held && c.seen == c.published ==> c.published == c.released + r.held
  {
    TakeSucceedsIff(r, n, log, c);
    IndexAdds(c.released, r.held + 1, n);
    if Delta(r.cached, n) > r.held {
      TakeIsNext(r, n, log, c);
      StepKeepsInvariant(r, Take, n, log, c);
    }
  }

  /** Giving back up to as many slots as have been seen keeps the ring consistent; slots given back unread
      are skipped. */
  lemma ReleaseStep(r: Ring, num: nat, n: nat, log: seq<Transfer>, c: Counts)
    requires Invariant(r, n, log, c)
    ensures r.held <= Delta(r.cached, n) == c.seen - c.released < n
    ensures num <= Delta(r.cached, n) ==>
              Invariant(r.(kernel := Info(r.kernel.hwIdx, IdxAdd(r.kernel.swIdx, num, n)),
                           cached := Info(r.cached.hwIdx, IdxAdd(r.cached.swIdx, num, n)),
                           held := if num <= r.held then r.held - num else 0),
                        n, log, c.(released := c.released + num))
  {
    DeltaIsDistance(c.seen, c.released, n);
    IndexAdds(c.released, num, n);
  }

  class Mu2eDev {
    const n: nat
    var kernelHw: nat
    var kernelSw: nat
    var cachedHw: nat
    var cachedSw: nat
    var buffersHeld: nat
    var cmplt: nat
    const descriptors: array<nat>
    const meta: array<nat>
    const slots: array<seq<byte>>
    var schedule: seq<Arrival>
    ghost var stored: bool
    ghost var log: seq<Transfer>
    ghost var counts: Counts

    ghost function State(): Ring
      reads this, descriptors, meta, slots
    {
      Ring(Info(kernelHw, kernelSw), Info(cachedHw, cachedSw), buffersHeld, cmplt, stored,
           descriptors[..], meta[..], slots[..])
    }

    ghost predicate Valid()
      reads this, descriptors, meta, slots
    {
      && 1 < n <= 0x1_0000
      && descriptors != meta
      && Invariant(State(), n, log, counts)
      && !stored
    }

    /** How many transfers have been read. */
    ghost function Taken(): nat
      reads this
    {
      counts.released + buffersHeld
    }

    constructor (n: nat, schedule: seq<Arrival>)
      requires 1 < n <= 0x1_0000
      ensures Valid() && this.n == n && log == [] && counts == Counts(0, 0, 0) && buffersHeld == 0
      ensures this.schedule == schedule
      ensures fresh(descriptors) && fresh(meta) && fresh(slots)
    {
      this.n := n;
      kernelHw, kernelSw, cachedHw, cachedSw, cmplt := n - 1, n - 1, n - 1, n - 1, n - 1;
      buffersHeld := 0;
      descriptors, meta, slots := new nat[n], new nat[n], new seq<byte>[n];
      this.schedule := schedule;
      stored, log, counts := false, [], Counts(0, 0, 0);
      new;
      InvariantAtStart(n, descriptors[..], meta[..], slots[..]);
    }

    /** Hardware finishes a transfer. */
    method Complete(t: Transfer)
      requires Valid() && Enabled(State(), DmaRing.Complete(t), n)
      modifies this`cmplt, this`log, slots, descriptors
      ensures Valid() && log == old(log) + [t]
    {
      StepKeepsInvariant(State(), DmaRing.Complete(t), n, log, counts);
      var i := IdxAdd(cmplt, 1, n);
      cmplt := i;
      slots[i] := t.data;
      descriptors[i] := t.count;
      log := log + [t];
      assert State() == Next(old(State()), DmaRing.Complete(t), n);
    }

    /** The poll loop: for each newly completed slot, store the byte count, then move hwIdx. */
    method PollPackets()
      requires Valid()
      modifies this`kernelHw, this`stored, this`counts, meta
      ensures Valid() && counts == old(counts).(published := |log|)
      ensures kernelHw == cmplt
    {
      var newCmpltIdx := cmplt;
      IndicesDiffer(|log|, counts.published, n);
      while newCmpltIdx != kernelHw
        invariant Valid()
        invariant counts == old(counts).(published := counts.published)
        invariant newCmpltIdx == kernelHw <==> counts.published == |log|
        decreases |log| - counts.published
      {
        PublishNext();
        IndicesDiffer(|log|, counts.published, n);
      }
    }

    /** One turn of the poll loop. */
    method PublishNext()
      requires Valid() && counts.published < |log|
      modifies this`kernelHw, this`stored, this`counts, meta
      ensures Valid() && counts == old(counts).(published := old(counts).published + 1)
    {
      PublishKeepsInvariant(State(), n, log, counts);
      hide Invariant;
      var nxtCachedCmpltIdx := IdxAdd(kernelHw, 1, n);
      meta[nxtCachedCmpltIdx] := descriptors[nxtCachedCmpltIdx];
      stored := true;
      kernelHw := nxtCachedCmpltIdx;
      stored := false;
      counts := counts.(published := counts.published + 1);
      assert State() == Published(old(State()), n);
    }

    /** Whatever the schedule says happens next. */
    method Environment()
      requires Valid()
      modifies this`cmplt, this`log, this`kernelHw, this`stored, this`counts, this`schedule, slots, descriptors, meta
      ensures Valid()
      ensures old(log) <= log && counts == old(counts).(published := counts.published)
      ensures old(AllProper(log) && ScheduleProper(schedule)) ==> AllProper(log) && ScheduleProper(schedule)
    {
      hide Invariant, Proper;
      if schedule == [] { return; }
      var now := schedule[0];
      schedule := schedule[1..];
      for i := 0 to |now.transfers|
        invariant Valid() && counts == old(counts) && schedule == old(schedule)[1..]
        invariant old(log) <= log
        invariant old(AllProper(log) && ScheduleProper(schedule)) ==> AllProper(log)
      {
        if IdxAdd(cmplt, 1, n) != kernelSw {
          Complete(now.transfers[i]);
        }
      }
      if now.poll { PollPackets(); }
    }

    /** read_data: the slot after those already held, looking at the driver's indices only when the cached ones
        promise nothing. */
    method ReadData() returns (retsts: nat, buffer: nat, ghost took: bool)
      requires Valid()
      modifies this`cachedHw, this`cachedSw, this`buffersHeld, this`counts
      ensures Valid() && counts == old(counts).(seen := counts.seen)
      ensures buffer < n
      ensures took ==>
                && old(Taken()) < |log|
                && buffersHeld == old(buffersHeld) + 1
                && buffer == SlotOf(old(Taken()), n)
                && retsts == log[old(Taken())].count
      ensures !took ==> retsts == 0 && buffersHeld == old(buffersHeld) && counts.published == Taken()
    {
      hide Invariant;
      took := false;
      retsts, buffer := 0, 0;
      ghost var r := State();
      RefreshStep(r, n, log, counts);
      var hasRecvData := Delta(Info(cachedHw, cachedSw), n);
      if !(hasRecvData > buffersHeld) {
        cachedHw, cachedSw := kernelHw, kernelSw;
        counts := counts.(seen := counts.published);
        hasRecvData := Delta(Info(cachedHw, cachedSw), n);
        r := r.(cached := r.kernel);
      }
      assert State() == r;
      TakeStep(r, n, log, counts);
      if hasRecvData > buffersHeld {
        var newNxtIdx := IdxAdd(cachedSw, buffersHeld + 1, n);
        retsts := meta[newNxtIdx];
        buffer := newNxtIdx;
        buffersHeld := buffersHeld + 1;
        took := true;
        assert State() == r.(held := r.held + 1);
      }
    }

    /** read_release: gives back the oldest `num` slots if that many have been seen. */
    method ReadRelease(num: nat)
      requires Valid()
      modifies this`kernelSw, this`cachedSw, this`buffersHeld, this`counts
      ensures Valid()
      ensures old(counts.released + buffersHeld) <= old(counts).seen
      ensures if old(counts).released + num <= old(counts).seen then
                && counts == old(counts).(released := old(counts).released + num)
                && buffersHeld == (if num <= old(buffersHeld) then old(buffersHeld) - num else 0)
              else
                counts == old(counts) && buffersHeld == old(buffersHeld)
    {
      hide Invariant;
      ghost var r := State();
      ReleaseStep(r, num, n, log, counts);
      var hasRecvData := Delta(Info(cachedHw, cachedSw), n);
      if num <= hasRecvData {
        assert num % 0x1_0000 == num;
        kernelSw := IdxAdd(kernelSw, num % 0x1_0000, n);
        cachedSw := IdxAdd(cachedSw, num, n);
        buffersHeld := if num <= buffersHeld then buffersHeld - num else 0;
        counts := counts.(released := counts.released + num);
        assert State() == r.(kernel := Info(r.kernel.hwIdx, IdxAdd(r.kernel.swIdx, num, n)),
                             cached := Info(r.cached.hwIdx, IdxAdd(r.cached.swIdx, num, n)),
                             held := if num <= r.held then r.held - num else 0);
      }
    }
  }

  predicate ScheduleProper(schedule: seq<Arrival>) {
    forall k | 0 <= k < |schedule| :: AllProper(schedule[k].transfers)
  }
}
