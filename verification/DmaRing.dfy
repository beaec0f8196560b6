/** The receive ring shared by hardware, driver and library, as a state machine.

    Hardware fills slots and moves its completion index; the driver stores a slot's byte count and then
    moves hwIdx; the library reads through a copy of the indices that may be stale, counts the buffers it
    holds, and gives buffers back.  Every step below is one action of one party, so a sequence of actions is
    an interleaving. */
module DmaRing {
  import opened Words

  /** A completed transfer: what hardware wrote into the slot, and how many bytes it reported. */
  datatype Transfer = Transfer(data: seq<byte>, count: nat)

  /** mu2e_channel_info_: the indices of one channel. */
  datatype Info = Info(hwIdx: nat, swIdx: nat)

  datatype Ring = Ring(
    kernel: Info,               // the driver's indices
    cached: Info,               // the library's copy
    held: nat,                  // buffers_held_
    cmplt: nat,                 // the hardware completion index
    stored: bool,               // the driver is between storing a count and moving hwIdx
    descriptors: seq<nat>,      // byte counts in the descriptor ring
    meta: seq<nat>,             // BC_p: byte counts as the library sees them
    slots: seq<seq<byte>>)      // the data buffers

  function IdxAdd(i: nat, add: nat, n: nat): (r: nat)
    requires 0 < n
    ensures r < n
  {
    (i + add) % n
  }

  /** mu2e_chn_info_delta_ for the receive direction. */
  function Delta(i: Info, n: nat): int {
    if i.hwIdx >= i.swIdx then i.hwIdx - i.swIdx else n + i.hwIdx - i.swIdx
  }

  /** The slot read_data looks at. */
  function NextSlot(r: Ring, n: nat): nat
    requires 0 < n
  {
    IdxAdd(r.cached.swIdx, r.held + 1, n)
  }

  datatype Action =
    | Complete(t: Transfer)     // hardware finishes a transfer
    | StoreCount                // driver: BC_p[next] = ByteCount
    | Advance                   // driver: hwIdx = next
    | Refresh                   // library: M_IOC_GET_INFO
    | Take                      // library: read_data finds data
    | Release(num: nat)         // library: read_release

  /** When an action can happen, in terms of the indices only. */
  predicate Enabled(r: Ring, a: Action, n: nat)
    requires 0 < n
  {
    match a
    case Complete(_) => IdxAdd(r.cmplt, 1, n) != r.kernel.swIdx
    case StoreCount => r.cmplt != r.kernel.hwIdx && !r.stored
    case Advance => r.stored
    case Refresh => true
    case Take => Delta(r.cached, n) > r.held
    case Release(num) => num <= r.held && num <= Delta(r.cached, n)
  }

  predicate Shape(r: Ring, n: nat) {
    && 1 < n
    && |r.descriptors| == |r.meta| == |r.slots| == n
    && r.kernel.hwIdx < n && r.kernel.swIdx < n && r.cached.hwIdx < n && r.cached.swIdx < n && r.cmplt < n
  }

  function Next(r: Ring, a: Action, n: nat): (r': Ring)
    requires Shape(r, n)
    ensures Shape(r', n)
  {
    match a
    case Complete(t) =>
      var i := IdxAdd(r.cmplt, 1, n);
      r.(cmplt := i, slots := r.slots[i := t.data], descriptors := r.descriptors[i := t.count])
    case StoreCount =>
      var i := IdxAdd(r.kernel.hwIdx, 1, n);
      r.(meta := r.meta[i := r.descriptors[i]], stored := true)
    case Advance => r.(kernel := r.kernel.(hwIdx := IdxAdd(r.kernel.hwIdx, 1, n)), stored := false)
    case Refresh => r.(cached := r.kernel)
    case Take => r.(held := r.held + 1)
    case Release(num) =>
      r.(kernel := r.kernel.(swIdx := IdxAdd(r.kernel.swIdx, num, n)),
         cached := r.cached.(swIdx := IdxAdd(r.cached.swIdx, num, n)),
         held := if num <= r.held then r.held - num else 0)
  }

  /** What a read hands to the caller: the slot's contents and its stored byte count. */
  function Received(r: Ring, n: nat): Transfer
    requires Shape(r, n)
  {
    Transfer(r.slots[NextSlot(r, n)], r.meta[NextSlot(r, n)])
  }

  /** The driver starts both indices at the last slot. */
  function Initial(n: nat, descriptors: seq<nat>, meta: seq<nat>, slots: seq<seq<byte>>): (r: Ring)
    requires 1 < n && |descriptors| == |meta| == |slots| == n
    ensures Shape(r, n)
  {
    Ring(Info(n - 1, n - 1), Info(n - 1, n - 1), 0, n - 1, false, descriptors, meta, slots)
  }

  // ----- Runs -----

  predicate IsRun(r: Ring, actions: seq<Action>, n: nat)
    requires Shape(r, n)
    decreases |actions|
  {
    actions == [] || (Enabled(r, actions[0], n) && IsRun(Next(r, actions[0], n), actions[1..], n))
  }

  function After(r: Ring, actions: seq<Action>, n: nat): (r': Ring)
    requires Shape(r, n)
    ensures Shape(r', n)
    decreases |actions|
  {
    if actions == [] then r else After(Next(r, actions[0], n), actions[1..], n)
  }

  /** The transfers hardware completed, in order. */
  function Completed(actions: seq<Action>): seq<Transfer> {
    if actions == [] then []
    else (if actions[0].Complete? then [actions[0].t] else []) + Completed(actions[1..])
  }

  /** The transfers the reads returned, in order. */
  function Results(r: Ring, actions: seq<Action>, n: nat): seq<Transfer>
    requires Shape(r, n)
    decreases |actions|
  {
    if actions == [] then []
    else (if actions[0].Take? then [Received(r, n)] else []) + Results(Next(r, actions[0], n), actions[1..], n)
  }

  // ----- The invariant -----

  /** How far everybody is, counted in transfers since the start. */
  datatype Counts = Counts(published: nat, seen: nat, released: nat)

  /** The slot of the t-th transfer. */
  function SlotOf(t: nat, n: nat): nat
    requires 0 < n
  {
    t % n
  }

  /** The index that stands after the first k transfers. */
  function IndexAfter(k: nat, n: nat): nat
    requires 0 < n
  {
    (n - 1 + k) % n
  }

  predicate Invariant(r: Ring, n: nat, log: seq<Transfer>, c: Counts) {
    && Shape(r, n)
    && c.released + r.held <= c.seen <= c.published <= |log| < c.released + n
    && r.cmplt == IndexAfter(|log|, n)
    && r.kernel == Info(IndexAfter(c.published, n), IndexAfter(c.released, n))
    && r.cached == Info(IndexAfter(c.seen, n), IndexAfter(c.released, n))
    && (forall t: nat | c.released <= t < |log| ::
          r.slots[SlotOf(t, n)] == log[t].data && r.descriptors[SlotOf(t, n)] == log[t].count)
    && (forall t: nat | c.released <= t < c.published :: r.meta[SlotOf(t, n)] == log[t].count)
    && (r.stored ==> c.published < |log| && r.meta[SlotOf(c.published, n)] == log[c.published].count)
  }

  // ----- Arithmetic of the ring -----

  lemma ModAdd(k: nat, d: nat, n: nat)
    requires 1 < n
    ensures (k % n + d) % n == (k + d) % n
  {
    var q, r := k / n, k % n;
    assert k == q * n + r;
    var q', r' := (r + d) / n, (r + d) % n;
    assert r + d == q' * n + r';
    assert (q + q') * n == q * n + q' * n;
    DivModUnique(k + d, n, q + q', r');
  }

  lemma AddCycle(k: nat, n: nat)
    requires 1 < n
    ensures (k + n) % n == k % n
  {
    var q, r := k / n, k % n;
    assert k == q * n + r;
    assert (q + 1) * n == q * n + n;
    DivModUnique(k + n, n, q + 1, r);
  }

  lemma IndexAdds(k: nat, d: nat, n: nat)
    requires 1 < n
    ensures IdxAdd(IndexAfter(k, n), d, n) == IndexAfter(k + d, n)
    ensures d > 0 ==> IdxAdd(IndexAfter(k, n), d, n) == SlotOf(k + d - 1, n)
  {
    var p := n - 1 + k;
    ModAdd(p, d, n);
    assert n - 1 + (k + d) == p + d;
    assert IndexAfter(k + d, n) == (p + d) % n;
    if d > 0 {
      AddCycle(k + d - 1, n);
      assert p + d == k + d - 1 + n;
    }
  }

  /** Transfers less than n apart are in different slots. */
  lemma SlotsDiffer(s: nat, t: nat, n: nat)
    requires 1 < n && s < t < s + n
    ensures SlotOf(s, n) != SlotOf(t, n)
  {
    var d := t - s;
    var q, r := s / n, s % n;
    assert s == q * n + r;
    if r + d < n {
      DivModUnique(t, n, q, r + d);
    } else {
      assert (q + 1) * n == q * n + n;
      DivModUnique(t, n, q + 1, r + d - n);
    }
  }

  lemma DeltaIsDistance(a: nat, b: nat, n: nat)
    requires 1 < n && b <= a < b + n
    ensures Delta(Info(IndexAfter(a, n), IndexAfter(b, n)), n) == a - b
  {
    var d := a - b;
    var k := n - 1 + b;
    var q, r := k / n, k % n;
    assert k == q * n + r;
    if r + d < n {
      DivModUnique(k + d, n, q, r + d);
    } else {
      assert (q + 1) * n == q * n + n;
      DivModUnique(k + d, n, q + 1, r + d - n);
    }
  }

  lemma IndicesDiffer(a: nat, b: nat, n: nat)
    requires 1 < n && b <= a < b + n
    ensures IndexAfter(a, n) == IndexAfter(b, n) <==> a == b
  {
    if a != b { SlotsDiffer(n - 1 + b, n - 1 + a, n); }
  }

  // ----- Every step keeps it -----

  /** What each action adds to the log and the counts. */
  function LogAfter(log: seq<Transfer>, a: Action): seq<Transfer> {
    if a.Complete? then log + [a.t] else log
  }

  function CountsAfter(c: Counts, a: Action): Counts {
    match a
    case Advance => c.(published := c.published + 1)
    case Refresh => c.(seen := c.published)
    case Release(num) => c.(released := c.released + num)
    case _ => c
  }

  lemma InvariantAtStart(n: nat, descriptors: seq<nat>, meta: seq<nat>, slots: seq<seq<byte>>)
    requires 1 < n && |descriptors| == |meta| == |slots| == n
    ensures Invariant(Initial(n, descriptors, meta, slots), n, [], Counts(0, 0, 0))
  {
    DivModUnique(n - 1, n, 0, n - 1);
  }

  lemma CompleteKeeps(r: Ring, t: Transfer, n: nat, log: seq<Transfer>, c: Counts)
    requires Invariant(r, n, log, c) && Enabled(r, Complete(t), n)
    ensures Invariant(Next(r, Complete(t), n), n, log + [t], c)
  {
    var k := |log|;
    var i := IdxAdd(r.cmplt, 1, n);
    IndexAdds(k, 1, n);
    assert i == SlotOf(k, n) == IndexAfter(k + 1, n);
    AddCycle(n - 1 + c.released, n);
    assert n - 1 + (c.released + n) == n - 1 + c.released + n;
    assert IndexAfter(c.released + n, n) == IndexAfter(c.released, n) != IndexAfter(k + 1, n);
    forall s: nat | c.released <= s < k ensures SlotOf(s, n) != i {
      SlotsDiffer(s, k, n);
    }
  }

  lemma StoreCountKeeps(r: Ring, n: nat, log: seq<Transfer>, c: Counts)
    requires Invariant(r, n, log, c) && Enabled(r, StoreCount, n)
    ensures Invariant(Next(r, StoreCount, n), n, log, c)
  {
    IndexAdds(c.published, 1, n);
    IndicesDiffer(|log|, c.published, n);
    forall s: nat | c.released <= s < c.published ensures SlotOf(s, n) != SlotOf(c.published, n) {
      SlotsDiffer(s, c.published, n);
    }
  }

  lemma StepKeepsInvariant(r: Ring, a: Action, n: nat, log: seq<Transfer>, c: Counts)
    requires Invariant(r, n, log, c) && Enabled(r, a, n)
    ensures Invariant(Next(r, a, n), n, LogAfter(log, a), CountsAfter(c, a))
  {
    match a
    case Complete(t) => CompleteKeeps(r, t, n, log, c);
    case StoreCount => StoreCountKeeps(r, n, log, c);
    case Advance => IndexAdds(c.published, 1, n);
    case Refresh =>
    case Take => DeltaIsDistance(c.seen, c.released, n);
    case Release(num) => IndexAdds(c.released, num, n);
  }

  /** A read looks at the oldest transfer not yet read, however stale the cached indices are, and finds it
      with the count the driver stored. */
  lemma TakeIsNext(r: Ring, n: nat, log: seq<Transfer>, c: Counts)
    requires Invariant(r, n, log, c) && Enabled(r, Take, n)
    ensures c.released + r.held < |log| && Received(r, n) == log[c.released + r.held]
  {
    DeltaIsDistance(c.seen, c.released, n);
    IndexAdds(c.released, r.held + 1, n);
  }

  /** After a refresh a read succeeds exactly when a published transfer is unread. */
  lemma TakeSucceedsIff(r: Ring, n: nat, log: seq<Transfer>, c: Counts)
    requires Invariant(r, n, log, c)
    ensures Enabled(Next(r, Refresh, n), Take, n) <==> c.released + r.held < c.published
    ensures Enabled(r, Take, n) ==> c.released + r.held < c.published
  {
    DeltaIsDistance(c.published, c.released, n);
    DeltaIsDistance(c.seen, c.released, n);
  }

  /** One turn of the poll loop: the driver's two steps. */
  function Published(r: Ring, n: nat): Ring
    requires Shape(r, n)
  {
    var i := IdxAdd(r.kernel.hwIdx, 1, n);
    r.(kernel := Info(i, r.kernel.swIdx), stored := false, meta := r.meta[i := r.descriptors[i]])
  }

  lemma PublishKeepsInvariant(r: Ring, n: nat, log: seq<Transfer>, c: Counts)
    requires Invariant(r, n, log, c) && !r.stored && c.published < |log|
    ensures Invariant(Published(r, n), n, log, c.(published := c.published + 1))
  {
    IndicesDiffer(|log|, c.published, n);
    StepKeepsInvariant(r, StoreCount, n, log, c);
    StepKeepsInvariant(Next(r, StoreCount, n), Advance, n, log, c);
    hide Invariant;
  }

  // ----- The theorem over all interleavings -----

  lemma InvariantBounds(r: Ring, n: nat, log: seq<Transfer>, c: Counts)
    requires Invariant(r, n, log, c)
    ensures c.released + r.held <= c.seen <= c.published <= |log|
  {
  }

  lemma HeldAfter(r: Ring, a: Action, n: nat)
    requires Shape(r, n) && Enabled(r, a, n)
    ensures Shape(Next(r, a, n), n)
    ensures Next(r, a, n).held == if a.Take? then r.held + 1 else if a.Release? then r.held - a.num else r.held
    ensures a.Release? ==> a.num <= r.held
  {
  }

  lemma {:induction false} ResultsFrom(r: Ring, actions: seq<Action>, n: nat, log: seq<Transfer>, c: Counts)
    requires Shape(r, n) && Invariant(r, n, log, c) && IsRun(r, actions, n)
    ensures var all := log + Completed(actions);
            var got := Results(r, actions, n);
            && c.released + r.held + |got| <= |all|
            && got == all[c.released + r.held..c.released + r.held + |got|]
    decreases |actions|
  {
    hide Invariant, Next, Enabled, Received, Shape;
    InvariantBounds(r, n, log, c);
    if actions != [] {
      var a := actions[0];
      HeldAfter(r, a, n);
      StepKeepsInvariant(r, a, n, log, c);
      var log', c' := LogAfter(log, a), CountsAfter(c, a);
      var r' := Next(r, a, n);
      ResultsFrom(r', actions[1..], n, log', c');
      var all := log + Completed(actions);
      CompletedSoFar(log, actions);
      var rest := Results(r', actions[1..], n);
      if a.Take? { TakeIsNext(r, n, log, c); }
      assert Results(r, actions, n) == (if a.Take? then [Received(r, n)] else []) + rest;
      hide LogAfter, Completed, Results, IsRun;
      OneMoreResult(all, log, c.released + r.held, a.Take?, Received(r, n), rest);
    }
  }

  lemma CompletedSoFar(log: seq<Transfer>, actions: seq<Action>)
    requires actions != []
    ensures log + Completed(actions) == LogAfter(log, actions[0]) + Completed(actions[1..])
  {
  }

  lemma OneMoreResult(all: seq<Transfer>, log: seq<Transfer>, k: nat, taken: bool, t: Transfer, rest: seq<Transfer>)
    requires log <= all && (taken ==> k < |log| && t == log[k])
    requires var i := if taken then k + 1 else k; i + |rest| <= |all| && rest == all[i..i + |rest|]
    ensures var got := (if taken then [t] else []) + rest; k + |got| <= |all| && got == all[k..k + |got|]
  {
  }

  /** For every interleaving of hardware, driver and library from the start, the reads return the completed
      transfers in order, each exactly once, none altered -- a FIFO. */
  lemma ReadsAreFifo(n: nat, descriptors: seq<nat>, meta: seq<nat>, slots: seq<seq<byte>>, actions: seq<Action>)
    requires 1 < n && |descriptors| == |meta| == |slots| == n
    requires IsRun(Initial(n, descriptors, meta, slots), actions, n)
    ensures Results(Initial(n, descriptors, meta, slots), actions, n) <= Completed(actions)
  {
    var r := Initial(n, descriptors, meta, slots);
    InvariantAtStart(n, descriptors, meta, slots);
    ResultsFrom(r, actions, n, [], Counts(0, 0, 0));
    assert [] + Completed(actions) == Completed(actions);
  }

  // ----- One counter for two channels -----

  /** read_data on the DCS channel, with published transfers up to `seen` of which `released` have been given back, adds
      the buffers held on the DAQ side, the only ones counted: it takes the oldest transfer not given back whenever
      there is one, and then from the right slot, exactly when none is held there or nothing is waiting. */
  lemma DcsReadIsRightIff(released: nat, seen: nat, daqHeld: nat, n: nat)
    requires 1 < n && released <= seen < released + n
    ensures var info := Info(IndexAfter(seen, n), IndexAfter(released, n));
            var waiting, takes := released < seen, Delta(info, n) > daqHeld;
            (takes <==> waiting) && (takes ==> IdxAdd(info.swIdx, daqHeld + 1, n) == SlotOf(released, n))
            <==> daqHeld == 0 || !waiting
  {
    DeltaIsDistance(seen, released, n);
    IndexAdds(released, daqHeld + 1, n);
    hide Delta, SlotOf, IdxAdd, IndexAfter;
    if 0 < daqHeld < seen - released {
      SlotsDiffer(released, released + daqHeld, n);
    }
  }

  /** The ring after a release on the DCS channel: only the shared count has changed. */
  function DcsReleased(r: Ring, num: nat): Ring {
    r.(held := if num <= r.held then r.held - num else 0)
  }

  /** A DCS release lowers the DAQ count: the next DAQ read stays in order exactly when it lowers it by nothing. */
  lemma DcsReleaseKeepsOrderIff(r: Ring, num: nat, n: nat, log: seq<Transfer>, c: Counts)
    requires Invariant(r, n, log, c)
    ensures NextSlot(DcsReleased(r, num), n) == SlotOf(c.released + r.held, n) <==> r.held == 0 || num == 0
  {
    var r' := DcsReleased(r, num);
    IndexAdds(c.released, r'.held + 1, n);
    hide SlotOf, IdxAdd, IndexAfter;
    if r'.held != r.held { SlotsDiffer(c.released + r'.held, c.released + r.held, n); }
  }

  /** ... and otherwise it returns a transfer that has been read before. */
  lemma DcsReleaseRepeatsDaqData(r: Ring, num: nat, n: nat, log: seq<Transfer>, c: Counts)
    requires Invariant(r, n, log, c) && r.held > 0 && num > 0
    ensures var r' := DcsReleased(r, num);
            && Enabled(r', Take, n)
            && c.released + r'.held < c.released + r.held <= |log|
            && Received(r', n) == log[c.released + r'.held]
  {
    DeltaIsDistance(c.seen, c.released, n);
    TakeIsNext(DcsReleased(r, num), n, log, c);
  }

  /** A run that ends with a buffer held, so that such a release can follow. */
  lemma HeldBufferIsReachable(n: nat, descriptors: seq<nat>, meta: seq<nat>, slots: seq<seq<byte>>, t: Transfer)
    requires 1 < n && |descriptors| == |meta| == |slots| == n
    ensures var r, actions := Initial(n, descriptors, meta, slots), [Complete(t), StoreCount, Advance, Refresh, Take];
            IsRun(r, actions, n) && After(r, actions, n).held == 1
  {
    var r := Initial(n, descriptors, meta, slots);
    IndexAdds(0, 1, n);
    assert IdxAdd(n - 1, 1, n) == 0;
    var r1 := Next(r, Complete(t), n);
    var r2 := Next(r1, StoreCount, n);
    var r3 := Next(r2, Advance, n);
    var r4 := Next(r3, Refresh, n);
    hide IdxAdd;
    assert Enabled(r4, Take, n);
    OneAction(r4, Take, n);
    MoreActions(r3, Refresh, [Take], n);
    MoreActions(r2, Advance, [Refresh, Take], n);
    MoreActions(r1, StoreCount, [Advance, Refresh, Take], n);
    MoreActions(r, Complete(t), [StoreCount, Advance, Refresh, Take], n);
    assert [Complete(t)] + [StoreCount, Advance, Refresh, Take] == [Complete(t), StoreCount, Advance, Refresh, Take];
    assert [StoreCount] + [Advance, Refresh, Take] == [StoreCount, Advance, Refresh, Take];
    assert [Advance] + [Refresh, Take] == [Advance, Refresh, Take];
    assert [Refresh] + [Take] == [Refresh, Take];
  }

  lemma OneAction(r: Ring, a: Action, n: nat)
    requires Shape(r, n) && Enabled(r, a, n)
    ensures IsRun(r, [a], n) && After(r, [a], n) == Next(r, a, n)
  {
  }

  lemma MoreActions(r: Ring, a: Action, actions: seq<Action>, n: nat)
    requires Shape(r, n) && Enabled(r, a, n) && IsRun(Next(r, a, n), actions, n)
    ensures IsRun(r, [a] + actions, n) && After(r, [a] + actions, n) == After(Next(r, a, n), actions, n)
  {
    assert ([a] + actions)[1..] == actions;
  }
}
