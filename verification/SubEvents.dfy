/** Sub-events that span several DMA transfers: the format of a transfer and what gluing should produce. */
module SubEvents {
  import opened Words
  import opened DmaRing

  /** The transfer size at the front of a DMA buffer, a uint16_t. */
  function SizeField(data: seq<byte>): nat
    requires |data| >= 2
  {
    data[0] as int + 256 * data[1] as int
  }

  /** A transfer as hardware delivers it: some bytes arrived, the size field covers the 8-byte header and
      something more, and the buffer holds that many bytes. */
  predicate Proper(t: Transfer) {
    t.count > 0 && |t.data| >= 2 && 8 < SizeField(t.data) <= |t.data|
  }

  predicate AllProper(ts: seq<Transfer>) {
    forall k | 0 <= k < |ts| :: Proper(ts[k])
  }

  function Payload(t: Transfer): (r: seq<byte>)
    requires Proper(t)
    ensures |r| > 0
  {
    t.data[8..SizeField(t.data)]
  }

  /** The payloads one after the other. */
  function Gathered(ts: seq<Transfer>): seq<byte>
    requires AllProper(ts)
  {
    if ts == [] then [] else Gathered(ts[..|ts| - 1]) + Payload(ts[|ts| - 1])
  }

  /** The inclusive byte count in a sub-event header, read from the payload that starts with it. */
  type CountReader = seq<byte> -> nat

  /** `s` is the sub-event that starts the transfers `ts`, and `ts` are no more than it needs: exactly the
      first T bytes of the payloads, T being the count in its own header. */
  predicate IsSubEvent(ts: seq<Transfer>, s: seq<byte>, count: CountReader) {
    && ts != [] && AllProper(ts)
    && var total := count(Payload(ts[0]));
       && |Gathered(ts[..|ts| - 1])| < total <= |Gathered(ts)|
       && s == Gathered(ts)[..total]
  }

  lemma {:induction false} GatheredGrows(ts: seq<Transfer>, k: nat)
    requires AllProper(ts) && k <= |ts|
    ensures AllProper(ts[..k]) && Gathered(ts[..k]) <= Gathered(ts)
    ensures k < |ts| ==> |Gathered(ts[..k])| < |Gathered(ts)|
    decreases |ts|
  {
    if k < |ts| {
      var front := ts[..|ts| - 1];
      GatheredGrows(front, k);
      assert front[..k] == ts[..k];
    } else {
      assert ts[..k] == ts;
    }
  }

  /** The sub-event at the front of a list of transfers is determined by the transfers. */
  lemma SubEventIsUnique(ts: seq<Transfer>, k: nat, s: seq<byte>, k': nat, s': seq<byte>, count: CountReader)
    requires AllProper(ts) && k <= |ts| && k' <= |ts|
    requires IsSubEvent(ts[..k], s, count) && IsSubEvent(ts[..k'], s', count)
    ensures k == k' && s == s'
  {
    if k < k' {
      MinimalCovers(ts, k, k', count);
    } else if k' < k {
      MinimalCovers(ts, k', k, count);
    }
  }

  lemma MinimalCovers(ts: seq<Transfer>, k: nat, k': nat, count: CountReader)
    requires AllProper(ts) && 0 < k < k' <= |ts|
    ensures AllProper(ts[..k]) && AllProper(ts[..k'][..k' - 1])
    ensures |Gathered(ts[..k])| <= |Gathered(ts[..k'][..k' - 1])|
  {
    assert ts[..k'][..k' - 1] == ts[..k' - 1];
    GatheredGrows(ts[..k' - 1], k);
    assert ts[..k' - 1][..k] == ts[..k];
  }

  // ----- Copying payloads into one buffer -----

  function Min(a: nat, b: nat): nat { if a < b then a else b }

  /** memcpy: the first n bytes of `from` to position `at`. */
  method CopyInto(a: array<byte>, at: nat, from: seq<byte>, n: nat)
    requires at + n <= a.Length && n <= |from|
    modifies a
    ensures a[..] == old(a[..])[..at] + from[..n] + old(a[..])[at + n..]
  {
    forall i | 0 <= i < n { a[at + i] := from[i]; }
  }

  /** The copy so far: everything gathered, as far as it fits. */
  predicate Partial(inmem: seq<byte>, ts: seq<Transfer>, bytesRead: nat)
  {
    && ts != [] && AllProper(ts)
    && bytesRead == |Gathered(ts)|
    && |Gathered(ts[..|ts| - 1])| < |inmem|
    && (if bytesRead <= |inmem| then inmem[..bytesRead] == Gathered(ts) else inmem == Gathered(ts)[..|inmem|])
  }

  lemma PartialStart(inmem: seq<byte>, ts: seq<Transfer>)
    requires |ts| == 1 && AllProper(ts) && |Payload(ts[0])| < |inmem| && inmem[..|Payload(ts[0])|] == Payload(ts[0])
    ensures Partial(inmem, ts, |Payload(ts[0])|)
  {
    assert ts[..0] == [];
  }

  /** One more payload, cut to what is still missing. */
  lemma PartialStep(inmem: seq<byte>, ts: seq<Transfer>, ts': seq<Transfer>, bytesRead: nat)
    requires Partial(inmem, ts, bytesRead) && bytesRead < |inmem|
    requires |ts'| == |ts| + 1 && ts'[..|ts|] == ts && AllProper(ts')
    ensures var payload := Payload(ts'[|ts|]);
            var n := Min(|inmem| - bytesRead, |payload|);
            Partial(inmem[..bytesRead] + payload[..n] + inmem[bytesRead + n..], ts', bytesRead + |payload|)
    ensures ts'[0] == ts[0]
  {
    hide Payload, Proper;
    var payload := Payload(ts'[|ts|]);
    var n := Min(|inmem| - bytesRead, |payload|);
    assert Gathered(ts') == Gathered(ts) + payload;
    var inmem' := inmem[..bytesRead] + payload[..n] + inmem[bytesRead + n..];
    if bytesRead + |payload| <= |inmem| {
      assert payload[..n] == payload;
      assert inmem'[..bytesRead + |payload|] == Gathered(ts) + payload;
    } else {
      assert inmem[bytesRead + n..] == [];
      assert inmem' == (Gathered(ts) + payload)[..|inmem|];
    }
  }

  lemma PartialSize(inmem: seq<byte>, ts: seq<Transfer>, bytesRead: nat)
    requires Partial(inmem, ts, bytesRead)
    ensures bytesRead == |Gathered(ts)| && AllProper(ts)
  {
  }

  /** What has been gathered stands at the front of the copy. */
  lemma PartialCut(inmem: seq<byte>, ts: seq<Transfer>, bytesRead: nat)
    requires Partial(inmem, ts, bytesRead) && bytesRead < |inmem|
    ensures Gathered(ts) <= inmem && |Gathered(ts)| < |inmem|
  {
  }

  lemma PartialEnd(inmem: seq<byte>, ts: seq<Transfer>, bytesRead: nat, count: CountReader)
    requires Partial(inmem, ts, bytesRead) && |inmem| <= bytesRead && |inmem| == count(Payload(ts[0]))
    ensures IsSubEvent(ts, inmem, count)
  {
    assert Gathered(ts)[..|Gathered(ts)|] == Gathered(ts);
  }
}
