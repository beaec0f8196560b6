/** The file verifier's reading loop: the same gluing as DtcReceive, written differently, and its verdict.

    A file is a list of DMA records, each a write size followed by the DMA buffer itself (whose first bytes
    are its size).  Checking one event is a parameter. */
module FileVerifier {
  import opened Words
  import opened DmaRing
  import opened SubEvents

  datatype Record = Record(writeSize: nat, dma: Transfer)

  function Dmas(file: seq<Record>): (r: seq<Transfer>)
    ensures |r| == |file| && forall k | 0 <= k < |file| :: r[k] == file[k].dma
  {
    seq(|file|, k requires 0 <= k < |file| => file[k].dma)
  }

  /** The DMA size of a record. */
  function DmaSize(r: Record): nat
    requires |r.dma.data| >= 2
  {
    SizeField(r.dma.data)
  }

  /** `events` are the events of the transfers, each taking the transfers it needs. */
  ghost predicate IsReading(ts: seq<Transfer>, events: seq<seq<byte>>, count: CountReader)
    decreases |events|
  {
    if events == [] then ts == []
    else exists k: nat ::
           0 < k <= |ts| && IsSubEvent(ts[..k], events[0], count) && IsReading(ts[k..], events[1..], count)
  }

  // ----- What a file can look like -----

  predicate SizesAgree(r: Record) {
    |r.dma.data| >= 2 && r.writeSize == DmaSize(r) + 8
  }

  /** The bytes gathered, up to the size in their header. */
  function EventOf(ts: seq<Transfer>, count: CountReader): seq<byte>
    requires AllProper(ts) && ts != []
  {
    var total := count(Payload(ts[0]));
    if total <= |Gathered(ts)| then Gathered(ts)[..total] else Gathered(ts)
  }

  /** From record i, which has its sizes right, on, record j is the first with wrong sizes, or the end of the file. */
  predicate StopsAt(file: seq<Record>, i: nat, j: nat)
    requires AllProper(Dmas(file))
  {
    && i < j <= |file|
    && (forall k | i <= k < j :: SizesAgree(file[k]))
    && (j < |file| ==> !SizesAgree(file[j]))
  }

  /** The records before n hold the events es. */
  ghost predicate Begins(file: seq<Record>, n: nat, es: seq<seq<byte>>, count: CountReader)
    requires AllProper(Dmas(file))
  {
    && n <= |file|
    && (forall k | 0 <= k < n :: SizesAgree(file[k]))
    && IsReading(Dmas(file)[..n], es, count)
  }

  /** The event that starts at record n needs more than there is before record j, where the reading stops. */
  predicate CutShort(file: seq<Record>, n: nat, j: nat, count: CountReader)
    requires AllProper(Dmas(file))
  {
    StopsAt(file, n, j) && |Gathered(Dmas(file)[n..j])| < count(Payload(Dmas(file)[n]))
  }

  /** What is handed to the check then: the payloads there are, and unset bytes up to the size in the header. */
  predicate IsCutEvent(event: seq<byte>, file: seq<Record>, n: nat, j: nat, count: CountReader)
    requires AllProper(Dmas(file)) && n < j <= |file|
  {
    && |event| == count(Payload(Dmas(file)[n]))
    && Gathered(Dmas(file)[n..j]) <= event
  }

  /** Every file, if headers count at least themselves, has one of the shapes: events to the end, a record with wrong
      sizes where an event should start, or an event cut short. */
  lemma {:induction false} EveryFileHasShape(file: seq<Record>, n: nat, es: seq<seq<byte>>, count: CountReader)
    returns (n': nat, es': seq<seq<byte>>, j: nat)
    requires AllProper(Dmas(file)) && Begins(file, n, es, count) && forall b :: count(b) > 0
    ensures Begins(file, n', es', count)
    ensures n' == |file| || !SizesAgree(file[n']) || CutShort(file, n', j, count)
    decreases |file| - n
  {
    n', es', j := n, es, 0;
    if n < |file| && SizesAgree(file[n]) {
      var enough, stop := FindEnd(file, n, n + 1, count);
      if enough {
        OneMoreEvent(file, n, es, stop, count);
        var event := EventOf(Dmas(file)[n..stop], count);
        n', es', j := EveryFileHasShape(file, stop, es + [event], count);
      } else {
        j := stop;
      }
    }
  }

  /** The end of the event that starts at record n, or of what there is of it. */
  lemma {:induction false} FindEnd(file: seq<Record>, n: nat, k: nat, count: CountReader)
    returns (enough: bool, stop: nat)
    requires AllProper(Dmas(file)) && n < k <= |file| && forall l | n <= l < k :: SizesAgree(file[l])
    requires |Gathered(Dmas(file)[n..k - 1])| < count(Payload(Dmas(file)[n])) || k == n + 1
    requires forall b :: count(b) > 0
    ensures if enough then
              && n < stop <= |file| && (forall l | n <= l < stop :: SizesAgree(file[l]))
              && IsSubEvent(Dmas(file)[n..stop], EventOf(Dmas(file)[n..stop], count), count)
            else CutShort(file, n, stop, count)
    decreases |file| - k
  {
    var ts := Dmas(file);
    var all := ts[n..k];
    assert all[0] == ts[n];
    assert all[..|all| - 1] == ts[n..k - 1];
    if k == n + 1 { assert ts[n..k - 1] == []; }
    if |Gathered(all)| >= count(Payload(ts[n])) {
      enough, stop := true, k;
    } else if k == |file| || !SizesAgree(file[k]) {
      enough, stop := false, k;
    } else {
      enough, stop := FindEnd(file, n, k + 1, count);
    }
  }

  lemma {:induction false} OneMoreEvent(file: seq<Record>, n: nat, es: seq<seq<byte>>, stop: nat, count: CountReader)
    requires AllProper(Dmas(file)) && Begins(file, n, es, count) && n < stop <= |file|
    requires forall l | n <= l < stop :: SizesAgree(file[l])
    requires IsSubEvent(Dmas(file)[n..stop], EventOf(Dmas(file)[n..stop], count), count)
    ensures Begins(file, stop, es + [EventOf(Dmas(file)[n..stop], count)], count)
  {
    var ts := Dmas(file);
    var event := EventOf(ts[n..stop], count);
    assert ts[..stop] == ts[..n] + ts[n..stop];
    ReadingAppend(ts[..n], es, ts[n..stop], event, count);
  }

  lemma {:induction false} ReadingAppend(ts: seq<Transfer>, es: seq<seq<byte>>, more: seq<Transfer>, event: seq<byte>,
                                         count: CountReader)
    requires IsReading(ts, es, count) && IsSubEvent(more, event, count)
    ensures IsReading(ts + more, es + [event], count)
    decreases |es|
  {
    hide IsSubEvent;
    if es == [] {
      assert ts + more == more && (es + [event])[1..] == [] && more[..|more|] == more;
      SubEventIsNotEmpty(more, event, count);
      assert IsReading(more[|more|..], [], count);
    } else {
      var k :| 0 < k <= |ts| && IsSubEvent(ts[..k], es[0], count) && IsReading(ts[k..], es[1..], count);
      ReadingAppend(ts[k..], es[1..], more, event, count);
      assert (ts + more)[..k] == ts[..k] && (ts + more)[k..] == ts[k..] + more;
      assert (es + [event])[1..] == es[1..] + [event];
    }
  }

  lemma SubEventIsNotEmpty(ts: seq<Transfer>, event: seq<byte>, count: CountReader)
    requires IsSubEvent(ts, event, count)
    ensures ts != []
  {
  }

  // ----- The loops -----

  datatype Continuation = Whole | FileEnded | SizeMismatch

  /** The continued-DMA loop: appends records to the first until `total` bytes are there.  It ends early at the end of
      the file or at a wrong write size; otherwise the event is exactly what DtcReceive would have built. */
  method ContinueEvent(file: seq<Record>, start: nat, total: nat, count: CountReader)
    returns (event: seq<byte>, next: nat, end: Continuation)
    requires AllProper(Dmas(file)) && start < |file| && SizesAgree(file[start])
    requires total == count(Payload(file[start].dma)) && total > |Payload(file[start].dma)|
    ensures start < next <= |file| && |event| == total
    ensures end.Whole? ==>
              IsSubEvent(Dmas(file)[start..next], event, count) && forall k | start <= k < next :: SizesAgree(file[k])
    ensures !end.Whole? ==>
              && CutShort(file, start, next, count) && IsCutEvent(event, file, start, next, count)
              && (end.FileEnded? <==> next == |file|)
  {
    hide Proper, Gathered, Payload, Partial, IsSubEvent;
    ghost var ts := Dmas(file);
    var newEvt := new byte[total];
    PayloadIs(ts[start]);
    var buf := file[start].dma.data[8..DmaSize(file[start])];
    CopyInto(newEvt, 0, buf, |buf|);
    var newEvtSize: nat := |buf|;
    next, end := start + 1, Whole;
    assert ts[start..next] == [ts[start]];
    PartialStart(newEvt[..], ts[start..next]);
    while newEvtSize < total
      invariant start < next <= |file| && end == Whole
      invariant Partial(newEvt[..], ts[start..next], newEvtSize)
      invariant forall k | start <= k < next :: SizesAgree(file[k])
      decreases |file| - next
    {
      ghost var was, before := newEvt[..], ts[start..next];
      PartialSize(was, before, newEvtSize);
      if next == |file| {
        end := FileEnded;
        break;
      }
      var record := file[next];
      PayloadIs(ts[next]);
      var dmaSize := DmaSize(record);
      if dmaSize + 8 != record.writeSize {
        end := SizeMismatch;
        break;
      }
      next := next + 1;
      buf := record.dma.data[8..dmaSize];
      var bytesToRead := dmaSize - 8;
      if newEvtSize + dmaSize - 8 > total { bytesToRead := total - newEvtSize; }
      assert ts[start..next][..|before|] == before && ts[start..next][|before|] == ts[next - 1];
      PartialStep(was, before, ts[start..next], newEvtSize);
      CopyInto(newEvt, newEvtSize, buf, bytesToRead);
      newEvtSize := newEvtSize + (dmaSize - 8);
    }
    event := newEvt[..];
    if end.Whole? {
      PartialEnd(event, ts[start..next], newEvtSize, count);
    } else {
      PartialCut(event, ts[start..next], newEvtSize);
    }
  }

  lemma PayloadIs(t: Transfer)
    requires Proper(t)
    ensures |t.data| >= 2 && 8 < SizeField(t.data) <= |t.data| && Payload(t) == t.data[8..SizeField(t.data)]
  {
  }

  /** The check of one event: accepted or not, and whether reading goes on, which a bad block header prevents. */
  datatype Check = Check(success: bool, goesOn: bool)

  /** VerifyFile.  `success` is overwritten by every event, so

      - on complete events to the end of the file it is the verdict on the last one, unless a bad header ends the
        reading before: a file with a rejected event is accepted exactly when no event has a bad header and the last
        one is accepted;
      - a record with wrong sizes where an event should start makes the verdict false;
      - an event cut short by the end of the file is checked as far as it goes, and its verdict is the result;
      - an event cut short by a record with wrong sizes is checked too, the false verdict on the sizes is
        overwritten, and reading goes on inside that record.

      What the stream reads as from inside record j on, and where that leads, is the parameter `resume`. */
  method VerifyFile(file: seq<Record>, count: CountReader, verifyEvent: seq<byte> -> Check, resume: (nat, bool) -> bool,
                    ghost n: nat, ghost es: seq<seq<byte>>, ghost j: nat)
    returns (success: bool)
    requires AllProper(Dmas(file))
    requires forall e :: verifyEvent(e).success ==> verifyEvent(e).goesOn
    ensures Begins(file, n, es, count) && (exists k :: 0 <= k < |es| && !verifyEvent(es[k]).goesOn) ==> !success
    ensures Begins(file, n, es, count) && (forall k | 0 <= k < |es| :: verifyEvent(es[k]).goesOn) ==>
              && (n == |file| ==> success == (es == [] || verifyEvent(es[|es| - 1]).success))
              && (n < |file| && !SizesAgree(file[n]) ==> !success)
              && (CutShort(file, n, j, count) ==>
                    exists e :: IsCutEvent(e, file, n, j, count) &&
                      success == if j < |file| && verifyEvent(e).goesOn then resume(j, verifyEvent(e).success)
                                 else verifyEvent(e).success)
  {
    hide Proper, Payload, IsSubEvent, Gathered, IsReading, CutShort, IsCutEvent, SizeField;
    ghost var ts := Dmas(file);
    ghost var good, m := Begins(file, n, es, count), 0;
    success := true;
    var continueFile := true;
    var i := 0;
    assert good ==> ts[0..n] == ts[..n] && es[0..] == es;
    while i < |file| && continueFile
      invariant 0 <= i <= |file| && 0 <= m <= |es|
      invariant good && i <= n ==> IsReading(ts[i..n], es[m..], count)
      invariant good && i <= n ==> success == (m == 0 || verifyEvent(es[m - 1]).success)
      invariant good && i <= n ==> continueFile == (m == 0 || verifyEvent(es[m - 1]).goesOn)
      invariant good ==> forall k | 0 <= k < m - 1 :: verifyEvent(es[k]).goesOn
      invariant good && i > n ==> m == |es| && SizesAgree(file[n]) && (m > 0 ==> verifyEvent(es[m - 1]).goesOn)
      invariant good && i > n && CutShort(file, n, j, count) ==>
                  i == j == |file| && exists e :: IsCutEvent(e, file, n, j, count) && success == verifyEvent(e).success
      decreases |file| - i
    {
      var record := file[i];
      PayloadIs(ts[i]);
      var dmaSize := DmaSize(record);
      if dmaSize + 8 != record.writeSize {
        if good && i == n {
          ReadingEnds(ts[n..n], es[m..], count);
          if CutShort(file, n, j, count) { CutBegins(file, n, j, count); }
        }
        return false;
      }
      var buf := record.dma.data[8..dmaSize];
      var total := count(buf);
      var event, next, end := buf, i + 1, Whole;
      if total > |buf| {
        event, next, end := ContinueEvent(file, i, total, count);
      } else {
        event := buf[..total];
      }
      if good && i < n {
        NextEvent(file, i, n, es[m..], event, next, end, count);
        assert es[m..][1..] == es[m + 1..];
      }
      if good && i == n {
        ReadingEnds(ts[n..n], es[m..], count);
        if CutShort(file, n, j, count) { CutIsFound(file, n, j, event, next, end, count); }
      }
      success, continueFile := verifyEvent(event).success, verifyEvent(event).goesOn;
      if end.SizeMismatch? {
        if continueFile { success := resume(next, success); }
        return;
      }
      i, m := next, if good && i < n then m + 1 else m;
    }
    if good && i == n { ReadingEnds(ts[n..n], es[m..], count); }
    if good && CutShort(file, n, j, count) { CutBegins(file, n, j, count); }
  }

  /** The loop cuts off the next event of the reading. */
  lemma NextEvent(file: seq<Record>, i: nat, n: nat, es: seq<seq<byte>>, event: seq<byte>, next: nat, end: Continuation,
                  count: CountReader)
    requires AllProper(Dmas(file)) && i < n <= |file| && i < next <= |file|
    requires forall k | 0 <= k < n :: SizesAgree(file[k])
    requires IsReading(Dmas(file)[i..n], es, count)
    requires var buf := Payload(file[i].dma);
             var total := count(buf);
             if total > |buf| then
               && (end.Whole? ==> IsSubEvent(Dmas(file)[i..next], event, count))
               && (!end.Whole? ==> CutShort(file, i, next, count))
             else end.Whole? && next == i + 1 && event == buf[..total]
    ensures end.Whole? && next <= n
    ensures es != [] && event == es[0] && IsReading(Dmas(file)[next..n], es[1..], count)
  {
    hide Payload, Proper, SizeField, Gathered, IsSubEvent, IsReading, SizesAgree;
    var ts := Dmas(file);
    var rest := ts[i..n];
    assert rest[0] == ts[i];
    var k := HeadOf(rest, es, count);
    assert rest[..k] == ts[i..i + k];
    assert ts[i..][..k] == ts[i..i + k];
    if count(Payload(ts[i])) <= |Payload(ts[i])| {
      FirstIsEnough(rest, k, es[0], count);
      assert rest[..1] == ts[i..next];
    } else if !end.Whole? {
      if next < i + k {
        assert false;
      } else {
        assert ts[i..next][..k] == ts[i..i + k];
        EnoughArrives(ts[i..next], k, es[0], count);
      }
    }
    assert ts[i..next] == ts[i..][..next - i];
    SubEventIsUnique(ts[i..], next - i, event, k, es[0], count);
    assert rest[k..] == ts[i + k..n];
  }

  /** An event that is cut short is found to be so, where it is. */
  lemma CutIsFound(file: seq<Record>, n: nat, j: nat, event: seq<byte>, next: nat, end: Continuation,
                   count: CountReader)
    requires AllProper(Dmas(file)) && CutShort(file, n, j, count) && n < next <= |file|
    requires var buf := Payload(file[n].dma);
             var total := count(buf);
             if total > |buf| then
               && (end.Whole? ==> IsSubEvent(Dmas(file)[n..next], event, count)
                                     && forall k | n <= k < next :: SizesAgree(file[k]))
               && (!end.Whole? ==> CutShort(file, n, next, count))
             else end.Whole? && next == n + 1 && event == buf[..total]
    ensures !end.Whole? && next == j
  {
    hide Payload, Proper, SizeField, Gathered, IsSubEvent, SizesAgree;
    var ts := Dmas(file);
    var all := ts[n..j];
    assert all[0] == ts[n];
    if count(Payload(ts[n])) <= |Payload(ts[n])| {
      FirstArrives(all);
      assert false;
    } else if end.Whole? {
      assert next <= j;
      assert ts[n..next] == all[..next - n];
      EnoughArrives(all, next - n, event, count);
      assert false;
    }
  }

  lemma CutBegins(file: seq<Record>, n: nat, j: nat, count: CountReader)
    requires AllProper(Dmas(file)) && CutShort(file, n, j, count)
    ensures n < j <= |file| && SizesAgree(file[n])
  {
  }

  lemma FirstArrives(ts: seq<Transfer>)
    requires AllProper(ts) && ts != []
    ensures |Payload(ts[0])| <= |Gathered(ts)|
  {
    GatheredGrows(ts, 1);
    var one := ts[..1];
    assert one[..0] == [] && one[0] == ts[0];
    assert Gathered(one) == [] + Payload(ts[0]) == Payload(ts[0]);
  }

  lemma HeadOf(ts: seq<Transfer>, es: seq<seq<byte>>, count: CountReader) returns (k: nat)
    requires ts != [] && IsReading(ts, es, count)
    ensures es != [] && 0 < k <= |ts| && IsSubEvent(ts[..k], es[0], count) && IsReading(ts[k..], es[1..], count)
  {
    k :| 0 < k <= |ts| && IsSubEvent(ts[..k], es[0], count) && IsReading(ts[k..], es[1..], count);
  }

  lemma EnoughArrives(ts: seq<Transfer>, k: nat, s: seq<byte>, count: CountReader)
    requires AllProper(ts) && 0 < k <= |ts| && IsSubEvent(ts[..k], s, count)
    ensures count(Payload(ts[0])) <= |Gathered(ts)|
  {
    GatheredGrows(ts, k);
    assert ts[..k][0] == ts[0];
  }

  lemma FirstIsEnough(ts: seq<Transfer>, k: nat, s: seq<byte>, count: CountReader)
    requires AllProper(ts) && 0 < k <= |ts| && IsSubEvent(ts[..k], s, count)
    requires count(Payload(ts[0])) <= |Payload(ts[0])|
    ensures IsSubEvent(ts[..1], Payload(ts[0])[..count(Payload(ts[0]))], count)
  {
    var one := ts[..1];
    assert one[..0] == [] && ts[..k][0] == ts[0];
    assert Gathered(one) == [] + Payload(ts[0]) == Payload(ts[0]);
  }

  lemma ReadingEnds(ts: seq<Transfer>, es: seq<seq<byte>>, count: CountReader)
    requires ts == [] && IsReading(ts, es, count)
    ensures es == []
  {
  }

  // ----- One instance -----

  function OneByte(b: byte): Record {
    Record(17, Transfer([9, 0, 0, 0, 0, 0, 0, 0, b], 9))
  }

  /** A file of two events, the first rejected, is accepted. */
  method AcceptsRejectedEvent() returns (success: bool)
    ensures success
  {
    var file, es := [OneByte(1), OneByte(2)], [[1], [2]];
    var count: CountReader := b => 1;
    var verify := (e: seq<byte>) => Check(e == [2], true);
    assert !verify(es[0]).success;
    TwoEvents(file, es, count);
    success := VerifyFile(file, count, verify, (k, s) => s, 2, es, 0);
  }

  lemma OneByteHolds(b: byte)
    ensures var t := OneByte(b).dma; Proper(t) && Payload(t) == [b] && SizesAgree(OneByte(b))
  {
  }

  lemma TwoEvents(file: seq<Record>, es: seq<seq<byte>>, count: CountReader)
    requires file == [OneByte(1), OneByte(2)] && es == [[1], [2]] && forall b :: count(b) == 1
    ensures AllProper(Dmas(file)) && Begins(file, 2, es, count)
  {
    OneByteHolds(1);
    OneByteHolds(2);
    hide OneByte, Proper, Payload, SizesAgree, Gathered, IsReading, IsSubEvent;
    var a, b := OneByte(1).dma, OneByte(2).dma;
    OneTransferRead([a], count);
    OneTransferRead([b], count);
    TwoReads(a, b, [1], [2], count);
    assert Dmas(file)[..2] == [a, b];
  }

  lemma TwoReads(a: Transfer, b: Transfer, ea: seq<byte>, eb: seq<byte>, count: CountReader)
    requires IsSubEvent([a], ea, count) && IsSubEvent([b], eb, count)
    ensures IsReading([a, b], [ea, eb], count)
  {
    hide IsSubEvent, IsReading;
    NothingRead(count);
    assert [] + [a] == [a] && [] + [ea] == [ea];
    ReadingAppend([], [], [a], ea, count);
    ReadingAppend([a], [ea], [b], eb, count);
    assert [a] + [b] == [a, b] && [ea] + [eb] == [ea, eb];
  }

  lemma NothingRead(count: CountReader)
    ensures IsReading([], [], count)
  {
  }

  lemma OneTransferRead(ts: seq<Transfer>, count: CountReader)
    requires |ts| == 1 && AllProper(ts) && |Payload(ts[0])| == 1 && count(Payload(ts[0])) == 1
    ensures IsSubEvent(ts, Payload(ts[0]), count)
  {
    assert ts[..0] == [];
    assert Gathered(ts) == [] + Payload(ts[0]) == Payload(ts[0]);
  }
}
