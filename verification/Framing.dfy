/** Transfers built from their payloads: what hardware does to a sub-event, and what the library reads back. */
module Framing {
  import opened Words
  import opened Outcomes
  import opened DmaRing
  import opened SubEvents
  import opened FileVerifier
  import DtcReceive

  /** A payload and what surrounds it: six header bytes behind the size, what else the slot holds, the byte count. */
  datatype Chunk = Chunk(payload: seq<byte>, header: seq<byte>, slack: seq<byte>, count: nat) {
    predicate Valid() {
      0 < |payload| && |payload| + 8 < 0x1_0000 && |header| == 6 && count > 0
    }

    /** Two size bytes, low one first, the header, the payload. */
    function Frame(): Transfer
      requires Valid()
    {
      var size := |payload| + 8;
      Transfer([size % 256, size / 256] + header + payload + slack, count)
    }
  }

  predicate AllValid(chunks: seq<Chunk>) {
    forall k | 0 <= k < |chunks| :: chunks[k].Valid()
  }

  function Frames(chunks: seq<Chunk>): (ts: seq<Transfer>)
    requires AllValid(chunks)
    ensures |ts| == |chunks| && forall k | 0 <= k < |chunks| :: ts[k] == chunks[k].Frame()
  {
    seq(|chunks|, k requires 0 <= k < |chunks| => chunks[k].Frame())
  }

  /** The payloads put together again. */
  function Whole(chunks: seq<Chunk>): seq<byte> {
    if chunks == [] then [] else Whole(chunks[..|chunks| - 1]) + chunks[|chunks| - 1].payload
  }

  /** A payload is read back from its transfer, whatever else stands in it, and the file verifier agrees. */
  lemma PayloadIsReadBack(c: Chunk)
    requires c.Valid()
    ensures Proper(c.Frame()) && Payload(c.Frame()) == c.payload
    ensures forall writeSize: nat :: SizesAgree(Record(writeSize, c.Frame())) <==> writeSize == |c.payload| + 16
  {
    var t := c.Frame();
    var size := |c.payload| + 8;
    assert SizeField(t.data) == size;
    assert t.data[8..] == c.payload + c.slack;
    assert t.data[8..size] == c.payload;
  }

  lemma {:induction false} PayloadsAreGathered(chunks: seq<Chunk>)
    requires AllValid(chunks)
    ensures AllProper(Frames(chunks)) && Gathered(Frames(chunks)) == Whole(chunks)
  {
    hide Proper, Payload;
    var ts := Frames(chunks);
    if chunks != [] {
      var front, c := chunks[..|chunks| - 1], chunks[|chunks| - 1];
      PayloadsAreGathered(front);
      PayloadIsReadBack(c);
      assert ts[..|chunks| - 1] == Frames(front) && ts[|chunks| - 1] == c.Frame();
      forall k | 0 <= k < |chunks| ensures Proper(ts[k]) {
        assert k < |front| ==> ts[k] == Frames(front)[k];
      }
    }
  }

  /** A sub-event cut into chunks in any way, the last one possibly longer, is what its transfers hold. */
  lemma CutSubEventIsThere(chunks: seq<Chunk>, s: seq<byte>, count: CountReader)
    requires chunks != [] && AllValid(chunks) && count(chunks[0].payload) == |s|
    requires |Whole(chunks[..|chunks| - 1])| < |s| && s <= Whole(chunks)
    ensures IsSubEvent(Frames(chunks), s, count)
  {
    hide Proper, Payload, Gathered, Whole;
    var ts, front := Frames(chunks), chunks[..|chunks| - 1];
    PayloadsAreGathered(chunks);
    PayloadsAreGathered(front);
    PayloadIsReadBack(chunks[0]);
    assert ts[..|chunks| - 1] == Frames(front);
    assert ts[0] == chunks[0].Frame();
  }

  /** The library returns the sub-event that hardware cut up: whenever the transfers it holds after a read, and those of
      a cut sub-event, are at the start of one stream, what was read is that sub-event, and no transfer of another. */
  lemma CutSubEventIsReturned(stream: seq<Transfer>, held: nat, chunks: seq<Chunk>, s: seq<byte>, r: seq<byte>,
                              allRead: bool, format: DtcReceive.Format)
    requires chunks != [] && AllValid(chunks) && format.byteCount(chunks[0].payload) == |s|
    requires |Whole(chunks[..|chunks| - 1])| < |s| && s <= Whole(chunks)
    requires AllProper(stream) && Frames(chunks) <= stream && held <= |stream|
    requires DtcReceive.SubEventRead(Ok(Some(r)), stream[..held], allRead, format)
    ensures r == s && held == |chunks|
  {
    hide IsSubEvent, Whole;
    CutSubEventIsThere(chunks, s, format.byteCount);
    assert stream[..|chunks|] == Frames(chunks);
    SubEventIsUnique(stream, held, r, |chunks|, s, format.byteCount);
  }
}
