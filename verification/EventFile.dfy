/** What the simulator writes: events of sub-events of blocks, and the file they go to. */
module EventFile {
  import opened Outcomes
  import opened Words
  import opened DataHeaders
  import opened CalorimeterBlock
  import opened CalorimeterAgreement
  import opened BlockVerifier

  type Tag = x: int | 0 <= x < TWO48

  const LINKS := 6

  datatype SimMode = Disabled | Performance | Timeout | Tracker | Calorimeter | CosmicVeto | EventMode

  /** The contents of a block.  Only calorimeter blocks are built word by word in this model. */
  datatype Body = TrackerBody(dtcId: nat) | CalorimeterBody(block: Block) | CrvBody(dtcId: nat)
                | PacketsBody(count: nat) | TimeoutBody

  datatype DataBlock = DataBlock(tag: Tag, link: nat, body: Body)
  datatype SubEvent = SubEvent(tag: Tag, blocks: seq<DataBlock>)
  datatype Event = Event(tag: Tag, subEvents: seq<SubEvent>)

  /** The file holds the events written and the buffers passed straight through. */
  datatype Item = Written(event: Event) | Raw(data: seq<byte>)

  datatype Register = Control | LinkEnable | TimestampLow | TimestampHigh | NumHeartbeats
                    | NumPacketsLinks10 | NumPacketsLinks32 | NumPacketsLinks54 | DetEmulationControl0 | EventMode1

  /** What a run of the emulator depends on; the status is the header class's word for valid data. */
  datatype Setup = Setup(mode: SimMode, registers: map<Register, u32>,
                         trackerBlocks: nat, caloBlocks: nat, caloHits: u16, crvBlocks: nat, status: byte) {
    predicate Valid() { 0 < caloHits && Fits(caloHits) }

    function Reg(r: Register): u32 {
      if r in registers then registers[r] else 0
    }

    /** Receiver or transmitter enabled. */
    predicate Enabled(link: nat) {
      Bit(Reg(LinkEnable), link) || Bit(Reg(LinkEnable), link + 8)
    }

    function PacketCount(link: nat): nat {
      var r := Reg(if link < 2 then NumPacketsLinks10 else if link < 4 then NumPacketsLinks32 else NumPacketsLinks54);
      if link % 2 == 0 then r % 0x1_0000 else r / 0x1_0000
    }

    /** Writing this value to the control register starts the emulator. */
    predicate Runs(data: u32) {
      Bit(data, 30) && Reg(DetEmulationControl0) % 4 == 0
    }

    function Start(): Tag {
      Reg(TimestampLow) + Reg(TimestampHigh) % 0x1_0000 * 0x1_0000_0000
    }
  }

  // ----- Blocks, sub-events and events a setup asks for -----

  function CaloBlock(s: Setup, link: nat, dtcId: nat): Block
    requires s.Valid()
  {
    var d := SimulatedData(s.caloHits, link, dtcId);
    var tail := Tail(s.status, 0, dtcId % 256, s.Reg(EventMode1) % 256);
    Block(16 + 2 * |d|, TypeWord(link, CALORIMETER), |d| / 8, tail, d)
  }

  /** The block one link delivers in a single-subsystem mode. */
  function LinkBlock(s: Setup, ts: Tag, link: nat, packetCount: nat): (r: Option<DataBlock>)
    requires s.Valid()
    ensures r.Some? <==> s.mode != Disabled && s.mode != EventMode
    ensures r.Some? ==> r.value.tag == ts && r.value.link == link
  {
    match s.mode
    case Performance => Some(DataBlock(ts, link, PacketsBody(packetCount)))
    case Timeout => Some(DataBlock(ts, link, TimeoutBody))
    case Tracker => Some(DataBlock(ts, link, TrackerBody(0)))
    case Calorimeter => Some(DataBlock(ts, link, CalorimeterBody(CaloBlock(s, link, 0))))
    case CosmicVeto => Some(DataBlock(ts, link, CrvBody(0)))
    case Disabled => None
    case EventMode => None
  }

  /** The blocks of the enabled links below k. */
  function LinkBlocks(s: Setup, ts: Tag, k: nat): seq<DataBlock>
    requires s.Valid()
  {
    if k == 0 then []
    else LinkBlocks(s, ts, k - 1) +
         if s.Enabled(k - 1) then OptionalBlock(LinkBlock(s, ts, k - 1, s.PacketCount(k - 1))) else []
  }

  function OptionalBlock(b: Option<DataBlock>): seq<DataBlock> {
    if b.Some? then [b.value] else []
  }

  datatype Detector = TrackerDtc | CaloDtc | CrvDtc

  function DtcBlock(s: Setup, ts: Tag, det: Detector, link: nat, dtcId: nat): DataBlock
    requires s.Valid()
  {
    DataBlock(ts, link,
              if det == TrackerDtc then TrackerBody(dtcId)
              else if det == CaloDtc then CalorimeterBody(CaloBlock(s, link, dtcId))
              else CrvBody(dtcId))
  }

  function DtcBlocks(s: Setup, ts: Tag, det: Detector, dtcId: nat, k: nat): (r: seq<DataBlock>)
    requires s.Valid()
    ensures |r| == k
  {
    if k == 0 then [] else DtcBlocks(s, ts, det, dtcId, k - 1) + [DtcBlock(s, ts, det, k - 1, dtcId)]
  }

  /** One sub-event of six blocks for each DTC below n. */
  function DtcSubEvents(s: Setup, ts: Tag, det: Detector, n: nat): (r: seq<SubEvent>)
    requires s.Valid()
    ensures |r| == n
  {
    if n == 0 then [] else DtcSubEvents(s, ts, det, n - 1) + [SubEvent(ts, DtcBlocks(s, ts, det, n - 1, LINKS))]
  }

  function SealedSub(e: Event, s: SubEvent): (r: Event)
    ensures r.tag == e.tag
  {
    if s.blocks == [] then e else e.(subEvents := e.subEvents + [s])
  }

  /** The sub-events of one heartbeat in event mode. */
  function AllSubEvents(s: Setup, ts: Tag): seq<SubEvent>
    requires s.Valid()
  {
    DtcSubEvents(s, ts, TrackerDtc, s.trackerBlocks / 6)
    + DtcSubEvents(s, ts, CaloDtc, s.caloBlocks / 6)
    + DtcSubEvents(s, ts, CrvDtc, s.crvBlocks / 6)
  }

  /** Sub-events, the first of which also takes the blocks that were waiting. */
  function Prepended(pending: seq<DataBlock>, subs: seq<SubEvent>): (r: seq<SubEvent>)
    ensures pending == [] ==> r == subs
  {
    if subs == [] then []
    else
      assert [] + subs[0].blocks == subs[0].blocks;
      [SubEvent(subs[0].tag, pending + subs[0].blocks)] + subs[1..]
  }

  /** An open event, once a heartbeat of its tag has added its blocks. */
  function Joined(s: Setup, e: Event, sub: SubEvent): (r: Event)
    requires s.Valid()
    ensures r.tag == e.tag
  {
    if s.mode == EventMode then
      var subs := AllSubEvents(s, e.tag);
      SealedSub(e.(subEvents := e.subEvents + Prepended(sub.blocks, subs)),
                if subs == [] then sub else SubEvent(e.tag, []))
    else
      SealedSub(e, SubEvent(sub.tag, sub.blocks + LinkBlocks(s, e.tag, LINKS)))
  }

  /** The event of one heartbeat. */
  function EventFor(s: Setup, ts: Tag): (r: Event)
    requires s.Valid()
    ensures r.tag == ts
  {
    Joined(s, Event(ts, []), SubEvent(ts, []))
  }

  /** Tags are 48 bits wide. */
  function TagAfter(start: Tag, i: nat): Tag {
    (start + i) % TWO48
  }

  function Events(s: Setup, start: Tag, n: nat): (r: seq<Item>)
    requires s.Valid()
    ensures |r| == n
    ensures forall i | 0 <= i < n :: r[i] == Written(EventFor(s, TagAfter(start, i)))
  {
    if n == 0 then [] else Events(s, start, n - 1) + [Written(EventFor(s, TagAfter(start, n - 1)))]
  }

  // ----- What a file holds -----

  /** A block with the tag of the event it is filed under. */
  datatype Entry = Entry(tag: Tag, block: DataBlock)

  function Entries(tag: Tag, blocks: seq<DataBlock>): (r: seq<Entry>)
    ensures |r| == |blocks|
  {
    seq(|blocks|, i requires 0 <= i < |blocks| => Entry(tag, blocks[i]))
  }

  function SubEntries(tag: Tag, subs: seq<SubEvent>): seq<Entry> {
    if subs == [] then [] else SubEntries(tag, subs[..|subs| - 1]) + Entries(tag, subs[|subs| - 1].blocks)
  }

  function FileEntries(file: seq<Item>): seq<Entry> {
    if file == [] then []
    else FileEntries(file[..|file| - 1]) + ItemEntries(file[|file| - 1])
  }

  function ItemEntries(it: Item): seq<Entry> {
    if it.Written? then SubEntries(it.event.tag, it.event.subEvents) else []
  }

  /** The file as closing the event under construction would leave it. */
  function Seal(file: seq<Item>, e: Option<Event>, s: Option<SubEvent>): seq<Item>
    requires e.Some? == s.Some?
  {
    if e.None? then file else file + [Written(SealedSub(e.value, s.value))]
  }

  /** File, event and sub-event once an event of this tag is open. */
  datatype Building = Building(file: seq<Item>, event: Event, subEvent: SubEvent)

  /** An open event of the tag stays; any other is written first, and a new one opened. */
  function Opened(file: seq<Item>, e: Option<Event>, sub: Option<SubEvent>, ts: Tag): (r: Building)
    requires e.Some? == sub.Some?
    ensures r.event.tag == ts
  {
    if e.Some? && e.value.tag == ts then Building(file, e.value, sub.value)
    else Building(Seal(file, e, sub), Event(ts, []), SubEvent(ts, []))
  }

  /** The file after one heartbeat: its event is written, and so is what an open event of its tag held. */
  function AfterHeartbeat(s: Setup, ts: Tag, file: seq<Item>, e: Option<Event>, sub: Option<SubEvent>): seq<Item>
    requires s.Valid() && e.Some? == sub.Some?
  {
    var b := Opened(file, e, sub, ts);
    b.file + [Written(Joined(s, b.event, b.subEvent))]
  }

  /** The file after a run of heartbeats: the first may complete an open event, the others have one each. */
  function AfterRun(s: Setup, start: Tag, count: nat, file: seq<Item>, e: Option<Event>, sub: Option<SubEvent>)
    : seq<Item>
    requires s.Valid() && e.Some? == sub.Some?
  {
    if count == 0 then file
    else AfterHeartbeat(s, start, file, e, sub) + Events(s, start, count)[1..]
  }

  // ----- Facts about them -----

  lemma PrependedNothing(pending: seq<DataBlock>)
    ensures Prepended(pending, []) == []
  {
  }

  lemma PrependedSnoc(pending: seq<DataBlock>, subs: seq<SubEvent>, sub: SubEvent)
    ensures Prepended(pending, subs + [sub])
            == Prepended(pending, subs)
               + [if subs == [] then SubEvent(sub.tag, pending + sub.blocks) else sub]
  {
    if subs != [] {
      assert (subs + [sub])[1..] == subs[1..] + [sub];
    }
  }

  lemma OneMoreDtc(base: seq<SubEvent>, pending: seq<DataBlock>, subs: seq<SubEvent>, ts: Tag, made: seq<DataBlock>)
    ensures base + Prepended(pending, subs) + [SubEvent(ts, (if subs == [] then pending else []) + made)]
            == base + Prepended(pending, subs + [SubEvent(ts, made)])
  {
    PrependedSnoc(pending, subs, SubEvent(ts, made));
    assert [] + made == made;
  }

  lemma PrependedJoin(pending: seq<DataBlock>, a: seq<SubEvent>, b: seq<SubEvent>)
    ensures Prepended(pending, a + b) == Prepended(pending, a) + Prepended(if a == [] then pending else [], b)
  {
    if a == [] {
      assert a + b == b;
    } else {
      assert (a + b)[1..] == a[1..] + b;
    }
  }

  /** One more heartbeat, when the run has begun and no event is open. */
  lemma RunGoesOn(s: Setup, start: Tag, n: nat, file: seq<Item>, e: Option<Event>, sub: Option<SubEvent>)
    requires s.Valid() && e.Some? == sub.Some?
    ensures AfterRun(s, start, 1, file, e, sub) == AfterHeartbeat(s, start, file, e, sub)
    ensures n > 0 ==> AfterRun(s, start, n + 1, file, e, sub)
                      == AfterHeartbeat(s, TagAfter(start, n), AfterRun(s, start, n, file, e, sub), None, None)
  {
    hide AfterHeartbeat, EventFor;
    if n > 0 {
      assert Events(s, start, n + 1)[1..] == Events(s, start, n)[1..] + [Written(EventFor(s, TagAfter(start, n)))];
      HeartbeatAlone(s, TagAfter(start, n), AfterRun(s, start, n, file, e, sub));
    }
  }

  lemma RunOfNone(s: Setup, start: Tag, file: seq<Item>, e: Option<Event>, sub: Option<SubEvent>)
    requires s.Valid() && e.Some? == sub.Some?
    ensures AfterRun(s, start, 0, file, e, sub) == file
  {
  }

  lemma HeartbeatAlone(s: Setup, ts: Tag, file: seq<Item>)
    requires s.Valid()
    ensures AfterHeartbeat(s, ts, file, None, None) == file + [Written(EventFor(s, ts))]
  {
  }

  /** A run that begins with no event of its first tag open writes the open event, if any, and then one event for each
      of consecutive tags. */
  lemma RunWritesItsEvents(s: Setup, start: Tag, n: nat, file: seq<Item>, e: Option<Event>, sub: Option<SubEvent>)
    requires s.Valid() && e.Some? == sub.Some? && !(e.Some? && e.value.tag == start) && n > 0
    ensures AfterRun(s, start, n, file, e, sub) == Seal(file, e, sub) + Events(s, start, n)
  {
    hide Joined, Seal;
    NextTagDiffers(start, 0);
    var events := Events(s, start, n);
    assert events == [events[0]] + events[1..];
  }

  lemma EntriesOfNewEvent(file: seq<Item>, ts: Tag)
    ensures FileEntries(Seal(file, Some(Event(ts, [])), Some(SubEvent(ts, [])))) == FileEntries(file)
  {
    EntriesOfAppend(file, Written(Event(ts, [])));
  }

  lemma EntriesOfAppend(file: seq<Item>, it: Item)
    ensures FileEntries(file + [it]) == FileEntries(file) + ItemEntries(it)
  {
    assert (file + [it])[..|file|] == file;
  }

  lemma EntriesOfBlocks(tag: Tag, blocks: seq<DataBlock>, b: DataBlock)
    ensures Entries(tag, []) == [] && Entries(tag, [b]) == [Entry(tag, b)]
    ensures Entries(tag, blocks + [b]) == Entries(tag, blocks) + [Entry(tag, b)]
  {
  }

  /** Adding a block to the open sub-event adds that block, under the event's tag, at the end. */
  lemma EntriesOfAddedBlock(file: seq<Item>, e: Event, s: SubEvent, b: DataBlock)
    ensures FileEntries(Seal(file, Some(e), Some(s.(blocks := s.blocks + [b]))))
            == FileEntries(Seal(file, Some(e), Some(s))) + [Entry(e.tag, b)]
  {
    hide SealedSub, SubEntries, FileEntries, Entries;
    var t := s.(blocks := s.blocks + [b]);
    EntriesOfAppend(file, Written(SealedSub(e, s)));
    EntriesOfAppend(file, Written(SealedSub(e, t)));
    EntriesOfSealed(e, s);
    EntriesOfSealed(e, t);
    EntriesOfBlocks(e.tag, s.blocks, b);
    var f, subs := FileEntries(file), SubEntries(e.tag, e.subEvents);
    var bs, x := Entries(e.tag, s.blocks), [Entry(e.tag, b)];
    assert f + (subs + (bs + x)) == f + (subs + bs) + x;
  }

  lemma EntriesOfSealed(e: Event, s: SubEvent)
    ensures SubEntries(e.tag, SealedSub(e, s).subEvents) == SubEntries(e.tag, e.subEvents) + Entries(e.tag, s.blocks)
  {
    if s.blocks != [] {
      assert (e.subEvents + [s])[..|e.subEvents|] == e.subEvents;
    }
  }

  /** Consecutive tags of a run differ. */
  lemma NextTagDiffers(start: Tag, i: nat)
    ensures TagAfter(start, i) != TagAfter(start, i + 1)
    ensures TagAfter(start, 0) == start
  {
    var q, r := (start + i) / TWO48, (start + i) % TWO48;
    if r + 1 < TWO48 {
      DivModUnique(start + i + 1, TWO48, q, r + 1);
    } else {
      DivModUnique(start + i + 1, TWO48, q + 1, 0);
    }
  }

  /** Blocks of enabled links below k, one each, in link order. */
  predicate InLinkOrder(s: Setup, ts: Tag, k: nat, bs: seq<DataBlock>) {
    && (forall i, j | 0 <= i < j < |bs| :: bs[i].link < bs[j].link)
    && (forall i | 0 <= i < |bs| :: bs[i].tag == ts && bs[i].link < k && s.Enabled(bs[i].link))
  }

  lemma InLinkOrderGoesOn(s: Setup, ts: Tag, k: nat, bs: seq<DataBlock>, b: DataBlock)
    requires InLinkOrder(s, ts, k, bs)
    ensures InLinkOrder(s, ts, k + 1, bs)
    ensures b.tag == ts && b.link == k && s.Enabled(k) ==> InLinkOrder(s, ts, k + 1, bs + [b])
  {
    hide Setup.Enabled;
  }

  /** In a single-subsystem mode an event has blocks of enabled links only, one each and in link order. */
  lemma {:induction false} BlocksInLinkOrder(s: Setup, ts: Tag, k: nat)
    requires s.Valid()
    ensures InLinkOrder(s, ts, k, LinkBlocks(s, ts, k))
  {
    if k > 0 {
      BlocksInLinkOrder(s, ts, k - 1);
      hide InLinkOrder, LinkBlock, Setup.Enabled, Setup.PacketCount, Setup.Valid;
      var made := LinkBlock(s, ts, k - 1, s.PacketCount(k - 1));
      InLinkOrderGoesOn(s, ts, k - 1, LinkBlocks(s, ts, k - 1),
                        if made.Some? then made.value else DataBlock(ts, k - 1, TimeoutBody));
      assert LinkBlocks(s, ts, k - 1) + [] == LinkBlocks(s, ts, k - 1);
    }
  }

  /** And every enabled link has its block. */
  lemma {:induction false} EnabledLinkHasBlock(s: Setup, ts: Tag, k: nat, link: nat)
    requires s.Valid() && s.mode != Disabled && s.mode != EventMode && link < k && s.Enabled(link)
    ensures LinkBlock(s, ts, link, s.PacketCount(link)).value in LinkBlocks(s, ts, k)
  {
    hide Setup.Enabled, Setup.PacketCount, Setup.Valid;
    if link < k - 1 { EnabledLinkHasBlock(s, ts, k - 1, link); }
  }

  /** Event mode makes only whole DTCs of six blocks: the block counts are rounded down, not up. */
  lemma {:induction false} EventModeBlocks(s: Setup, ts: Tag, det: Detector, n: nat)
    requires s.Valid()
    ensures |SubEntries(ts, DtcSubEvents(s, ts, det, n / 6))| == n - n % 6
    decreases n
  {
    if n >= 6 {
      EventModeBlocks(s, ts, det, n - 6);
      var subs := DtcSubEvents(s, ts, det, n / 6);
      assert subs[..|subs| - 1] == DtcSubEvents(s, ts, det, (n - 6) / 6);
    }
  }

  /** Every calorimeter block of every event of a run passes the verifier. */
  lemma CaloBlockIsAccepted(s: Setup, link: nat, dtcId: nat)
    requires s.Valid()
    ensures var b := CaloBlock(s, link, dtcId); BlockOk(b) && Readable(b)
  {
    SimulatedIsWellFormed(s.caloHits, link, dtcId, CaloBlock(s, link, dtcId).byteCount);
  }
}
