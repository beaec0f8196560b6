/** The DTC simulator's event building (mu2esim): requests and emulated heartbeats open and close events in a file. */
module EventSimulator {
  import opened Outcomes
  import opened Words
  import opened CalorimeterBlock
  import opened EventFile

  class Mu2eSim {
    const trackerBlocks: nat
    const caloBlocks: nat
    const caloHits: u16
    const crvBlocks: nat
    const status: byte

    var mode: SimMode
    var registers: map<Register, u32>
    var cancelCFO: bool
    var readoutRequestReceived: map<Tag, set<nat>>
    var event: Option<Event>
    var subEvent: Option<SubEvent>
    var file: seq<Item>

    /** Every block ever added, under the tag of the event then open. */
    ghost var log: seq<Entry>
    /** The blocks in files that were truncated. */
    ghost var lost: seq<Entry>

    function Current(): Setup
      reads this`mode, this`registers
    {
      Setup(mode, registers, trackerBlocks, caloBlocks, caloHits, crvBlocks, status)
    }

    /** The file as closing the open event would leave it. */
    ghost function Sealed(): seq<Item>
      reads this
      requires event.Some? == subEvent.Some?
    {
      Seal(file, event, subEvent)
    }

    ghost predicate Valid()
      reads this
    {
      && Current().Valid()
      && event.Some? == subEvent.Some?
      && (event.Some? ==> subEvent.value.tag == event.value.tag)
      && log == lost + FileEntries(Sealed())
      && (forall ts, l | ts in readoutRequestReceived && l in readoutRequestReceived[ts] :: l < LINKS)
    }

    constructor (trackerBlocks: nat, caloBlocks: nat, caloHits: u16, crvBlocks: nat, status: byte)
      requires 0 < caloHits && Fits(caloHits)
      ensures Valid() && event == None && file == [] && log == [] && lost == [] && mode == Disabled && cancelCFO
      ensures this.trackerBlocks == trackerBlocks && this.caloBlocks == caloBlocks
      ensures this.caloHits == caloHits && this.crvBlocks == crvBlocks && this.status == status
    {
      this.trackerBlocks, this.caloBlocks, this.crvBlocks := trackerBlocks, caloBlocks, crvBlocks;
      this.caloHits := caloHits;
      this.status := status;
      mode, registers, cancelCFO, readoutRequestReceived := Disabled, map[], true, map[];
      event, subEvent, file, log, lost := None, None, [], [], [];
    }

    // ----- Opening and closing -----

    method CloseSubEvent()
      requires Valid()
      modifies this`event, this`subEvent
      ensures Valid() && Sealed() == old(Sealed())
      ensures event.Some? <==> old(event).Some?
      ensures event.Some? ==> event.value == SealedSub(old(event).value, old(subEvent).value)
      ensures event.Some? ==> subEvent.value == SubEvent(old(event).value.tag, [])
    {
      hide FileEntries, RoundUp8, Fits;
      if event.None? || subEvent.None? || subEvent.value.blocks == [] { return; }
      event := Some(event.value.(subEvents := event.value.subEvents + [subEvent.value]));
      subEvent := Some(SubEvent(event.value.tag, []));
    }

    method CloseEvent()
      requires Valid()
      modifies this`event, this`subEvent, this`file
      ensures Valid() && event == None && file == old(Sealed())
    {
      hide FileEntries, RoundUp8, Fits;
      if subEvent.Some? { CloseSubEvent(); }
      if event.Some? {
        file := file + [Written(event.value)];
        event, subEvent := None, None;
      }
    }

    method OpenEvent(ts: Tag)
      requires Valid()
      modifies this`event, this`subEvent, this`file
      ensures Valid() && event.Some? && event.value.tag == ts
      ensures subEvent.Some? && Building(file, event.value, subEvent.value)
                                == Opened(old(file), old(event), old(subEvent), ts)
    {
      hide FileEntries, SealedSub, RoundUp8, Fits;
      if event.Some? && event.value.tag == ts { return; }
      if event.Some? { CloseEvent(); }
      event, subEvent := Some(Event(ts, [])), Some(SubEvent(ts, []));
      EntriesOfNewEvent(file, ts);
    }

    /** AddDataBlock on the open sub-event. */
    method AddDataBlock(b: DataBlock)
      requires Valid() && event.Some?
      modifies this`subEvent, this`log
      ensures Valid() && subEvent == Some(old(subEvent).value.(blocks := old(subEvent).value.blocks + [b]))
      ensures log == old(log) + [Entry(event.value.tag, b)]
    {
      hide FileEntries, SealedSub, RoundUp8, Fits;
      EntriesOfAddedBlock(file, event.value, subEvent.value, b);
      subEvent := Some(subEvent.value.(blocks := subEvent.value.blocks + [b]));
      log := log + [Entry(event.value.tag, b)];
    }

    // ----- Block simulators -----

    method SimulateCalorimeterBlock(ts: Tag, link: nat, dtcId: nat)
      requires Valid() && event.Some?
      modifies this`subEvent, this`log
      ensures var b := DataBlock(ts, link, CalorimeterBody(CaloBlock(Current(), link, dtcId)));
              && Valid() && subEvent == Some(old(subEvent).value.(blocks := old(subEvent).value.blocks + [b]))
              && log == old(log) + [Entry(event.value.tag, b)]
    {
      hide FileEntries, Seal, SimulatedData, RoundUp8, Fits;
      var block := CalorimeterBlockSimulator(caloHits, link, dtcId, status, Current().Reg(EventMode1) % 256);
      AddDataBlock(DataBlock(ts, link, CalorimeterBody(block)));
    }

    /** The choice by mode that a data request and a heartbeat make. */
    method SimulateBlock(ts: Tag, link: nat, packetCount: nat)
      requires Valid() && event.Some?
      modifies this`subEvent, this`log
      ensures Valid() && subEvent.Some? && subEvent.value.tag == old(subEvent).value.tag
      ensures subEvent.value.blocks
              == old(subEvent).value.blocks + OptionalBlock(LinkBlock(Current(), ts, link, packetCount))
      ensures log == old(log) + Entries(event.value.tag, OptionalBlock(LinkBlock(Current(), ts, link, packetCount)))
    {
      hide CaloBlock, FileEntries, Entries, RoundUp8, Fits;
      ghost var made := LinkBlock(Current(), ts, link, packetCount);
      EntriesOfBlocks(event.value.tag, [], if made.Some? then made.value else DataBlock(ts, link, TimeoutBody));
      if mode == Performance {
        AddDataBlock(DataBlock(ts, link, PacketsBody(packetCount)));
      } else if mode == Timeout {
        AddDataBlock(DataBlock(ts, link, TimeoutBody));
      } else if mode == Tracker {
        AddDataBlock(DataBlock(ts, link, TrackerBody(0)));
      } else if mode == Calorimeter {
        SimulateCalorimeterBlock(ts, link, 0);
      } else if mode == CosmicVeto {
        AddDataBlock(DataBlock(ts, link, CrvBody(0)));
      }
    }

    // ----- Requests -----

    /** A readout request on channel 1. */
    method ReadoutRequest(ts: Tag, link: nat)
      requires Valid() && link < LINKS
      modifies this`readoutRequestReceived
      ensures Valid()
      ensures readoutRequestReceived
              == old(readoutRequestReceived)[ts := Requested(old(readoutRequestReceived), ts) + {link}]
    {
      readoutRequestReceived := readoutRequestReceived[ts := Requested(readoutRequestReceived, ts) + {link}];
    }

    static function Requested(requests: map<Tag, set<nat>>, ts: Tag): set<nat> {
      if ts in requests then requests[ts] else {}
    }

    /** A data request on channel 1; no link is the unused one. */
    method DataRequest(ts: Tag, link: Option<nat>, packetCount: nat)
      requires Valid() && (link.Some? ==> link.value < LINKS)
      modifies this`event, this`subEvent, this`file, this`log, this`readoutRequestReceived
      ensures Valid()
      ensures var before := Requested(old(readoutRequestReceived), ts);
              if link.None? || link.value !in before then
                && event == old(event) && subEvent == old(subEvent) && file == old(file) && log == old(log)
                && Requested(readoutRequestReceived, ts) == before
              else
                var made := OptionalBlock(LinkBlock(Current(), ts, link.value, packetCount));
                var b := Opened(old(file), old(event), old(subEvent), ts);
                var sub := SubEvent(b.subEvent.tag, b.subEvent.blocks + made);
                && Requested(readoutRequestReceived, ts) == before - {link.value}
                && log == old(log) + Entries(ts, made)
                && if before == {link.value} then
                     event == None && file == b.file + [Written(SealedSub(b.event, sub))]
                   else
                     event == Some(b.event) && subEvent == Some(sub) && file == b.file
      ensures forall t | t != ts ::
                Requested(readoutRequestReceived, t) == Requested(old(readoutRequestReceived), t)
    {
      hide LinkBlock, FileEntries, RoundUp8, Fits;
      if link.None? { return; }
      readoutRequestReceived := readoutRequestReceived[ts := Requested(readoutRequestReceived, ts)];
      if link.value !in readoutRequestReceived[ts] { return; }
      OpenEvent(ts);
      SimulateBlock(ts, link.value, packetCount);
      readoutRequestReceived := readoutRequestReceived[ts := readoutRequestReceived[ts] - {link.value}];
      if readoutRequestReceived[ts] == {} {
        CloseEvent();
        readoutRequestReceived := readoutRequestReceived - {ts};
      }
    }

    /** A buffer written to channel 0, no larger than one DMA buffer, closes the open event. */
    method WriteRaw(data: seq<byte>)
      requires Valid()
      modifies this`event, this`subEvent, this`file
      ensures Valid() && event == None && file == old(Sealed()) + [Raw(data)]
    {
      if event.Some? { CloseEvent(); }
      EntriesOfAppend(file, Raw(data));
      file := file + [Raw(data)];
    }

    /** reopenDDRFile_ on an open file truncates it; the open event is kept. */
    method ReopenDdrFile()
      requires Valid()
      modifies this`file, this`lost
      ensures Valid() && file == [] && lost == old(lost) + FileEntries(old(file))
    {
      hide FileEntries, RoundUp8, Fits;
      SplitFile(file, event, subEvent);
      lost := lost + FileEntries(file);
      file := [];
    }

    static lemma SplitFile(file: seq<Item>, e: Option<Event>, s: Option<SubEvent>)
      requires e.Some? == s.Some?
      ensures FileEntries(Seal(file, e, s)) == FileEntries(file) + FileEntries(Seal([], e, s))
    {
      assert FileEntries([]) == [];
      hide FileEntries, SealedSub, RoundUp8, Fits;
      if e.Some? {
        var it := Written(SealedSub(e.value, s.value));
        EntriesOfAppend(file, it);
        EntriesOfAppend([], it);
      }
    }

    // ----- Emulated heartbeats -----

    /** The loop over the links of one DTC; the break leaves this loop only. */
    method SimulateDtcLinks(ts: Tag, det: Detector, ii: nat, blocks: nat, before: nat) returns (generated: nat)
      requires Valid() && event.Some? && event.value.tag == ts && before == 6 * ii && 6 * ii + 6 <= blocks
      modifies this`subEvent, this`log
      ensures Valid() && generated == before + 6 && old(log) <= log
      ensures subEvent.value.blocks == old(subEvent).value.blocks + DtcBlocks(Current(), ts, det, ii, LINKS)
    {
      hide CaloBlock, FileEntries, DtcSubEvents, RoundUp8, Fits;
      generated := before;
      for link := 0 to LINKS
        modifies this`subEvent, this`log
        invariant Valid() && generated == before + link && old(log) <= log
        invariant subEvent.value.blocks == old(subEvent).value.blocks + DtcBlocks(Current(), ts, det, ii, link)
      {
        if det == TrackerDtc {
          AddDataBlock(DataBlock(ts, link, TrackerBody(ii)));
        } else if det == CaloDtc {
          SimulateCalorimeterBlock(ts, link, ii);
        } else {
          AddDataBlock(DataBlock(ts, link, CrvBody(ii)));
        }
        generated := generated + 1;
        if generated >= blocks {
          assert link == 5;
          break;
        }
      }
    }

    /** One DTC: its six blocks, and its sub-event closed. */
    method SimulateDtc(ts: Tag, det: Detector, ii: nat, blocks: nat, before: nat) returns (generated: nat)
      requires Valid() && event.Some? && event.value.tag == ts && before == 6 * ii && 6 * ii + 6 <= blocks
      modifies this`event, this`subEvent, this`log
      ensures Valid() && generated == before + 6 && old(log) <= log && event.Some? && event.value.tag == ts
      ensures subEvent.value.blocks == []
      ensures event.value.subEvents
              == old(event).value.subEvents
                 + [SubEvent(ts, old(subEvent).value.blocks + DtcBlocks(Current(), ts, det, ii, LINKS))]
    {
      hide FileEntries, DtcBlocks, DtcBlock, CaloBlock, RoundUp8, Fits;
      generated := SimulateDtcLinks(ts, det, ii, blocks, before);
      CloseSubEvent();
    }

    /** One DTC after the other, each with a sub-event of its own. */
    method SimulateDtcs(ts: Tag, det: Detector, blocks: nat)
      requires Valid() && event.Some? && event.value.tag == ts
      modifies this`event, this`subEvent, this`log
      ensures Valid() && old(log) <= log && event.Some? && event.value.tag == ts
      ensures var subs, pending := DtcSubEvents(Current(), ts, det, blocks / 6), old(subEvent).value.blocks;
              && event.value.subEvents == old(event).value.subEvents + Prepended(pending, subs)
              && subEvent.value.blocks == if subs == [] then pending else []
    {
      hide FileEntries, DtcBlocks, DtcBlock, CaloBlock, Prepended, Setup.Valid, Seal, Current, RoundUp8, Fits;
      ghost var base, pending := event.value.subEvents, subEvent.value.blocks;
      PrependedNothing(pending);
      var numDtcs := blocks / 6;
      var generated := 0;
      for ii := 0 to numDtcs
        modifies this`event, this`subEvent, this`log
        invariant Valid() && generated == 6 * ii && old(log) <= log && event.Some? && event.value.tag == ts
        invariant subEvent.value.blocks == if ii == 0 then pending else []
        invariant event.value.subEvents == base + Prepended(pending, DtcSubEvents(Current(), ts, det, ii))
      {
        ghost var subs, made := DtcSubEvents(Current(), ts, det, ii), DtcBlocks(Current(), ts, det, ii, LINKS);
        OneMoreDtc(base, pending, subs, ts, made);
        generated := SimulateDtc(ts, det, ii, blocks, generated);
      }
    }

    /** The DTCs of the three detectors; waiting blocks go into the first sub-event closed. */
    method SimulateDetectors(ts: Tag)
      requires Valid() && event.Some? && event.value.tag == ts
      modifies this`event, this`subEvent, this`log
      ensures Valid() && old(log) <= log && event.Some? && event.value.tag == ts
      ensures var subs, pending := AllSubEvents(Current(), ts), old(subEvent).value.blocks;
              && event.value.subEvents == old(event).value.subEvents + Prepended(pending, subs)
              && subEvent.value.blocks == if subs == [] then pending else []
    {
      hide DtcSubEvents, FileEntries, Prepended, RoundUp8, Fits, Setup.Valid, Seal;
      ghost var base, p := event.value.subEvents, subEvent.value.blocks;
      ghost var a := DtcSubEvents(Current(), ts, TrackerDtc, trackerBlocks / 6);
      ghost var b := DtcSubEvents(Current(), ts, CaloDtc, caloBlocks / 6);
      ghost var c := DtcSubEvents(Current(), ts, CrvDtc, crvBlocks / 6);
      SimulateDtcs(ts, TrackerDtc, trackerBlocks);
      SimulateDtcs(ts, CaloDtc, caloBlocks);
      SimulateDtcs(ts, CrvDtc, crvBlocks);
      PrependedJoin(p, a, b);
      PrependedJoin(p, a + b, c);
      assert event.value.subEvents == base + Prepended(p, a + b + c);
    }

    /** eventSimulator_: all DTCs of all detectors, and the event is closed. */
    method SimulateEvent(ts: Tag)
      requires Valid() && mode == EventMode
      modifies this`event, this`subEvent, this`log, this`file
      ensures Valid() && old(log) <= log && event == None
      ensures file == AfterHeartbeat(Current(), ts, old(file), old(event), old(subEvent))
    {
      hide AllSubEvents, FileEntries, Prepended, RoundUp8, Fits;
      OpenEvent(ts);
      SimulateDetectors(ts);
      CloseEvent();
    }

    /** The links of one heartbeat in a single-subsystem mode. */
    method SimulateLinks(ts: Tag, linkEnabled: seq<bool>)
      requires Valid() && event.Some? && event.value.tag == ts
      requires |linkEnabled| == LINKS && forall l | 0 <= l < LINKS :: linkEnabled[l] <==> Current().Enabled(l)
      modifies this`subEvent, this`log
      ensures Valid() && subEvent.Some?
      ensures subEvent.value.blocks == old(subEvent).value.blocks + LinkBlocks(Current(), ts, LINKS)
      ensures old(log) <= log
    {
      hide LinkBlock, FileEntries, Setup.PacketCount, Setup.Enabled, Setup.Valid, Seal, RoundUp8, Fits;
      for link := 0 to LINKS
        modifies this`subEvent, this`log
        invariant Valid()
        invariant subEvent.value.blocks == old(subEvent).value.blocks + LinkBlocks(Current(), ts, link)
        invariant old(log) <= log
      {
        var packetCount := Current().PacketCount(link);
        if linkEnabled[link] {
          SimulateBlock(ts, link, packetCount);
        }
      }
    }

    /** One heartbeat: its event is written, and none is left open. */
    method Heartbeat(ts: Tag, linkEnabled: seq<bool>)
      requires Valid()
      requires |linkEnabled| == LINKS && forall l | 0 <= l < LINKS :: linkEnabled[l] <==> Current().Enabled(l)
      modifies this`event, this`subEvent, this`log, this`file
      ensures Valid() && old(log) <= log && event == None
      ensures file == AfterHeartbeat(Current(), ts, old(file), old(event), old(subEvent))
    {
      hide DtcSubEvents, LinkBlocks, FileEntries, RoundUp8, Fits;
      if mode == EventMode {
        SimulateEvent(ts);
      } else {
        OpenEvent(ts);
        SimulateLinks(ts, linkEnabled);
        CloseEvent();
      }
    }

    /** CFOEmulator_: the numbers are read from the registers once, before the loop. */
    method CFOEmulator()
      requires Valid()
      modifies this`event, this`subEvent, this`log, this`file, this`registers
      ensures Valid() && old(log) <= log
      ensures registers == old(registers)[Control := ClearBit30(old(Current()).Reg(Control))]
      ensures cancelCFO ==> event == old(event) && subEvent == old(subEvent) && file == old(file) && log == old(log)
      ensures !cancelCFO ==>
                var count := old(Current()).Reg(NumHeartbeats);
                && file == AfterRun(old(Current()), old(Current()).Start(), count, old(file), old(event), old(subEvent))
                && (if count > 0 then event == None else event == old(event) && subEvent == old(subEvent))
    {
      hide AfterHeartbeat, AfterRun, EventFor, FileEntries, RoundUp8, Fits;
      hide Setup.Enabled, Setup.Start, Setup.PacketCount;
      if cancelCFO {
        registers := registers[Control := ClearBit30(Current().Reg(Control))];
        return;
      }
      var start, count := Current().Start(), Current().Reg(NumHeartbeats);
      var setup := Current();
      var linkEnabled := seq(LINKS, l requires 0 <= l < LINKS => setup.Enabled(l));
      var sentCount := 0;
      NextTagDiffers(start, 0);
      RunOfNone(setup, start, file, event, subEvent);
      while sentCount < count && !cancelCFO
        modifies this`event, this`subEvent, this`log, this`file
        invariant Valid() && sentCount <= count && old(log) <= log
        invariant file == AfterRun(setup, start, sentCount, old(file), old(event), old(subEvent))
        invariant if sentCount > 0 then event == None else event == old(event) && subEvent == old(subEvent)
      {
        RunGoesOn(setup, start, sentCount, old(file), old(event), old(subEvent));
        Heartbeat(TagAfter(start, sentCount), linkEnabled);
        sentCount := sentCount + 1;
      }
      registers := registers[Control := ClearBit30(Current().Reg(Control))];
    }

    static function ClearBit30(x: u32): u32 {
      x / 0x8000_0000 * 0x8000_0000 + x % 0x4000_0000
    }

    // ----- Registers -----

    /** init: the registers of this model that it sets, and the mode. */
    method Init(simMode: SimMode)
      requires Valid()
      modifies this`mode, this`registers
      ensures Valid() && mode == simMode && registers == old(registers)[Control := 3][LinkEnable := 0x3F3F]
    {
      hide FileEntries, RoundUp8, Fits;
      mode := simMode;
      registers := registers[Control := 3];
      registers := registers[LinkEnable := 0x3F3F];
    }

    /** write_register: bit 30 of the control register starts the emulator unless the detector emulator is on, bit 31
        resets and truncates the file; so does clearing bit 0 of the detector emulator's register, without the reset. */
    method WriteRegister(address: Register, data: u32)
      requires Valid()
      modifies this`event, this`subEvent, this`log, this`file, this`registers, this`cancelCFO, this`lost, this`mode
      ensures Valid() && old(log) <= log && mode == old(mode)
      ensures address != Control ==>
                && registers == old(registers)[address := data] && cancelCFO == old(cancelCFO)
                && event == old(event) && subEvent == old(subEvent)
                && if address == DetEmulationControl0 && data % 2 == 0
                   then file == [] && lost == old(lost) + FileEntries(old(file))
                   else file == old(file) && lost == old(lost)
      ensures address == Control ==>
                var setup := old(Current()).(registers := old(registers)[Control := data]);
                var run := setup.Runs(data);
                var count := if run then setup.Reg(NumHeartbeats) else 0;
                var written := AfterRun(setup, setup.Start(), count, old(file), old(event), old(subEvent));
                && cancelCFO == (!run && old(cancelCFO))
                && (if count > 0 then event == None else event == old(event) && subEvent == old(subEvent))
                && (if Bit(data, 31) then
                      file == [] && lost == old(lost) + FileEntries(written)
                      && registers == setup.registers[Control := 3][LinkEnable := 0x3F3F]
                    else
                      file == written && lost == old(lost)
                      && registers == if run then setup.registers[Control := ClearBit30(data)] else setup.registers)
    {
      hide FileEntries, EventFor, AfterHeartbeat, AfterRun, Events, Bit, RoundUp8, Fits, Setup.Start;
      registers := registers[address := data];
      if address == Control {
        RunOfNone(Current(), Current().Start(), file, event, subEvent);
        var detectorEmulationMode := Current().Reg(DetEmulationControl0) % 4 != 0;
        if Bit(data, 30) && !detectorEmulationMode {
          cancelCFO := false;
          CFOEmulator();
        }
        if Bit(data, 31) {
          Init(mode);
          ReopenDdrFile();
        }
      }
      if address == DetEmulationControl0 {
        if data % 2 == 0 { ReopenDdrFile(); }
      }
    }
  }
}
