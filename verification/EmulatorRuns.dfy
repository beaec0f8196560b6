/** What a user of the simulator gets from register writes: tags, packet counts and links, in bits and numbers. */
module EmulatorRuns {
  import opened Outcomes
  import opened Words
  import opened EventFile
  import opened EventSimulator

  /** Events of these tags, one after the other. */
  predicate AreTagged(items: seq<Item>, first: nat) {
    forall i | 0 <= i < |items| ::
      items[i].Written? && items[i].event.tag == (first + i) % 0x1_0000_0000_0000
  }

  lemma EventsAreTagged(s: Setup, first: Tag, n: nat)
    requires s.Valid()
    ensures AreTagged(Events(s, first, n), first)
  {
    hide EventFor;
  }

  /** The last n items of a run of n heartbeats have the n tags from the first on. */
  lemma RunIsTagged(s: Setup, first: Tag, n: nat, file: seq<Item>, e: Option<Event>, sub: Option<SubEvent>)
    requires s.Valid() && e.Some? == sub.Some? && n > 0
    ensures var r := AfterRun(s, first, n, file, e, sub);
            |r| == |file| + n + (if e.Some? && e.value.tag != first then 1 else 0) && AreTagged(r[|r| - n..], first)
  {
    hide EventFor, Joined, SealedSub;
    EventsAreTagged(s, first, n);
    var events, r := Events(s, first, n), AfterRun(s, first, n, file, e, sub);
    var b := Opened(file, e, sub, first);
    NextTagDiffers(first, 0);
    assert r[|r| - n..] == [Written(Joined(s, b.event, b.subEvent))] + events[1..];
    assert b.event.tag == first;
  }

  /** The two timestamp registers hold the first tag: low 32 bits and, in the low half of the other, high 16 bits. */
  lemma StartIsWritten(s: Setup, first: nat, rest: nat)
    requires first < 0x1_0000_0000_0000 && rest < 0x1_0000
    requires s.Reg(TimestampLow) == first % 0x1_0000_0000
    requires s.Reg(TimestampHigh) == first / 0x1_0000_0000 + 0x1_0000 * rest
    ensures s.Start() == first
  {
    DivModUnique(s.Reg(TimestampHigh), 0x1_0000, rest, first / 0x1_0000_0000);
  }

  /** Four register writes make a run: one event for each of n consecutive tags, the first one as written, in order, at
      the end of the file; and none is left open. */
  method Run(sim: Mu2eSim, first: nat, rest: nat, n: nat)
    requires sim.Valid() && sim.Current().Reg(DetEmulationControl0) % 4 == 0
    requires first < 0x1_0000_0000_0000 && rest < 0x1_0000 && 0 < n < 0x1_0000_0000
    modifies sim
    ensures sim.Valid() && sim.event == None
    ensures |sim.file| == |old(sim.file)| + n + (match old(sim.event) case Some(e) => if e.tag != first then 1 else 0
                                                                      case None => 0)
    ensures AreTagged(sim.file[|sim.file| - n..], first)
    ensures sim.Current().Reg(Control) == 0
  {
    hide AfterRun, Setup.Valid, Mu2eSim.Valid, Bit, AreTagged, Setup.Start;
    WriteNumbers(sim, first, rest, n);
    ghost var setup := sim.Current().(registers := sim.registers[Control := 0x4000_0000]);
    StartIsWritten(setup, first, rest);
    ghost var file, event, subEvent := sim.file, sim.event, sim.subEvent;
    ControlBits();
    EventsAreThere(sim, setup.registers);
    RunIsTagged(setup, setup.Start(), n, file, event, subEvent);
    sim.WriteRegister(Control, 0x4000_0000);
  }

  /** The three writes before the last. */
  method WriteNumbers(sim: Mu2eSim, first: nat, rest: nat, n: nat)
    requires sim.Valid()
    requires first < 0x1_0000_0000_0000 && rest < 0x1_0000 && n < 0x1_0000_0000
    modifies sim
    ensures sim.Valid() && sim.event == old(sim.event) && sim.subEvent == old(sim.subEvent)
    ensures sim.file == old(sim.file) && sim.mode == old(sim.mode)
    ensures sim.registers == old(sim.registers)[TimestampLow := first % 0x1_0000_0000]
                               [TimestampHigh := first / 0x1_0000_0000 + 0x1_0000 * rest][NumHeartbeats := n]
  {
    hide AfterRun, Setup.Valid, Mu2eSim.Valid, Bit, Setup.Start;
    sim.WriteRegister(TimestampLow, first % 0x1_0000_0000);
    sim.WriteRegister(TimestampHigh, first / 0x1_0000_0000 + 0x1_0000 * rest);
    sim.WriteRegister(NumHeartbeats, n);
  }

  lemma EventsAreThere(sim: Mu2eSim, registers: map<Register, u32>)
    requires sim.Valid()
    ensures sim.event.Some? == sim.subEvent.Some? && sim.Current().(registers := registers).Valid()
  {
  }

  lemma ControlBits()
    ensures Bit(0x4000_0000, 30) && !Bit(0x4000_0000, 31) && Mu2eSim.ClearBit30(0x4000_0000) == 0
  {
    hide Bit, Pow2;
    Pow2Of30();
    SingleBit(30, 30);
    SingleBit(30, 31);
  }

  /** Clearing bit 30 clears that bit and no other. */
  lemma ClearsBit30(x: u32, i: nat)
    ensures Bit(Mu2eSim.ClearBit30(x), i) <==> i != 30 && Bit(x, i)
  {
    hide Bit, Pow2;
    Pow2Of30();
    var y, q := Mu2eSim.ClearBit30(x), x / 0x4000_0000;
    assert y / 0x4000_0000 == q / 2 * 2 && y % 0x4000_0000 == x % 0x4000_0000;
    if i < 30 {
      TruncationBit(x, 30, i);
      TruncationBit(y, 30, i);
    } else {
      ShiftedBit(x, 30, q, i);
      ShiftedBit(y, 30, q / 2 * 2, i);
      LowestBitCleared(q, i - 30);
    }
  }

  lemma Pow2Of30()
    ensures Pow2(30) == 0x4000_0000
  {
    assert Pow2(10) == 1024;
    Pow2Add(10, 10);
    Pow2Add(20, 10);
  }

  lemma LowestBitCleared(q: nat, i: nat)
    ensures Bit(q / 2 * 2, i) <==> i != 0 && Bit(q, i)
  {
    assert q / 2 * 2 / 2 == q / 2;
  }

  lemma {:induction false} ShiftedBit(x: nat, s: nat, y: nat, i: nat)
    requires i >= s && y == x / Pow2(s)
    ensures Bit(x, i) <==> Bit(y, i - s)
  {
    if s == 0 {
      DivModUnique(x, 1, x, 0);
    } else {
      DivideTwice(x, 2, Pow2(s - 1));
      ShiftedBit(x / 2, s - 1, y, i - 1);
    }
  }

  /** Each packet-count register holds the counts of two links, the even one in its low half. */
  lemma PacketCounts(s: Setup, counts: seq<nat>)
    requires |counts| == 6 && forall k | 0 <= k < 6 :: counts[k] < 0x1_0000
    requires s.Reg(NumPacketsLinks10) == counts[0] + 0x1_0000 * counts[1]
    requires s.Reg(NumPacketsLinks32) == counts[2] + 0x1_0000 * counts[3]
    requires s.Reg(NumPacketsLinks54) == counts[4] + 0x1_0000 * counts[5]
    ensures forall link | 0 <= link < 6 :: s.PacketCount(link) == counts[link]
  {
  }

  /** A link takes part as soon as either of its two bits is set. */
  lemma EnabledLinks(s: Setup, receivers: set<nat>, transmitters: set<nat>)
    requires forall l: nat | l < 6 ::
               (Bit(s.Reg(LinkEnable), l) <==> l in receivers) && (Bit(s.Reg(LinkEnable), l + 8) <==> l in transmitters)
    ensures forall l: nat | l < 6 :: s.Enabled(l) <==> l in receivers + transmitters
  {
  }
}
