/** DTC_Data_Verifier on blocks, sub-events and events: the verifier class with its fields. */
module BlockVerifier {
  import opened Words
  import opened DataHeaders
  import opened CalorimeterBlock

  // ----- What a correct block is -----

  /** One packet of the ROC emulator: a fixed pattern around a 32-bit counter that is there twice. */
  predicate PacketOk(d: seq<u16>, i: nat) {
    && 8 * i + 8 <= |d|
    && d[8 * i] == 0x1111 && d[8 * i + 1] == 0x2222 && d[8 * i + 4] == 0x3333 && d[8 * i + 5] == 0x4444
    && d[8 * i + 2] == d[8 * i + 6] && d[8 * i + 3] == d[8 * i + 7]
  }

  predicate RocBlockOk(b: Block) {
    && b.tail.status == 0xEF && b.tail.version == 0xBE && b.tail.mode == 0xBE
    && forall i | 0 <= i < b.packetCount :: PacketOk(b.data, i)
  }

  /** A block with packets 0 and 7 of a ROC: the six between are not missed. */
  lemma JumpIsAccepted()
    ensures BlockOk(Block(48, TypeWord(0, ROC_EMULATOR), 2, Tail(0xEF, 0xBE, 0, 0xBE),
                          [0x1111, 0x2222, 0, 0, 0x3333, 0x4444, 0, 0, 0x1111, 0x2222, 0, 7, 0x3333, 0x4444, 0, 7]))
  {
  }

  predicate BlockOk(b: Block) {
    && b.IsDataHeader() && (b.packetCount + 1) * 16 == b.byteCount
    && (b.Subsystem() == CALORIMETER ==> b.byteCount == 0x10 || WellFormed(b.data, b.byteCount))
    && (b.Subsystem() == ROC_EMULATOR ==> RocBlockOk(b))
  }

  /** Which blocks are looked into, in the bits of the header: those of subsystem 1 as calorimeter blocks unless they
      are headers alone, those of subsystem 3 as ROC emulator blocks. */
  lemma BlockBits(b: Block)
    ensures BlockOk(b) <==>
              && And(b.typeWord, 0x80F0) == 0x8050
              && (b.packetCount + 1) * 16 == b.byteCount
              && (b.typeWord / 0x1000 % 8 == 1 ==> b.byteCount == 16 || WellFormed(b.data, b.byteCount))
              && (b.typeWord / 0x1000 % 8 == 3 ==> RocBlockOk(b))
  {
    hide WellFormed, RocBlockOk;
    DataHeaderMask(b);
  }

  /** The verifier finds every word it looks at. */
  predicate Readable(b: Block) {
    && (b.Subsystem() == CALORIMETER && b.byteCount != 0x10 ==> LongEnough(b.data))
    && (b.Subsystem() == ROC_EMULATOR ==> 8 * b.packetCount <= |b.data|)
  }

  function Counter(d: seq<u16>, at: nat): u32
    requires at + 1 < |d|
  {
    d[at] as int * 0x1_0000 + d[at + 1]
  }

  lemma SameCounter(a: u16, b: u16, c: u16, d: u16)
    ensures a as int * 0x1_0000 + b == c as int * 0x1_0000 + d <==> a == c && b == d
  {
  }

  // ----- The class -----

  class DataVerifier {
    var continueFile: bool
    var fileMode: bool
    var rocEmulatorPacketCounters: map<nat, u32>

    constructor ()
      ensures continueFile && !fileMode && rocEmulatorPacketCounters == map[]
    {
      continueFile, fileMode, rocEmulatorPacketCounters := true, false, map[];
    }

    /** The expected counter is moved to the one received before the second copy is compared with it: the verdict
        depends on the block alone, and a jump between packets or blocks is never an error. */
    method VerifyROCEmulatorBlock(b: Block) returns (v: Verdict)
      modifies this`rocEmulatorPacketCounters
      ensures v == Accept <==> RocBlockOk(b)
      ensures v == Overrun ==> 8 * b.packetCount > |b.data|
      ensures v != BadHeader
      ensures v == Accept && b.packetCount > 0 ==>
                && 8 * b.packetCount <= |b.data|
                && rocEmulatorPacketCounters
                   == old(rocEmulatorPacketCounters)
                        [b.typeWord / 0x100 % 0x10 := (b.data[8 * b.packetCount - 2] as int * 0x1_0000
                                                       + b.data[8 * b.packetCount - 1] + 1) % 0x1_0000_0000]
      ensures v == Accept && b.packetCount == 0 ==> rocEmulatorPacketCounters == old(rocEmulatorPacketCounters)
    {
      if b.tail.status != 0xEF || b.tail.version != 0xBE || b.tail.mode != 0xBE { return Reject; }
      var roc, d, dataPtr := b.Link(), b.data, 0;
      for ii := 0 to b.packetCount
        invariant dataPtr == 8 * ii <= |d|
        invariant forall i | 0 <= i < ii :: PacketOk(d, i)
        invariant rocEmulatorPacketCounters
                  == if ii == 0 then old(rocEmulatorPacketCounters)
                     else old(rocEmulatorPacketCounters)[roc := (Counter(d, dataPtr - 2) as int + 1) % 0x1_0000_0000]
      {
        if dataPtr + 8 > |d| {
          assert !PacketOk(d, ii);
          return Overrun;
        }
        var success := d[dataPtr] == 0x1111 && d[dataPtr + 1] == 0x2222;
        var test := Counter(d, dataPtr + 2);
        if roc !in rocEmulatorPacketCounters {
          rocEmulatorPacketCounters := rocEmulatorPacketCounters[roc := test];
        }
        if test != rocEmulatorPacketCounters[roc] {
          rocEmulatorPacketCounters := rocEmulatorPacketCounters[roc := test];
        }
        success := success && d[dataPtr + 4] == 0x3333 && d[dataPtr + 5] == 0x4444;
        test := Counter(d, dataPtr + 6);
        success := success && test == rocEmulatorPacketCounters[roc];
        SameCounter(d[dataPtr + 2], d[dataPtr + 3], d[dataPtr + 6], d[dataPtr + 7]);
        rocEmulatorPacketCounters :=
          rocEmulatorPacketCounters[roc := (rocEmulatorPacketCounters[roc] as int + 1) % 0x1_0000_0000];
        assert success <==> PacketOk(d, ii);
        if !success { return Reject; }
        dataPtr := dataPtr + 8;
      }
      v := Accept;
    }

    method VerifyBlock(b: Block) returns (v: Verdict)
      modifies this`continueFile, this`rocEmulatorPacketCounters
      ensures v == Accept <==> BlockOk(b)
      ensures v == BadHeader <==> !b.IsDataHeader()
      ensures v == Overrun ==> !Readable(b)
      ensures continueFile == (old(continueFile) && b.IsDataHeader())
    {
      hide RocBlockOk, WellFormed, LongEnough;
      if !b.IsDataHeader() {
        continueFile := false;
        return BadHeader;
      }
      if (b.packetCount + 1) * 16 != b.byteCount { return Reject; }
      if b.Subsystem() == CALORIMETER {
        v := VerifyCalorimeterDataBlock(b.data, b.byteCount);
      } else if b.Subsystem() == ROC_EMULATOR {
        v := VerifyROCEmulatorBlock(b);
      } else {
        v := Accept;
      }
    }

    /** All blocks must be accepted; in a file the first bad header ends the reading. */
    method VerifySubEvent(blocks: seq<Block>) returns (success: bool)
      requires forall k | 0 <= k < |blocks| :: Readable(blocks[k])
      modifies this`continueFile, this`rocEmulatorPacketCounters
      ensures !fileMode || old(continueFile) ==> (success <==> forall k | 0 <= k < |blocks| :: BlockOk(blocks[k]))
      ensures !fileMode || old(continueFile) ==>
                continueFile == (old(continueFile) && forall k | 0 <= k < |blocks| :: blocks[k].IsDataHeader())
    {
      hide RocBlockOk, WellFormed, LongEnough, Readable;
      success := true;
      for k := 0 to |blocks|
        invariant !fileMode || old(continueFile) ==>
          && (success <==> forall j | 0 <= j < k :: BlockOk(blocks[j]))
          && continueFile == (old(continueFile) && forall j | 0 <= j < k :: blocks[j].IsDataHeader())
          && (fileMode ==> continueFile)
      {
        var verdict := VerifyBlock(blocks[k]);
        success := success && verdict == Accept;
        if fileMode && !continueFile { return false; }
      }
    }

    /** An event is accepted exactly when every block of every sub-event is; in a file, reading goes on exactly when
        no block has a bad header. */
    method VerifyEvent(subEvents: seq<seq<Block>>) returns (success: bool)
      requires forall k, j | 0 <= k < |subEvents| && 0 <= j < |subEvents[k]| :: Readable(subEvents[k][j])
      modifies this`continueFile, this`rocEmulatorPacketCounters
      ensures !fileMode || old(continueFile) ==>
                (success <==> forall k | 0 <= k < |subEvents| :: AllOk(subEvents[k]))
      ensures !fileMode || old(continueFile) ==>
                continueFile == (old(continueFile) && forall k | 0 <= k < |subEvents| :: AllHeaders(subEvents[k]))
    {
      hide BlockOk, Readable;
      success := true;
      for k := 0 to |subEvents|
        invariant !fileMode || old(continueFile) ==>
          && (success <==> forall j | 0 <= j < k :: AllOk(subEvents[j]))
          && continueFile == (old(continueFile) && forall j | 0 <= j < k :: AllHeaders(subEvents[j]))
          && (fileMode ==> continueFile)
      {
        var subEventSuccess := VerifySubEvent(subEvents[k]);
        OkHasHeaders(subEvents[k]);
        success := success && subEventSuccess;
        if fileMode && !continueFile { return false; }
      }
    }
  }

  predicate AllOk(blocks: seq<Block>) {
    forall k | 0 <= k < |blocks| :: BlockOk(blocks[k])
  }

  predicate AllHeaders(blocks: seq<Block>) {
    forall k | 0 <= k < |blocks| :: blocks[k].IsDataHeader()
  }

  /** An accepted sub-event never stops the reading. */
  lemma OkHasHeaders(blocks: seq<Block>)
    ensures AllOk(blocks) ==> AllHeaders(blocks)
  {
    hide RocBlockOk, WellFormed;
  }
}
