/** Data blocks: a header of eight 16-bit words, in the fields of the hardware's view, and data words.

    The header class of artdaq-core-mu2e is not part of this model. */
module DataHeaders {
  import opened Words

  /** Bytes 12 to 15 of the header. */
  datatype Tail = Tail(status: byte, version: byte, dtcId: byte, mode: byte)

  datatype Block = Block(byteCount: u16, typeWord: u16, packetCount: nat, tail: Tail, data: seq<u16>) {
    function Link(): nat { typeWord / 0x100 % 0x10 }
    function Subsystem(): nat { typeWord / 0x1000 % 8 }

    /** The valid bit is set and the packet type is 5: the test with mask 0x80F0. */
    predicate IsDataHeader() { typeWord / 0x8000 == 1 && typeWord / 0x10 % 0x10 == 5 }
  }

  datatype Verdict = Accept | Reject | BadHeader | Overrun

  const CALORIMETER: nat := 1
  const ROC_EMULATOR: nat := 3

  /** Word 1 of a valid data header. */
  function TypeWord(link: nat, subsystem: nat): (w: u16)
    requires subsystem < 8
    ensures w / 0x8000 == 1 && w / 0x10 % 0x10 == 5 && w / 0x100 % 0x10 == link % 0x10 && w / 0x1000 % 8 == subsystem
  {
    TypeWordFields(link % 0x10, subsystem);
    0x8050 + link % 0x10 * 0x100 + subsystem * 0x1000
  }

  lemma TypeWordFields(link: nat, subsystem: nat)
    requires link < 0x10 && subsystem < 8
    ensures var w := 0x8050 + link * 0x100 + subsystem * 0x1000;
            && w < 0x1_0000 && w / 0x8000 == 1 && w / 0x10 % 0x10 == 5
            && w / 0x100 % 0x10 == link && w / 0x1000 % 8 == subsystem
  {
  }

  lemma HeaderMask(x: u16)
    ensures And(x, 0x80F0) == x / 0x8000 * 0x8000 + x / 0x10 % 0x10 * 0x10
  {
    hide And;
    AndOfShifts(x, 0x80F);
    AndOfShifts(x / 16, 0x80);
    AndOfShifts(x / 256, 8);
    AndOfDouble(x / 4096, 4);
    AndOfDouble(x / 8192, 2);
    AndOfDouble(x / 16384, 1);
    AndOfSuccessor(x / 32768, 0);
    AndOfNone(x / 65536);
    assert x / 16 / 16 == x / 256 && x / 256 / 16 == x / 4096 && x / 4096 / 2 == x / 8192;
    assert x / 32768 / 2 == x / 65536;
    assert x / 8192 / 2 == x / 16384 && x / 16384 / 2 == x / 32768;
  }

  /** The two fields are those of one mask. */
  lemma DataHeaderMask(b: Block)
    ensures b.IsDataHeader() <==> And(b.typeWord, 0x80F0) == 0x8050
  {
    hide And;
    HeaderMask(b.typeWord);
  }
}
