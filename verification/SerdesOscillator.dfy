/** The SERDES oscillator behind its IIC interface: six byte-wide registers hold the program. */
module SerdesOscillator {
  import opened Words
  import opened OscillatorProgram

  const FREEZE: byte := 0x89
  const NEW_FREQUENCY: byte := 0x87

  /** The word six bytes make, most significant first. */
  function Word(a: byte, b: byte, c: byte, d: byte, e: byte, f: byte): Program {
    a as int * 0x100_0000_0000 + b as int * 0x1_0000_0000 + c as int * 0x100_0000
    + d as int * 0x1_0000 + e as int * 0x100 + f
  }

  lemma WordOfBytes(p: Program)
    ensures Word(p / 0x100_0000_0000 % 256, p / 0x1_0000_0000 % 256, p / 0x100_0000 % 256,
                 p / 0x1_0000 % 256, p / 0x100 % 256, p % 256) == p
  {
    hide Word;
    DivideTwice(p, 0x100, 0x100);
    DivideTwice(p, 0x1_0000, 0x100);
    DivideTwice(p, 0x100_0000, 0x100);
    DivideTwice(p, 0x1_0000_0000, 0x100);
    ByteByByte(p, p / 0x100, p / 0x1_0000, p / 0x100_0000, p / 0x1_0000_0000, p / 0x100_0000_0000);
  }

  lemma ByteByByte(p: Program, p1: nat, p2: nat, p3: nat, p4: nat, p5: nat)
    requires p1 == p / 256 && p2 == p1 / 256 && p3 == p2 / 256 && p4 == p3 / 256 && p5 == p4 / 256
    ensures Word(p5 % 256, p4 % 256, p3 % 256, p2 % 256, p1 % 256, p % 256) == p
  {
  }

  /** The device answers a read with what was last written, 0 before that. */
  class CfoRegisters {
    var iic: map<byte, byte>
    var frequency: u32
    /** Everything written to the interface, in order. */
    ghost var writes: seq<(byte, byte)>

    function At(address: byte): byte
      reads this`iic
    {
      if address in iic then iic[address] else 0
    }

    function CurrentProgram(): Program
      reads this`iic
    {
      Word(At(7), At(8), At(9), At(10), At(11), At(12))
    }

    constructor ()
      ensures iic == map[] && frequency == 0 && writes == []
    {
      iic, frequency, writes := map[], 0, [];
    }

    method WriteSERDESIICInterface(address: byte, data: byte)
      modifies this`iic, this`writes
      ensures iic == old(iic)[address := data] && writes == old(writes) + [(address, data)]
    {
      iic, writes := iic[address := data], writes + [(address, data)];
    }

    method ReadSERDESIICInterface(address: byte) returns (data: byte)
      ensures data == At(address)
    {
      data := At(address);
    }

    method ReadSERDESOscillatorParameters() returns (data: Program)
      ensures data == CurrentProgram()
    {
      var b7 := ReadSERDESIICInterface(7);
      var b8 := ReadSERDESIICInterface(8);
      var b9 := ReadSERDESIICInterface(9);
      var b10 := ReadSERDESIICInterface(10);
      var b11 := ReadSERDESIICInterface(11);
      var b12 := ReadSERDESIICInterface(12);
      data := b7 as int * 0x100_0000_0000 + b8 as int * 0x1_0000_0000 + b9 as int * 0x100_0000
              + b10 as int * 0x1_0000 + b11 as int * 0x100 + b12;
    }

    /** Reading back gives the program; the oscillator is frozen meanwhile and told of the new frequency after. */
    method SetSERDESOscillatorParameters(program: Program)
      modifies this`iic, this`writes
      ensures writes == old(writes)
                        + [(0x89, 0x10)]
                        + [(7, program / 0x100_0000_0000 % 256), (8, program / 0x1_0000_0000 % 256),
                           (9, program / 0x100_0000 % 256), (10, program / 0x1_0000 % 256),
                           (11, program / 0x100 % 256), (12, program % 256)]
                        + [(0x89, 0), (0x87, 0x40)]
      ensures CurrentProgram() == program
      ensures At(FREEZE) == 0 && At(NEW_FREQUENCY) == 0x40
      ensures iic.Keys == old(iic).Keys + {7, 8, 9, 10, 11, 12, FREEZE, NEW_FREQUENCY}
      ensures forall a | a in old(iic) && !(7 <= a <= 12) && a != FREEZE && a != NEW_FREQUENCY :: iic[a] == old(iic)[a]
    {
      WordOfBytes(program);
      hide Word;
      WriteSERDESIICInterface(FREEZE, 0x10);
      WriteProgram(program / 0x100_0000_0000 % 256, program / 0x1_0000_0000 % 256, program / 0x100_0000 % 256,
                   program / 0x1_0000 % 256, program / 0x100 % 256, program % 256);
      WriteSERDESIICInterface(FREEZE, 0);
      WriteSERDESIICInterface(NEW_FREQUENCY, 0x40);
    }

    method WriteProgram(b7: byte, b8: byte, b9: byte, b10: byte, b11: byte, b12: byte)
      modifies this`iic, this`writes
      ensures writes == old(writes) + [(7, b7), (8, b8), (9, b9), (10, b10), (11, b11), (12, b12)]
      ensures CurrentProgram() == Word(b7, b8, b9, b10, b11, b12)
      ensures iic == old(iic)[7 := b7][8 := b8][9 := b9][10 := b10][11 := b11][12 := b12]
    {
      hide Word;
      WriteSERDESIICInterface(7, b7);
      WriteSERDESIICInterface(8, b8);
      WriteSERDESIICInterface(9, b9);
      WriteSERDESIICInterface(10, b10);
      WriteSERDESIICInterface(11, b11);
      WriteSERDESIICInterface(12, b12);
    }

    /** Nothing to do within 30 ppm of the present frequency; otherwise a new program, if there is one. */
    method SetNewOscillatorFrequency(targetFrequency: real) returns (changed: bool)
      requires frequency > 0 && RfreqOf(CurrentProgram()) != 0.0
      requires 0.0 <= targetFrequency < 0x1_0000_0000 as real         // it is stored in a 32-bit register
      modifies this
      ensures var off := old(frequency) as real - targetFrequency;
              changed <==> (off >= targetFrequency * 0.00003 || off <= -targetFrequency * 0.00003)
                           && !old(Computes(targetFrequency, frequency as real, CurrentProgram(), 0))
      ensures if changed then
                && Computes(targetFrequency, old(frequency) as real, old(CurrentProgram()), CurrentProgram())
                && frequency == targetFrequency.Floor
              else
                iic == old(iic) && frequency == old(frequency)
    {
      hide RfreqOf, Computes, Word;
      var currentProgram := ReadSERDESOscillatorParameters();
      if Near(frequency, targetFrequency) { return false; }
      var newParameters := CalculateFrequencyForProgramming(targetFrequency, frequency as real, currentProgram);
      if newParameters == 0 { return false; }
      if Computes(targetFrequency, frequency as real, currentProgram, 0) {
        ComputesOnce(targetFrequency, frequency as real, currentProgram, newParameters, 0);
      }
      SetSERDESOscillatorParameters(newParameters);
      frequency := targetFrequency.Floor;
      changed := true;
    }
  }

  predicate Near(frequency: u32, targetFrequency: real) {
    var d := frequency as real - targetFrequency;
    (if d < 0.0 then -d else d) < targetFrequency * 30.0 / 1000000.0
  }
}
