/** Loading a compiled plan into the CFO: SetRunPlanData.

    The run-plan memory is reached through two registers: writing the address register sets a cell
    number, and every access to the data register moves on to the next cell. */
module RunPlanUpload {
  import opened Words
  import opened RunPlan

  const TWO32: nat := 0x1_0000_0000

  /** The 32-bit words of a byte string. */
  function WordAt(data: seq<byte>, l: nat): nat
    requires l + 4 <= |data|
  {
    FromLittleEndian(data[l..l + 4])
  }

  class RunPlanMemory {
    var address: nat
    var cells: map<nat, nat>

    constructor ()
      ensures cells == map[]
    {
      address, cells := 0, map[];
    }

    method WriteAddress(a: nat)
      modifies this`address
      ensures address == a
    {
      address := a;
    }

    method WriteData(v: nat)
      modifies this
      ensures cells == old(cells)[old(address) := v] && address == old(address) + 1
    {
      cells := cells[address := v];
      address := address + 1;
    }

    method ReadData() returns (v: nat)
      modifies this`address
      ensures v == (if old(address) in cells then cells[old(address)] else 0) && address == old(address) + 1
    {
      v := if address in cells then cells[address] else 0;
      address := address + 1;
    }
  }

  /** Writes the data word by word, then reads it all back and compares; `ok` is false where the original throws.  The
      cells from the base address on hold exactly the words, no other cell changes, and the comparison always
      succeeds.  When the size is no multiple of 4 the last word takes bytes that lie behind the data.  The counter has
      32 bits: with a larger size the loop would not end. */
  method SetRunPlanData(memory: RunPlanMemory, inputData: seq<byte>, base: nat, behind: seq<byte>) returns (ok: bool)
    requires |inputData| <= TWO32 - 4 && |behind| == 3
    modifies memory
    ensures ok
    ensures forall a: nat | base <= a < base + WordCount(inputData) ::
              a in memory.cells && memory.cells[a] == WordAt(inputData + behind, 4 * (a - base))
    ensures forall a: nat | !(base <= a < base + WordCount(inputData)) ::
              (a in memory.cells <==> a in old(memory.cells)) &&
              (a in memory.cells ==> memory.cells[a] == old(memory.cells)[a])
  {
    var data := inputData + behind;
    memory.WriteAddress(base);
    var l := 0;
    while l < |inputData|
      invariant l % 4 == 0 && l / 4 <= WordCount(inputData) && memory.address == base + l / 4
      invariant l < |inputData| <==> l / 4 < WordCount(inputData)
      invariant forall a: nat | base <= a < base + l / 4 ::
                  a in memory.cells && memory.cells[a] == WordAt(data, 4 * (a - base))
      invariant forall a: nat | !(base <= a < base + l / 4) ::
                  (a in memory.cells <==> a in old(memory.cells)) &&
                  (a in memory.cells ==> memory.cells[a] == old(memory.cells)[a])
      decreases |inputData| - l
    {
      assert l == 4 * (l / 4);
      memory.WriteData(WordAt(data, l));
      l := l + 4;
    }
    memory.WriteAddress(base);
    l := 0;
    ghost var written := memory.cells;
    while l < |inputData|
      invariant l % 4 == 0 && l / 4 <= WordCount(inputData) && memory.address == base + l / 4
      invariant memory.cells == written
      decreases |inputData| - l
    {
      assert base <= memory.address < base + WordCount(inputData);
      assert l == 4 * (l / 4);
      var val := memory.ReadData();
      if val != WordAt(data, l) { return false; }
      l := l + 4;
    }
    ok := true;
  }

  /** The number of words the data takes. */
  function WordCount(data: seq<byte>): nat { (|data| + 3) / 4 }

  /** A word inside the data does not depend on what lies behind it. */
  lemma WordInside(data: seq<byte>, behind: seq<byte>, l: nat)
    requires l + 4 <= |data|
    ensures WordAt(data + behind, l) == WordAt(data, l)
  {
    assert (data + behind)[l..l + 4] == data[l..l + 4];
  }

  /** Row k of an uploaded plan is the pair of words 2k and 2k + 1: the low half of the parameter, then its high
      half under the opcode. */
  lemma RowInMemory(rows: seq<Row>, k: nat)
    requires k < |rows| && Narrow(rows)
    ensures WordAt(EncodeRows(rows), 8 * k) == rows[k].param % TWO32
    ensures WordAt(EncodeRows(rows), 8 * k + 4) == rows[k].param / TWO32 + 0x1_0000 * (0x100 * rows[k].op.Code() as int)
  {
    hide EncodeRow, EncodeRows, FromLittleEndian;
    var all, row := EncodeRows(rows), EncodeRow(rows[k]);
    RowBytes(rows, k);
    RowHalves(rows[k]);
    assert all[8 * k..8 * k + 8][..4] == all[8 * k..8 * k + 4];
    assert all[8 * k..8 * k + 8][4..] == all[8 * k + 4..8 * k + 8];
  }

  lemma {:induction false} RowBytes(rows: seq<Row>, k: nat)
    requires k < |rows|
    ensures EncodeRows(rows)[8 * k..8 * k + 8] == EncodeRow(rows[k])
  {
    var front := rows[..|rows| - 1];
    var all := EncodeRows(front) + EncodeRow(rows[|rows| - 1]);
    if k < |front| {
      RowBytes(front, k);
      assert all[8 * k..8 * k + 8] == EncodeRows(front)[8 * k..8 * k + 8];
    } else {
      assert all[8 * k..8 * k + 8] == EncodeRow(rows[k]);
    }
  }

  lemma RowHalves(r: Row)
    requires r.param < TWO48
    ensures FromLittleEndian(EncodeRow(r)[..4]) == r.param % TWO32
    ensures FromLittleEndian(EncodeRow(r)[4..]) == r.param / TWO32 + 0x1_0000 * (0x100 * r.op.Code() as int)
  {
    hide LittleEndian, FromLittleEndian, Pow2;
    var low, high, code := LittleEndian(r.param, 4), LittleEndian(r.param / Pow2(32), 2), [0, r.op.Code()];
    Pow2Of32();
    LittleEndianSplit(r.param, 4, 2, r.param / Pow2(32));
    LittleEndianRoundTrip(r.param, 4);
    LittleEndianRoundTrip(r.param / TWO32, 2);
    DivModUnique(r.param / TWO32, 0x1_0000, 0, r.param / TWO32);
    FromLittleEndianAppend(high, code);
    TwoBytes(r.op.Code());
    assert EncodeRow(r)[..4] == low && EncodeRow(r)[4..] == high + code;
  }

  lemma Pow2Of32()
    ensures Pow2(32) == TWO32 && Pow2(16) == 0x1_0000
  {
    Pow2Constants();
    Pow2Add(16, 16);
  }

  lemma TwoBytes(d: byte)
    ensures FromLittleEndian([0, d]) == 0x100 * d as int
  {
    var b: seq<byte> := [0, d];
    assert b[1..] == [d] && b[1..][1..] == [];
    assert FromLittleEndian(b[1..]) == d as int + 256 * FromLittleEndian([]);
  }
}
