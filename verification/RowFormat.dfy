/** The binary format: rows can be read back, and the listing of a compiled plan always succeeds. */
module RowFormat {
  import opened Words
  import opened Outcomes
  import opened RunPlan
  import opened LoopNesting

  // ----- Reading rows back -----

  /** The instruction of an opcode byte. */
  function InstrOf(code: byte): Instr {
    match code
    case 0 => NOOP
    case 1 => HEARTBEAT
    case 2 => DATA_REQUEST
    case 3 => SET_TAG
    case 4 => INC_TAG
    case 5 => WAIT
    case 6 => LOOP
    case 7 => DO_LOOP
    case 8 => REPEAT
    case 9 => END
    case 10 => MARKER
    case 11 => GOTO
    case 12 => LABEL
    case 100 => CLEAR_MODE_BITS
    case 101 => SET_MODE_BITS
    case 102 => AND_MODE_BITS
    case 103 => OR_MODE_BITS
    case 200 => SET_MODE
    case _ => INVALID
  }

  function DecodeRow(b: seq<byte>): Row
    requires |b| == 8
  {
    Row(InstrOf(b[7]), FromLittleEndian(b[..6]))
  }

  function DecodeRows(b: seq<byte>): seq<Row>
    requires |b| % 8 == 0
  {
    if b == [] then [] else DecodeRows(b[..|b| - 8]) + [DecodeRow(b[|b| - 8..])]
  }

  lemma DecodeOneRow(r: Row)
    requires r.param < TWO48
    ensures DecodeRow(EncodeRow(r)) == r
  {
    var low := LittleEndian(r.param, 6);
    assert EncodeRow(r)[..6] == low && EncodeRow(r)[7] == r.op.Code();
    LittleEndianRoundTrip(r.param, 6);
    Pow2Constants();
    DivModUnique(r.param, TWO48, 0, r.param);
  }

  /** The bytes determine the rows: each opcode and each parameter below 2^48 comes back. */
  lemma {:induction false} DecodeEncode(rows: seq<Row>)
    requires Narrow(rows)
    ensures DecodeRows(EncodeRows(rows)) == rows
  {
    if rows != [] {
      var front, last := rows[..|rows| - 1], rows[|rows| - 1];
      DecodeEncode(front);
      DecodeOneRow(last);
      var b := EncodeRows(rows);
      assert b[..|b| - 8] == EncodeRows(front) && b[|b| - 8..] == EncodeRow(last);
      assert rows == front + [last];
    }
  }

  /** The opcodes as numbers. */
  lemma Opcodes()
    ensures NOOP.Code() == 0 && HEARTBEAT.Code() == 1 && DATA_REQUEST.Code() == 2 && SET_TAG.Code() == 3
    ensures INC_TAG.Code() == 4 && WAIT.Code() == 5 && LOOP.Code() == 6 && DO_LOOP.Code() == 7
    ensures REPEAT.Code() == 8 && END.Code() == 9 && MARKER.Code() == 10 && GOTO.Code() == 11 && LABEL.Code() == 12
    ensures CLEAR_MODE_BITS.Code() == 100 && SET_MODE_BITS.Code() == 101 && AND_MODE_BITS.Code() == 102
    ensures OR_MODE_BITS.Code() == 103 && SET_MODE.Code() == 200 && INVALID.Code() == 255
  {
  }

  /** The bytes of a plan: the tag 0x0102 set, and the end. */
  lemma PlanBytes()
    ensures var st := Compile([SetTag(0x0102), End], START);
            st.Ok? && EncodeRows(st.value.rows) == [2, 1, 0, 0, 0, 0, 0, 3, 0, 0, 0, 0, 0, 0, 0, 9]
  {
    hide Compile, EncodeRow, EncodeRows;
    RowBytes();
    SmallPlans();
    EncodeTwo(Row(SET_TAG, 0x0102), Row(END, 0));
  }

  /** And of the plan that is nothing but a repetition. */
  lemma RepeatBytes()
    ensures var st := Compile([Repeat], START);
            st.Ok? && EncodeRows(st.value.rows) == [0, 0, 0, 0, 0, 0, 0, 8]
  {
    hide Compile, EncodeRow, EncodeRows;
    RowBytes();
    SmallPlans();
    EncodeTwo(Row(REPEAT, 0), Row(REPEAT, 0));
  }

  lemma EncodeTwo(r: Row, s: Row)
    ensures EncodeRows([r]) == EncodeRow(r) && EncodeRows([r, s]) == EncodeRow(r) + EncodeRow(s)
  {
    hide EncodeRow;
    assert [r, s][..1] == [r] && [r][..0] == [];
    assert EncodeRows([r]) == [] + EncodeRow(r);
  }

  lemma SmallPlans()
    ensures Compile([SetTag(0x0102), End], START)
            == Ok(START.(ended := true, rows := [Row(SET_TAG, 0x0102), Row(END, 0)]))
    ensures Compile([Repeat], START) == Ok(START.(ended := true, rows := [Row(REPEAT, 0)]))
  {
    var a := SetTag(0x0102);
    assert [a, End][..1] == [a] && [a][..0] == [] && [Repeat][..0] == [];
    assert Compile([], START) == Ok(START);
    assert Compile([a], START) == Step(a, START);
    assert Compile([Repeat], START) == Step(Repeat, START);
    assert Compile([a, End], START) == Step(End, Step(a, START).value);
    hide Compile;
    assert Step(a, START).value.rows == [Row(SET_TAG, 0x0102)];
    assert Step(End, Step(a, START).value).value.rows == [Row(SET_TAG, 0x0102), Row(END, 0)];
    assert Step(Repeat, START).value.rows == [Row(REPEAT, 0)];
  }

  lemma RowBytes()
    ensures EncodeRow(Row(SET_TAG, 0x0102)) == [2, 1, 0, 0, 0, 0, 0, 3]
    ensures EncodeRow(Row(END, 0)) == [0, 0, 0, 0, 0, 0, 0, 9]
    ensures EncodeRow(Row(REPEAT, 0)) == [0, 0, 0, 0, 0, 0, 0, 8]
  {
    ZeroBytes();
    assert LittleEndian(0x0102, 6) == [2] + LittleEndian(1, 5);
  }

  lemma ZeroBytes()
    ensures LittleEndian(0, 6) == [0, 0, 0, 0, 0, 0]
    ensures LittleEndian(1, 5) == [1, 0, 0, 0, 0]
  {
    assert LittleEndian(0, 1) == [0];
    assert LittleEndian(0, 2) == [0, 0];
    assert LittleEndian(0, 3) == [0, 0, 0];
    assert LittleEndian(0, 4) == [0, 0, 0, 0];
    assert LittleEndian(0, 5) == [0, 0, 0, 0, 0];
  }

  /** Two-row operations. */
  function RowsOf(op: SourceOp): nat {
    if op.SetBits? || op.SetMode? then 2 else 1
  }

  function RowCount(ops: seq<SourceOp>): nat {
    if ops == [] then 0 else RowCount(ops[..|ops| - 1]) + RowsOf(ops[|ops| - 1])
  }

  /** One row an operation, and one more for each SET_MODE or SET_MODE_BITS. */
  lemma {:induction false} RowsAreCounted(ops: seq<SourceOp>, st: State)
    requires Compile(ops, st).Ok?
    ensures |Compile(ops, st).value.rows| == |st.rows| + RowCount(ops)
  {
    if ops != [] {
      RowsAreCounted(ops[..|ops| - 1], st);
    }
  }

  // ----- The listing pass -----

  const CODE_TO_OP: map<Instr, string> := map[
    HEARTBEAT := "HEARTBEAT", MARKER := "MARKER", DATA_REQUEST := "DATA_REQUEST", SET_TAG := "SET_TAG",
    INC_TAG := "INC_TAG", LOOP := "LOOP", DO_LOOP := "DO_LOOP", REPEAT := "REPEAT", WAIT := "WAIT", END := "END",
    GOTO := "GOTO_LABEL", LABEL := "LABEL", NOOP := "LABEL", CLEAR_MODE_BITS := "CLEAR_MODE_BITS",
    SET_MODE_BITS := "SET_MODE_BITS", AND_MODE_BITS := "AND_MODE_BITS", OR_MODE_BITS := "OR_MODE_BITS",
    SET_MODE := "SET_MODE"]

  lemma EveryInstrHasName(i: Instr)
    requires i != INVALID
    ensures i in CODE_TO_OP
  {
  }

  /** The name listed for an opcode is the one that is read as it; a row of opcode 0 is listed as a label. */
  lemma NamesAreRead(i: Instr)
    requires i != INVALID
    ensures i in CODE_TO_OP && ParseInstruction(CODE_TO_OP[i]) == if i == NOOP then LABEL else i
  {
    if i in {HEARTBEAT, MARKER, DATA_REQUEST, SET_TAG, INC_TAG, LOOP, DO_LOOP, REPEAT, WAIT} {
      FirstNamesAreRead(i);
    } else {
      OtherNamesAreRead(i);
    }
    hide ParseInstruction;
  }

  lemma FirstNamesAreRead(i: Instr)
    requires i in {HEARTBEAT, MARKER, DATA_REQUEST, SET_TAG, INC_TAG, LOOP, DO_LOOP, REPEAT, WAIT}
    ensures i in CODE_TO_OP && ParseInstruction(CODE_TO_OP[i]) == i
  {
  }

  lemma OtherNamesAreRead(i: Instr)
    requires i != INVALID && i !in {HEARTBEAT, MARKER, DATA_REQUEST, SET_TAG, INC_TAG, LOOP, DO_LOOP, REPEAT, WAIT}
    ensures i in CODE_TO_OP && ParseInstruction(CODE_TO_OP[i]) == if i == NOOP then LABEL else i
  {
  }

  /** One line of the listing: how far it is indented, and the operation. */
  datatype ListingLine = ListingLine(tabs: nat, name: string)

  /** The listing of correctly nested rows: each row is indented by its depth. */
  function Listing(rows: seq<Row>, n: nat): seq<ListingLine>
    requires n <= |rows| && ClosedAtControl(rows) && MachineOpcodes(rows)
  {
    if n == 0 then []
    else
      EveryInstrHasName(rows[n - 1].op);
      Listing(rows, n - 1) + [ListingLine(Depth(rows, n - 1), CODE_TO_OP[rows[n - 1].op])]
  }

  lemma {:induction false} OpcodeByteAt(rows: seq<Row>, k: nat)
    requires k < |rows|
    ensures EncodeRows(rows)[8 * k + 7] == rows[k].op.Code()
  {
    var front := rows[..|rows| - 1];
    if k < |front| {
      OpcodeByteAt(front, k);
      assert EncodeRows(rows)[8 * k + 7] == EncodeRows(front)[8 * k + 7];
    } else {
      assert EncodeRows(rows)[8 * k + 7] == EncodeRow(rows[k])[7];
    }
  }

  /** Facts about one row of the listing. */
  lemma ListOne(rows: seq<Row>, k: nat)
    requires k < |rows| && ClosedAtControl(rows) && MachineOpcodes(rows)
    ensures var i := InstrOf(EncodeRows(rows)[8 * k + 7]);
            && i == rows[k].op && i in CODE_TO_OP
            && Depth(rows, k) >= 0
            && Depth(rows, k + 1) == Depth(rows, k) + (if i == LOOP then 1 else if i == DO_LOOP then -1 else 0) >= 0
            && Listing(rows, k + 1) == Listing(rows, k) + [ListingLine(Depth(rows, k), CODE_TO_OP[i])]
  {
    OpcodeByteAt(rows, k);
    EveryInstrHasName(rows[k].op);
  }

  /** The listing loop of processFile: byte by byte, an operation name at every eighth.  On the output of an
      accepted plan no opcode lacks a name, and the indentation is the nesting depth. */
  method ListRows(output: seq<byte>, ghost rows: seq<Row>) returns (r: Result<seq<ListingLine>, Error>)
    requires output == EncodeRows(rows)
    ensures ClosedAtControl(rows) && MachineOpcodes(rows) ==> r == Ok(Listing(rows, |rows|))
  {
    hide EncodeRows, InstrOf, Listing, Depth, ClosedAtControl, MachineOpcodes;
    var tabs: nat := 0;
    var lines := [];
    ghost var good := ClosedAtControl(rows) && MachineOpcodes(rows);
    if good { ListNone(rows); }
    for cnt := 0 to |output|
      invariant good ==> lines == Listing(rows, cnt / 8) && tabs == Depth(rows, cnt / 8)
    {
      var c := output[cnt];
      if cnt % 8 == 7 {
        ghost var k := cnt / 8;
        assert cnt == 8 * k + 7 && (cnt + 1) / 8 == k + 1;
        if good { ListOne(rows, k); }
        var i := InstrOf(c);
        if i !in CODE_TO_OP { return Err(UnknownOpcode); }
        lines := lines + [ListingLine(tabs, CODE_TO_OP[i])];
        if i == LOOP {
          tabs := tabs + 1;
        } else if i == DO_LOOP && tabs > 0 {
          tabs := tabs - 1;
        }
      } else {
        assert (cnt + 1) / 8 == cnt / 8;
      }
    }
    r := Ok(lines);
  }

  lemma ListNone(rows: seq<Row>)
    requires ClosedAtControl(rows) && MachineOpcodes(rows)
    ensures Listing(rows, 0) == [] && Depth(rows, 0) == 0
  {
  }
}
