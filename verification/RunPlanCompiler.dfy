/** The compiler class itself: CfoCompiler with its fields, updated in place line by line.

    Files are lists of lines (as fgets delivers them, so none is empty); the text of messages and the
    listing's hexadecimal columns are left out. */
module RunPlanCompiler {
  import opened Words
  import opened Outcomes
  import opened RunPlan
  import opened RunPlanText
  import ModeBits
  import Numbers
  import Tokenizer
  import opened LoopNesting
  import opened RowFormat

  /** The opcode written for an instruction. */
  function Lowered(i: Instr): Instr {
    if i == LABEL then NOOP else if i == CLEAR_MODE_BITS then AND_MODE_BITS else i
  }

  /** The rows written for an instruction with its parameter and clear mask. */
  function RowsFor(i: Instr, param: u64, clearMask: u64): seq<Row> {
    if i == SET_MODE_BITS || i == SET_MODE then [MakeRow(AND_MODE_BITS, clearMask), MakeRow(OR_MODE_BITS, param)]
    else [MakeRow(Lowered(i), param)]
  }

  /** `r` is the parameter of what was read, given the state the operation leaves behind. */
  ghost predicate IsParameter(i: Instr, op: Result<SourceOp, Error>, before: State, r: Result<u64, Error>,
                              loopStack: seq<nat>, labels: map<string, nat>, clearMask: u64)
  {
    match op
    case Err(e) => r == Err(e)
    case Ok(op) =>
      match Step(op, before)
      case Err(e) => r == Err(e)
      case Ok(st) =>
        && r.Ok? && loopStack == st.loopStack && labels == st.labels
        && st.rows == before.rows + RowsFor(i, r.value, clearMask)
  }

  method ReadNumberInto(s: string, modulus: nat) returns (r: Result<nat, Error>)
    requires modulus == TWO16 || modulus == TWO64
    ensures r == ReadNumber(s, modulus)
    ensures r.Ok? ==> r.value < modulus
  {
    hide Numbers.NumberOf;
    var n := Numbers.GetNumber(s, modulus);
    match n
    case Value(v) => r := Ok(v);
    case NotANumber => r := Err(NotANumber);
    case UnknownOperator => r := Err(UnknownOperator);
    case DivisionByZero => r := Err(DivisionByZero);
  }

  class CfoCompiler {
    var loopStack: seq<nat>
    var labelMap: map<string, nat>
    var modeClearMask: u64
    var hasRequiredPlanEndOp: bool
    var opArguments: seq<string>
    var txtLineNumber: nat
    var binLineNumber: nat
    var output: seq<byte>
    ghost var rows: seq<Row>
    const waitTicks: Ticks

    constructor (waitTicks: Ticks)
      ensures Valid() && this.waitTicks == waitTicks && Compiled() == START
    {
      this.waitTicks := waitTicks;
      loopStack, labelMap, modeClearMask, hasRequiredPlanEndOp := [], map[], 0, false;
      opArguments, txtLineNumber, binLineNumber, output, rows := [], 0, 0, [], [];
    }

    /** The output is a whole number of rows. */
    ghost predicate Valid()
      reads this
    {
      output == EncodeRows(rows)
    }

    ghost function Compiled(): State
      reads this
    {
      State(loopStack, labelMap, hasRequiredPlanEndOp, rows)
    }

    /** Writes the six low bytes of the parameter, least significant first. */
    method OutParameter(paramBuf: u64)
      modifies this`output
      ensures output == old(output) + LittleEndian(paramBuf % TWO48, 6)
    {
      var left: nat := paramBuf % TWO48;
      for i := 0 to 6
        invariant output + LittleEndian(left, 6 - i) == old(output) + LittleEndian(paramBuf % TWO48, 6)
      {
        ghost var rest := LittleEndian(left / 256, 5 - i);
        assert LittleEndian(left, 6 - i) == [left % 256] + rest;
        assert output + ([left % 256] + rest) == (output + [left % 256]) + rest;
        output := output + [left % 256];
        left := left / 256;
      }
      assert output + [] == output;
    }

    /** One row: parameter, zero byte, opcode. */
    method OutRow(op: Instr, param: u64)
      requires Valid()
      modifies this`output, this`rows
      ensures Valid() && rows == old(rows) + [MakeRow(op, param)]
    {
      OutParameter(param);
      output := output + [0];
      output := output + [op.Code()];
      rows := rows + [MakeRow(op, param)];
      assert output == old(output) + EncodeRow(MakeRow(op, param));
      assert rows[..|rows| - 1] == old(rows);
    }

    /** The start and length of a bit window, with their range checks. */
    method WindowArguments() returns (r: Result<Window, Error>)
      requires |opArguments| >= 5
      ensures r == ReadWindow(opArguments[2], opArguments[4])
    {
      hide ReadNumber;
      var start := ReadNumberInto(opArguments[2], TWO16);
      if start.Err? { return Err(start.error); }
      if start.value > 47 { return Err(OutOfRange); }
      var count := ReadNumberInto(opArguments[4], TWO16);
      if count.Err? { return Err(count.error); }
      if start.value + count.value > 48 || count.value == 0 { return Err(OutOfRange); }
      r := Ok(BitWindow(start.value, count.value));
    }

    /** The mask built bit by bit. */
    method BuildMask(w: Window) returns (bitmask: u64)
      ensures bitmask == WindowMask(w)
    {
      bitmask := 0;
      for i := w.start to w.start + w.count
        invariant bitmask == Mask(w.start, i - w.start)
      {
        hide Or, Shl64, Mask;
        ModeBits.MaskStep(w.start, i - w.start);
        bitmask := Or(bitmask, Shl64(1, i));
      }
    }

    /** The arguments of the window operations that carry a value. */
    method WindowValueArguments() returns (r: Result<(Window, u64), Error>)
      requires forall k | 0 <= k < |opArguments| :: opArguments[k] != ""
      ensures r == ReadWindowValue(opArguments)
    {
      hide ReadNumber, ReadWindow;
      if |opArguments| != 7 || opArguments[1] != "start_bit" || opArguments[3] != "bit_count" ||
         opArguments[5] != "value"
      {
        return Err(BadArguments);
      }
      var window := WindowArguments();
      if window.Err? { return Err(window.error); }
      var value := ReadNumberInto(opArguments[6], TWO64);
      if value.Err? { return Err(value.error); }
      if value.value >= Pow2(window.value.count) && opArguments[6][0] != '~' { return Err(OutOfRange); }
      r := Ok((window.value, value.value));
    }

    /** The operations on a window of mode bits: build the mask, shift, then mask. */
    method BitsParameter(i: Instr) returns (r: Result<u64, Error>)
      requires i in {SET_MODE_BITS, AND_MODE_BITS, OR_MODE_BITS, CLEAR_MODE_BITS}
      requires forall k | 0 <= k < |opArguments| :: opArguments[k] != ""
      modifies this`modeClearMask
      ensures IsParameter(i, ReadBits(i, opArguments), old(Compiled()), r, loopStack, labelMap, modeClearMask)
    {
      hide ReadWindowValue, ReadWindow, And, Or, Shl64, WindowMask;
      if i == CLEAR_MODE_BITS {
        if |opArguments| != 5 || opArguments[1] != "start_bit" || opArguments[3] != "bit_count" {
          return Err(BadArguments);
        }
        var window := WindowArguments();
        if window.Err? { return Err(window.error); }
        var bitmask := BuildMask(window.value);
        return Ok(Not64(bitmask));
      }
      var arguments := WindowValueArguments();
      if arguments.Err? { return Err(arguments.error); }
      var (window, value) := arguments.value;
      var bitmask := BuildMask(window);
      var shifted := Shl64(value, window.start);
      if i == SET_MODE_BITS {
        modeClearMask := Not64(bitmask);
        r := Ok(And(shifted, bitmask));
      } else if i == AND_MODE_BITS {
        OrFits(shifted, Not64(bitmask));
        r := Ok(Or(shifted, Not64(bitmask)));
      } else {
        r := Ok(And(shifted, bitmask));
      }
    }

    /** WAIT, with its units. */
    method WaitParameter() returns (r: Result<u64, Error>)
      ensures match ReadWait(opArguments, waitTicks)
              case Err(e) => r == Err(e)
              case Ok(o) => r == Ok(OperandParam(o))
    {
      hide ReadNumber;
      if |opArguments| != 3 || opArguments[2] !in WAIT_UNITS || (opArguments[1] != "NEXT" && opArguments[2] == "RF0") {
        return Err(BadArguments);
      }
      if opArguments[1] == "NEXT" { return Ok(ALL_ONES); }
      var value := ReadNumberInto(opArguments[1], TWO64);
      if value.Err? { return Err(value.error); }
      if opArguments[2] in {"s", "ms", "us"} {
        r := Ok(waitTicks(opArguments[1], opArguments[2]));
      } else if opArguments[2] == "ns" {
        if value.value % FPGA_CLOCK != 0 { return Err(OutOfRange); }
        r := Ok(value.value / FPGA_CLOCK);
      } else {
        r := Ok(value.value);
      }
    }

    method NumberArgument(s: string) returns (r: Result<u64, Error>)
      ensures r == ReadU64(s)
    {
      hide ReadNumber;
      var value := ReadNumberInto(s, TWO64);
      if value.Err? { return Err(value.error); }
      r := Ok(value.value);
    }

    /** An argument that may be a keyword, standing for all ones. */
    method OperandArgument(s: string, keyword: string) returns (r: Result<u64, Error>)
      ensures match ReadOperand(s, keyword)
              case Err(e) => r == Err(e)
              case Ok(o) => r == Ok(OperandParam(o))
    {
      hide ReadNumber;
      if s == keyword { return Ok(ALL_ONES); }
      var value := ReadNumberInto(s, TWO64);
      if value.Err? { return Err(value.error); }
      r := Ok(value.value);
    }

    /** LOOP remembers its row; DO_LOOP takes the innermost open LOOP and counts the rows back to it. */
    method LoopParameter(i: Instr) returns (r: Result<u64, Error>)
      requires i in {LOOP, DO_LOOP} && opArguments != [] && binLineNumber == 1 + |rows|
      modifies this`loopStack
      ensures IsParameter(i, ReadFlow(i, opArguments), old(Compiled()), r, loopStack, labelMap, modeClearMask)
    {
      hide ReadNumber, PlainRows;
      if i == LOOP {
        if |opArguments| != 2 { return Err(BadArguments); }
        var value := ReadNumberInto(opArguments[1], TWO64);
        if value.Err? { return Err(value.error); }
        loopStack := loopStack + [binLineNumber];
        r := Ok(value.value);
      } else {
        if |opArguments| != 1 { return Err(BadArguments); }
        if loopStack == [] { return Err(UnmatchedDoLoop); }
        var loopLine := loopStack[|loopStack| - 1];
        loopStack := loopStack[..|loopStack| - 1];
        r := Ok((binLineNumber - loopLine) % TWO64);
      }
    }

    /** REPEAT, END, GOTO and LABEL need all loops closed; the only label is MAIN. */
    method ClosedParameter(i: Instr) returns (r: Result<u64, Error>)
      requires i in {REPEAT, END, GOTO, LABEL} && opArguments != [] && binLineNumber == 1 + |rows|
      modifies this`labelMap, this`opArguments
      ensures IsParameter(i, ReadFlow(i, old(opArguments)), old(Compiled()), r, loopStack, labelMap, modeClearMask)
    {
      if |opArguments| != 1 { return Err(BadArguments); }
      if loopStack != [] { return Err(OpenLoop); }
      if i == REPEAT || i == END { return Ok(0); }
      opArguments := opArguments + [MAIN_GOTO_LABEL];
      opArguments := opArguments[1 := MAIN_GOTO_LABEL];
      var name := opArguments[1];
      assert name == MAIN_GOTO_LABEL;
      if i == GOTO {
        if name !in labelMap { return Err(MissingLabel); }
        assert labelMap[name] % TWO64 % TWO48 == labelMap[name] % TWO48;
        r := Ok(labelMap[name] % TWO64);
      } else {
        if name in labelMap { return Err(DuplicateLabel); }
        labelMap := labelMap[name := binLineNumber];
        r := Ok(1);
      }
    }

    /** The operations with one number, or none. */
    method SimpleParameter(i: Instr) returns (r: Result<u64, Error>)
      requires i in {HEARTBEAT, MARKER, DATA_REQUEST, SET_TAG, INC_TAG, SET_MODE} && modeClearMask == 0
      ensures IsParameter(i, ReadSimple(i, opArguments), Compiled(), r, loopStack, labelMap, modeClearMask)
    {
      hide ReadNumber, ReadOperand;
      var opArgCount := |opArguments|;
      if i == HEARTBEAT {
        if opArgCount != 3 || opArguments[1] != "event_mode" { return Err(BadArguments); }
        r := OperandArgument(opArguments[2], "registered");
      } else if i == MARKER {
        if opArgCount != 1 { return Err(BadArguments); }
        r := Ok(0);
      } else if i == DATA_REQUEST {
        if opArgCount != 3 || opArguments[1] != "request_tag" { return Err(BadArguments); }
        r := OperandArgument(opArguments[2], "current");
      } else if i == INC_TAG {
        if opArgCount == 1 { return Ok(1); }
        if opArgCount != 3 || opArguments[1] != "add_value" { return Err(BadArguments); }
        r := NumberArgument(opArguments[2]);
      } else {
        if opArgCount != 2 { return Err(BadArguments); }
        r := NumberArgument(opArguments[1]);
      }
    }

    /** The primary switch: the parameter of an instruction, after its checks. */
    method CalculateParameterAndErrorCheck(i: Instr) returns (r: Result<u64, Error>)
      requires opArguments != [] && forall k | 0 <= k < |opArguments| :: opArguments[k] != ""
      requires i == ParseInstruction(opArguments[0])
      requires binLineNumber == 1 + |rows|
      modifies this`loopStack, this`labelMap, this`modeClearMask, this`opArguments
      ensures IsParameter(i, ReadOp(old(opArguments), waitTicks), old(Compiled()), r,
                          loopStack, labelMap, modeClearMask)
    {
      hide ReadSimple, ReadFlow, ReadBits, ReadWait, ParseInstruction;
      modeClearMask := 0;
      match i
      case HEARTBEAT | MARKER | DATA_REQUEST | SET_TAG | INC_TAG | SET_MODE => r := SimpleParameter(i);
      case WAIT => r := WaitParameter();
      case SET_MODE_BITS | AND_MODE_BITS | OR_MODE_BITS | CLEAR_MODE_BITS => r := BitsParameter(i);
      case LOOP | DO_LOOP => r := LoopParameter(i);
      case REPEAT | END | GOTO | LABEL => r := ClosedParameter(i);
      case _ => r := Err(InvalidInstruction);
    }

    /** Translates the current arguments and appends their rows. */
    method ProcessOp() returns (r: Result<(), Error>)
      requires Valid() && opArguments != [] && forall k | 0 <= k < |opArguments| :: opArguments[k] != ""
      modifies this`loopStack, this`labelMap, this`modeClearMask, this`opArguments, this`hasRequiredPlanEndOp,
               this`binLineNumber, this`output, this`rows
      ensures Valid()
      ensures match ReadOp(old(opArguments), waitTicks)
              case Err(e) => r == Err(e)
              case Ok(op) =>
                match Step(op, old(Compiled()))
                case Err(e) => r == Err(e)
                case Ok(st) => r == Ok(()) && Compiled() == st
    {
      hide ReadOp, PlainRows, ParseInstruction;
      binLineNumber := 1 + |output| / 8;
      var i := ParseInstruction(opArguments[0]);
      EndOfOp(opArguments, waitTicks, Compiled());
      if i == INVALID { return Err(InvalidInstruction); }
      var parameterCalc := CalculateParameterAndErrorCheck(i);
      if parameterCalc.Err? { return Err(parameterCalc.error); }
      ghost var before := rows;
      if i == SET_MODE_BITS || i == SET_MODE {
        OutRow(AND_MODE_BITS, modeClearMask);
        OutRow(OR_MODE_BITS, parameterCalc.value);
        assert rows == before + RowsFor(i, parameterCalc.value, modeClearMask);
      } else {
        if i == REPEAT || i == END || i == GOTO { hasRequiredPlanEndOp := true; }
        OutRow(Lowered(i), parameterCalc.value);
      }
      r := Ok(());
    }

    /** The comment test, character by character. */
    method IsCommentLine(line: string) returns (r: Result<bool, Error>)
      requires line != ""
      ensures r == IsComment(line, 0)
    {
      var i := 0;
      while i < |line| - 1
        invariant 0 <= i <= |line| - 1
        invariant IsComment(line, i) == IsComment(line, 0)
      {
        if IsBlank(line[i]) {
          i := i + 1;
          continue;
        }
        if line[i] != '/' { return Ok(false); }
        if line[i + 1] != '/' { return Err(SingleSlash); }
        return Ok(true);
      }
      r := Ok(true);
    }

    /** Cleaning keeps, drops or stops at one element. */
    static lemma CleanOne(kept: seq<string>, left: seq<string>)
      requires left != []
      ensures Clean([]) == []
      ensures kept + Clean(left)
              == if left[0] == "" then kept + Clean(left[1..])
                 else if |left[0]| >= 2 && left[0][..2] == "//" then kept
                 else kept + [left[0]] + Clean(left[1..])
    {
      StartsWithSlashes(left[0]);
      assert kept + [] == kept;
      if left[0] != "" && !("//" <= left[0]) {
        assert Clean(left) == [left[0]] + Clean(left[1..]);
        assert kept + ([left[0]] + Clean(left[1..])) == kept + [left[0]] + Clean(left[1..]);
      }
    }

    static lemma StartsWithSlashes(s: string)
      ensures "//" <= s <==> |s| >= 2 && s[..2] == "//"
    {
    }

    /** Splits the line into arguments and drops empty ones and comments in place. */
    method ReadArguments(line: string)
      modifies this`opArguments
      ensures opArguments == Arguments(line)
    {
      var tokens, _ := Tokenizer.GetVectorFromString(line, ARGUMENT_DELIMITERS, LINE_ENDS);
      assert ARGUMENT_DELIMITERS - LINE_ENDS == ARGUMENT_DELIMITERS;
      opArguments := tokens;
      CleanArguments();
    }

    /** The loop that drops empty elements, and everything from a comment on. */
    method CleanArguments()
      modifies this`opArguments
      ensures opArguments == Clean(old(opArguments))
    {
      ghost var tokens := opArguments;
      var i := 0;
      while i < |opArguments|
        invariant 0 <= i <= |opArguments|
        invariant opArguments[..i] + Clean(opArguments[i..]) == Clean(tokens)
        decreases |opArguments| - i
      {
        ghost var kept, left := opArguments[..i], opArguments[i..];
        assert left[0] == opArguments[i] && left[1..] == opArguments[i + 1..];
        CleanOne(kept, left);
        hide Clean;
        if opArguments[i] == "" {
          opArguments := opArguments[..i] + opArguments[i + 1..];
          assert opArguments[..i] == kept && opArguments[i..] == left[1..];
        } else if |opArguments[i]| >= 2 && opArguments[i][..2] == "//" {
          opArguments := opArguments[..i];
          assert opArguments[i..] == [] && opArguments[..i] + [] == kept;
        } else {
          assert kept + [left[0]] == opArguments[..i + 1];
          i := i + 1;
        }
      }
      assert opArguments[..i] + [] == opArguments;
    }

    /** One line of the file. */
    method ProcessLine(line: string) returns (r: Result<(), Error>)
      requires Valid() && line != ""
      modifies this
      ensures Valid()
      ensures match LineOp(line, waitTicks)
              case Err(e) => r == Err(e)
              case Ok(None) => r == Ok(()) && Compiled() == old(Compiled())
              case Ok(Some(op)) =>
                match Step(op, old(Compiled()))
                case Err(e) => r == Err(e)
                case Ok(st) => r == Ok(()) && Compiled() == st
    {
      hide IsComment, Arguments, ReadOp, Step;
      txtLineNumber := txtLineNumber + 1;
      var comment := IsCommentLine(line);
      if comment.Err? { return Err(comment.error); }
      if comment.value { return Ok(()); }
      ReadArguments(line);
      if opArguments == [] { return Ok(()); }
      r := ProcessOp();
    }

    /** Compiles a file: the binary and the listing, or the first error. */
    method ProcessFile(lines: seq<string>) returns (r: Result<(seq<byte>, seq<ListingLine>), Error>)
      requires forall k | 0 <= k < |lines| :: lines[k] != ""
      modifies this
      ensures Valid()
      ensures match CompileText(lines, waitTicks)
              case Err(e) => r == Err(e)
              case Ok(st) =>
                if !st.ended then r == Err(MissingEnd)
                else
                  && ClosedAtControl(st.rows) && MachineOpcodes(st.rows)
                  && r == Ok((EncodeRows(st.rows), Listing(st.rows, |st.rows|)))
    {
      hide LineOp, Step, EncodeRows, Listing;
      txtLineNumber, binLineNumber, hasRequiredPlanEndOp := 0, 0, false;
      loopStack, labelMap := [], map[];
      output, rows := [], [];
      NothingEncoded();
      for k := 0 to |lines|
        invariant Valid()
        invariant CompileText(lines[..k], waitTicks) == Ok(Compiled())
      {
        CompileOneMore(lines, k, waitTicks);
        var ok := ProcessLine(lines[k]);
        if ok.Err? {
          ErrorStays(lines, k + 1, waitTicks);
          return Err(ok.error);
        }
      }
      assert lines[..|lines|] == lines;
      if !hasRequiredPlanEndOp { return Err(MissingEnd); }
      TextIsOps(lines, waitTicks);
      AcceptedPlansAreWellFormed(SourceOps(lines, waitTicks).value);
      var listing := ListRows(output, rows);
      r := Ok((output, listing.value));
    }
  }

  lemma OrFits(x: u64, y: u64)
    ensures Or(x, y) < TWO64
  {
    Pow2Constants();
    OrBounded(x, y, 64);
  }

  /** The end flag follows the instruction. */
  lemma EndOfOp(args: seq<string>, ticks: Ticks, st: State)
    requires args != [] && forall k | 0 <= k < |args| :: args[k] != ""
    ensures var i := ParseInstruction(args[0]);
            var r := ReadOp(args, ticks);
            && (i == INVALID ==> r == Err(InvalidInstruction))
            && (r.Ok? && Step(r.value, st).Ok? ==>
                  Step(r.value, st).value.ended == (st.ended || i == REPEAT || i == END || i == GOTO))
  {
    hide ReadNumber, ReadWait, ReadOperand, ReadWindow, ReadWindowValue, PlainRows, ParseInstruction;
  }

  lemma NothingEncoded()
    ensures EncodeRows([]) == []
  {
  }

  lemma CompileOneMore(lines: seq<string>, k: nat, ticks: Ticks)
    requires k < |lines| && CompileText(lines[..k], ticks).Ok?
    ensures CompileText(lines[..k + 1], ticks) ==
            match LineOp(lines[k], ticks)
            case Err(e) => Err(e)
            case Ok(None) => CompileText(lines[..k], ticks)
            case Ok(Some(op)) => Step(op, CompileText(lines[..k], ticks).value)
  {
    assert lines[..k + 1][..k] == lines[..k];
  }

  /** The first error is the result. */
  lemma {:induction false} ErrorStays(lines: seq<string>, k: nat, ticks: Ticks)
    requires k <= |lines| && CompileText(lines[..k], ticks).Err?
    ensures CompileText(lines, ticks) == CompileText(lines[..k], ticks)
    decreases |lines|
  {
    if k == |lines| {
      assert lines[..k] == lines;
    } else {
      var front := lines[..|lines| - 1];
      assert front[..k] == lines[..k];
      ErrorStays(front, k, ticks);
    }
  }
}
