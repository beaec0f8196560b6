/** What a run plan is: source operations, compiled rows, and the translation of one into the other.

    A source line is first read on its own (ReadOp: names, argument counts and numbers); then it is
    translated in the context of what has been compiled already (Step: the loop stack, the label and
    the next row number).  The compiler class does both in one pass; these functions specify it. */
module RunPlan {
  import opened Words
  import opened Outcomes
  import Numbers

  const MAIN_GOTO_LABEL := "MAIN"
  const FPGA_CLOCK: nat := 25                      // ns per clock at 40 MHz
  const ALL_ONES: u64 := TWO64 - 1                 // the original's `return -1`

  /** The opcodes of CFO_INSTR. */
  datatype Instr =
    | NOOP | HEARTBEAT | MARKER | DATA_REQUEST | SET_TAG | INC_TAG | WAIT | LOOP | DO_LOOP | REPEAT | END
    | GOTO | LABEL | CLEAR_MODE_BITS | SET_MODE_BITS | AND_MODE_BITS | OR_MODE_BITS | SET_MODE | INVALID
  {
    function Code(): byte {
      match this
      case NOOP => 0
      case HEARTBEAT => 1
      case DATA_REQUEST => 2
      case SET_TAG => 3
      case INC_TAG => 4
      case WAIT => 5
      case LOOP => 6
      case DO_LOOP => 7
      case REPEAT => 8
      case END => 9
      case MARKER => 10
      case GOTO => 11
      case LABEL => 12
      case CLEAR_MODE_BITS => 100
      case SET_MODE_BITS => 101
      case AND_MODE_BITS => 102
      case OR_MODE_BITS => 103
      case SET_MODE => 200
      case INVALID => 255
    }
  }

  const OP_TO_CODE: map<string, Instr> := map[
    "HEARTBEAT" := HEARTBEAT, "MARKER" := MARKER, "DATA_REQUEST" := DATA_REQUEST, "SET_TAG" := SET_TAG,
    "INC_TAG" := INC_TAG, "LOOP" := LOOP, "DO_LOOP" := DO_LOOP, "REPEAT" := REPEAT, "WAIT" := WAIT, "END" := END,
    "GOTO_LABEL" := GOTO, "LABEL" := LABEL, "CLEAR_MODE_BITS" := CLEAR_MODE_BITS,
    "SET_MODE_BITS" := SET_MODE_BITS, "AND_MODE_BITS" := AND_MODE_BITS, "OR_MODE_BITS" := OR_MODE_BITS,
    "SET_MODE" := SET_MODE]

  function ParseInstruction(op: string): Instr {
    if op in OP_TO_CODE then OP_TO_CODE[op] else INVALID
  }

  /** An operand that is a keyword of the language (registered, current, NEXT) or a number. */
  datatype Operand = Keyword | Number(value: u64)

  /** Bits [start, start + count) of the 48-bit event mode. */
  datatype BitWindow = BitWindow(start: nat, count: nat)

  type Window = w: BitWindow | 0 < w.count && w.start <= 47 && w.start + w.count <= 48 witness BitWindow(0, 1)

  datatype SourceOp =
    | Heartbeat(mode: Operand)
    | Marker
    | DataRequest(tag: Operand)
    | SetTag(value: u64)
    | IncTag(value: u64)
    | Wait(time: Operand)
    | Loop(times: u64)
    | DoLoop
    | Repeat
    | End
    | Goto
    | Label
    | ClearBits(window: Window)
    | SetBits(window: Window, value: u64)
    | AndBits(window: Window, value: u64)
    | OrBits(window: Window, value: u64)
    | SetMode(value: u64)

  datatype Error =
    | InvalidInstruction | BadArguments | NotANumber | UnknownOperator | DivisionByZero | OutOfRange
    | UnmatchedDoLoop | OpenLoop | MissingLabel | DuplicateLabel | SingleSlash | MissingEnd | UnknownOpcode

  // ----- Reading one line's arguments -----

  /** WAIT times in s, ms or us go through floating point; the conversion is a parameter. */
  type Ticks = (string, string) -> u64

  function ReadNumber(s: string, modulus: nat): (r: Result<nat, Error>)
    requires modulus == TWO16 || modulus == TWO64
  {
    match Numbers.NumberOf(s, modulus)
    case Value(v) => Ok(v % modulus)
    case NotANumber => Err(NotANumber)
    case UnknownOperator => Err(UnknownOperator)
    case DivisionByZero => Err(DivisionByZero)
  }

  function ReadU64(s: string): Result<u64, Error> {
    ReadNumber(s, TWO64)
  }

  function ReadOperand(s: string, keyword: string): Result<Operand, Error> {
    if s == keyword then Ok(Keyword)
    else
      var v :- ReadU64(s);
      Ok(Number(v))
  }

  function ReadWindow(start: string, count: string): Result<Window, Error> {
    var s :- ReadNumber(start, TWO16);
    if s > 47 then Err(OutOfRange)
    else
      var c :- ReadNumber(count, TWO16);
      if s + c > 48 || c == 0 then Err(OutOfRange) else Ok(BitWindow(s, c))
  }

  function ReadWindowValue(args: seq<string>): Result<(Window, u64), Error>
    requires forall k | 0 <= k < |args| :: args[k] != ""
  {
    if |args| != 7 || args[1] != "start_bit" || args[3] != "bit_count" || args[5] != "value" then Err(BadArguments)
    else
      var w :- ReadWindow(args[2], args[4]);
      var v :- ReadU64(args[6]);
      if v >= Pow2(w.count) && args[6][0] != '~' then Err(OutOfRange) else Ok((w, v))
  }

  const WAIT_UNITS: set<string> := {"clocks", "ns", "s", "ms", "us", "RF0"}

  function ReadWait(args: seq<string>, ticks: Ticks): Result<Operand, Error> {
    if |args| != 3 || args[2] !in WAIT_UNITS || (args[1] != "NEXT" && args[2] == "RF0") then Err(BadArguments)
    else if args[1] == "NEXT" then Ok(Keyword)
    else
      var v :- ReadU64(args[1]);
      if args[2] in {"s", "ms", "us"} then Ok(Number(ticks(args[1], args[2])))
      else if args[2] == "clocks" then Ok(Number(v))
      else if v % FPGA_CLOCK != 0 then Err(OutOfRange)
      else Ok(Number(v / FPGA_CLOCK))
  }

  /** Operations with one number, or none. */
  function ReadSimple(i: Instr, args: seq<string>): Result<SourceOp, Error>
    requires i in {HEARTBEAT, MARKER, DATA_REQUEST, SET_TAG, INC_TAG, SET_MODE}
  {
    var n := |args|;
    if i == HEARTBEAT then
      if n != 3 || args[1] != "event_mode" then Err(BadArguments)
      else var o :- ReadOperand(args[2], "registered"); Ok(Heartbeat(o))
    else if i == MARKER then
      if n != 1 then Err(BadArguments) else Ok(Marker)
    else if i == DATA_REQUEST then
      if n != 3 || args[1] != "request_tag" then Err(BadArguments)
      else var o :- ReadOperand(args[2], "current"); Ok(DataRequest(o))
    else if i == INC_TAG then
      if n == 1 then Ok(IncTag(1))
      else if n != 3 || args[1] != "add_value" then Err(BadArguments)
      else var v :- ReadU64(args[2]); Ok(IncTag(v))
    else if n != 2 then Err(BadArguments)
    else var v :- ReadU64(args[1]); Ok(if i == SET_TAG then SetTag(v) else SetMode(v))
  }

  /** Operations on loops and labels. */
  function ReadFlow(i: Instr, args: seq<string>): Result<SourceOp, Error>
    requires i in {LOOP, DO_LOOP, REPEAT, END, GOTO, LABEL}
  {
    if i == LOOP then
      if |args| != 2 then Err(BadArguments) else var v :- ReadU64(args[1]); Ok(Loop(v))
    else if |args| != 1 then Err(BadArguments)
    else
      Ok(match i
         case DO_LOOP => DoLoop
         case REPEAT => Repeat
         case END => End
         case GOTO => Goto
         case _ => Label)
  }

  /** Operations on a window of mode bits. */
  function ReadBits(i: Instr, args: seq<string>): Result<SourceOp, Error>
    requires i in {SET_MODE_BITS, AND_MODE_BITS, OR_MODE_BITS, CLEAR_MODE_BITS}
    requires forall k | 0 <= k < |args| :: args[k] != ""
  {
    if i == CLEAR_MODE_BITS then
      if |args| != 5 || args[1] != "start_bit" || args[3] != "bit_count" then Err(BadArguments)
      else var w :- ReadWindow(args[2], args[4]); Ok(ClearBits(w))
    else
      var w :- ReadWindowValue(args);
      Ok(if i == SET_MODE_BITS then SetBits(w.0, w.1)
         else if i == AND_MODE_BITS then AndBits(w.0, w.1)
         else OrBits(w.0, w.1))
  }

  /** One line's arguments read as a source operation. */
  function ReadOp(args: seq<string>, ticks: Ticks): Result<SourceOp, Error>
    requires args != [] && forall k | 0 <= k < |args| :: args[k] != ""
  {
    var i := ParseInstruction(args[0]);
    match i
    case HEARTBEAT | MARKER | DATA_REQUEST | SET_TAG | INC_TAG | SET_MODE => ReadSimple(i, args)
    case LOOP | DO_LOOP | REPEAT | END | GOTO | LABEL => ReadFlow(i, args)
    case SET_MODE_BITS | AND_MODE_BITS | OR_MODE_BITS | CLEAR_MODE_BITS => ReadBits(i, args)
    case WAIT => var o :- ReadWait(args, ticks); Ok(Wait(o))
    case _ => Err(InvalidInstruction)
  }

  // ----- Rows -----

  /** One 8-byte row of the binary: a 6-byte parameter, a zero byte, the opcode. */
  datatype Row = Row(op: Instr, param: nat)

  function MakeRow(op: Instr, param: nat): Row {
    Row(op, param % TWO48)
  }

  /** Every parameter fits its six bytes. */
  predicate Narrow(rows: seq<Row>) {
    forall k | 0 <= k < |rows| :: rows[k].param < TWO48
  }

  function EncodeRow(r: Row): (b: seq<byte>)
    ensures |b| == 8
  {
    LittleEndian(r.param, 6) + [0, r.op.Code()]
  }

  function EncodeRows(rows: seq<Row>): (b: seq<byte>)
    ensures |b| == 8 * |rows|
  {
    if rows == [] then [] else EncodeRows(rows[..|rows| - 1]) + EncodeRow(rows[|rows| - 1])
  }

  // ----- Mode masks -----

  /** `count` ones from bit `start` up. */
  function Mask(start: nat, count: nat): (r: nat)
    ensures r < Pow2(start + count)
  {
    if count == 0 then 0 else Pow2(start + count - 1) + Mask(start, count - 1)
  }

  function WindowMask(w: Window): u64 {
    Pow2Monotonic(w.start + w.count, 64);
    Pow2Constants();
    Mask(w.start, w.count)
  }

  // ----- Translating one operation -----

  /** The compiler's state between two lines: open LOOP rows (1-based, innermost last), the label, whether
      an END, REPEAT or GOTO has been seen, and the rows. */
  datatype State = State(loopStack: seq<nat>, labels: map<string, nat>, ended: bool, rows: seq<Row>) {
    function Line(): nat { 1 + |rows| }

    function Add(more: seq<Row>): State { this.(rows := rows + more) }
  }

  const START := State([], map[], false, [])

  function OperandParam(o: Operand): u64 {
    match o
    case Keyword => ALL_ONES
    case Number(v) => v
  }

  /** Operations that do not touch loops, labels or the end of the plan. */
  predicate IsPlain(op: SourceOp) {
    !op.Loop? && !op.DoLoop? && !op.Repeat? && !op.End? && !op.Goto? && !op.Label?
  }

  function PlainRows(op: SourceOp): (r: seq<Row>)
    requires IsPlain(op)
  {
    match op
    case Heartbeat(o) => [MakeRow(HEARTBEAT, OperandParam(o))]
    case Marker => [MakeRow(MARKER, 0)]
    case DataRequest(o) => [MakeRow(DATA_REQUEST, OperandParam(o))]
    case SetTag(v) => [MakeRow(SET_TAG, v)]
    case IncTag(v) => [MakeRow(INC_TAG, v)]
    case Wait(o) => [MakeRow(WAIT, OperandParam(o))]
    case ClearBits(w) => [MakeRow(AND_MODE_BITS, Not64(WindowMask(w)))]
    case SetBits(w, v) =>
      [MakeRow(AND_MODE_BITS, Not64(WindowMask(w))), MakeRow(OR_MODE_BITS, And(Shl64(v, w.start), WindowMask(w)))]
    case AndBits(w, v) => [MakeRow(AND_MODE_BITS, Or(Shl64(v, w.start), Not64(WindowMask(w))))]
    case OrBits(w, v) => [MakeRow(OR_MODE_BITS, And(Shl64(v, w.start), WindowMask(w)))]
    case SetMode(v) => [MakeRow(AND_MODE_BITS, 0), MakeRow(OR_MODE_BITS, v)]
  }

  lemma PlainRowsAreNarrow(op: SourceOp)
    requires IsPlain(op)
    ensures Narrow(PlainRows(op))
  {
    hide WindowMask, Not64, Shl64, And, Or;
  }

  /** One operation compiled after `st`. */
  function Step(op: SourceOp, st: State): Result<State, Error> {
    match op
    case Loop(n) => Ok(st.(loopStack := st.loopStack + [st.Line()]).Add([MakeRow(LOOP, n)]))
    case DoLoop =>
      if st.loopStack == [] then Err(UnmatchedDoLoop)
      else
        var last := |st.loopStack| - 1;
        Ok(st.(loopStack := st.loopStack[..last]).Add([MakeRow(DO_LOOP, (st.Line() - st.loopStack[last]) % TWO64)]))
    case Repeat => if st.loopStack != [] then Err(OpenLoop) else Ok(st.(ended := true).Add([MakeRow(REPEAT, 0)]))
    case End => if st.loopStack != [] then Err(OpenLoop) else Ok(st.(ended := true).Add([MakeRow(END, 0)]))
    case Goto =>
      if st.loopStack != [] then Err(OpenLoop)
      else if MAIN_GOTO_LABEL !in st.labels then Err(MissingLabel)
      else Ok(st.(ended := true).Add([MakeRow(GOTO, st.labels[MAIN_GOTO_LABEL])]))
    case Label =>
      if st.loopStack != [] then Err(OpenLoop)
      else if MAIN_GOTO_LABEL in st.labels then Err(DuplicateLabel)
      else Ok(st.(labels := st.labels[MAIN_GOTO_LABEL := st.Line()]).Add([MakeRow(NOOP, 1)]))
    case _ => Ok(st.Add(PlainRows(op)))
  }

  /** A list of operations compiled after `st`, in order; the first error ends it. */
  function Compile(ops: seq<SourceOp>, st: State): Result<State, Error> {
    if ops == [] then Ok(st)
    else
      var st' :- Compile(ops[..|ops| - 1], st);
      Step(ops[|ops| - 1], st')
  }

  /** The compiler accepts: no error, and an END, REPEAT or GOTO somewhere. */
  predicate Accepts(ops: seq<SourceOp>) {
    var r := Compile(ops, START);
    r.Ok? && r.value.ended
  }

  lemma {:induction false} CompileAppend(a: seq<SourceOp>, b: seq<SourceOp>, st: State)
    ensures Compile(a + b, st) ==
            match Compile(a, st)
            case Err(e) => Err(e)
            case Ok(mid) => Compile(b, mid)
  {
    if b == [] {
      assert a + b == a;
    } else {
      var b' := b[..|b| - 1];
      assert (a + b)[..|a + b| - 1] == a + b';
      CompileAppend(a, b', st);
    }
  }
}
