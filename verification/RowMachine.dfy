/** The machine that executes a compiled plan, and the meaning of a plan read as nested loops.

    The firmware is not part of the repository, so its reading of the rows is an assumption, stated by
    Tick: rows execute in order; an all-ones parameter of HEARTBEAT, DATA_REQUEST or WAIT means the
    keyword (registered mode, current tag, next RF-0); AND and OR act on a 48-bit mode; LOOP arms a
    counter; DO_LOOP goes back its parameter in rows and resumes after the LOOP, until the counter is
    used up; REPEAT starts over; GOTO goes to the row its parameter numbers, counting from 1.  How often
    DO_LOOP goes back for a given count is left open (`Firmware`; count - 1 in the intended reading). */
module RowMachine {
  import opened Words
  import opened Outcomes
  import opened RunPlan
  import ModeBits

  type Firmware = nat -> nat

  datatype Effect =
    | HeartbeatSent(mode: nat)
    | MarkerSent
    | DataRequested(tag: Operand)
    | TagSet(value: nat)
    | TagIncremented(value: nat)
    | Waited(time: Operand)

  /** What a stretch of the plan leaves behind. */
  datatype Outcome = Outcome(mode: nat, trace: seq<Effect>)

  const KEYWORD_PARAM: nat := TWO48 - 1

  // ----- The machine -----

  datatype Machine = Machine(pc: nat, counters: seq<nat>, mode: nat, trace: seq<Effect>, halted: bool)

  function Boot(mode: nat): Machine { Machine(0, [], mode, [], false) }

  function ReadParam(p: nat): Operand
    requires p < TWO48
  {
    if p == KEYWORD_PARAM then Keyword else Number(p)
  }

  predicate IsFlow(i: Instr) {
    i in {LOOP, DO_LOOP, REPEAT, END, GOTO}
  }

  /** What one row without control flow does. */
  function RowEffect(r: Row, mode: nat): seq<Effect>
    requires r.param < TWO48
  {
    match r.op
    case HEARTBEAT => [HeartbeatSent(if r.param == KEYWORD_PARAM then mode else r.param)]
    case MARKER => [MarkerSent]
    case DATA_REQUEST => [DataRequested(ReadParam(r.param))]
    case SET_TAG => [TagSet(r.param)]
    case INC_TAG => [TagIncremented(r.param)]
    case WAIT => [Waited(ReadParam(r.param))]
    case _ => []
  }

  /** One machine step. */
  function Tick(rows: seq<Row>, fw: Firmware, m: Machine): Machine
    requires Narrow(rows)
  {
    if m.halted || m.pc >= |rows| then m.(halted := true)
    else
      var r := rows[m.pc];
      match r.op
      case LOOP => m.(pc := m.pc + 1, counters := m.counters + [fw(r.param)])
      case DO_LOOP =>
        var n := |m.counters|;
        if n == 0 || r.param > m.pc then m.(halted := true)
        else if m.counters[n - 1] > 0 then
          m.(pc := m.pc - r.param + 1, counters := m.counters[n - 1 := m.counters[n - 1] - 1])
        else m.(pc := m.pc + 1, counters := m.counters[..n - 1])
      case REPEAT => m.(pc := 0)
      case END => m.(halted := true)
      case GOTO => if r.param == 0 then m.(halted := true) else m.(pc := r.param - 1)
      case _ => m.(pc := m.pc + 1, mode := ModeBits.RowMode(r, m.mode), trace := m.trace + RowEffect(r, m.mode))
  }

  function Run(rows: seq<Row>, fw: Firmware, m: Machine, steps: nat): Machine
    requires Narrow(rows)
    decreases steps
  {
    if steps == 0 then m else Run(rows, fw, Tick(rows, fw, m), steps - 1)
  }

  // ----- The source, read as nested loops -----

  datatype Block = Nil | Op(op: SourceOp, rest: Block) | Nest(times: u64, body: Block, rest: Block)

  predicate PlainBlock(b: Block) {
    match b
    case Nil => true
    case Op(op, rest) => IsPlain(op) && PlainBlock(rest)
    case Nest(_, body, rest) => PlainBlock(body) && PlainBlock(rest)
  }

  /** The lines of a block. */
  function Flat(b: Block): seq<SourceOp> {
    match b
    case Nil => []
    case Op(op, rest) => [op] + Flat(rest)
    case Nest(n, body, rest) => [Loop(n)] + Flat(body) + [DoLoop] + Flat(rest)
  }

  function Truncate(o: Operand): Operand {
    match o
    case Keyword => Keyword
    case Number(v) => Number(v % TWO48)
  }

  /** Operands are 48-bit numbers. */
  function SourceEffect(op: SourceOp, mode: nat): seq<Effect> {
    match op
    case Heartbeat(Keyword) => [HeartbeatSent(mode)]
    case Heartbeat(Number(v)) => [HeartbeatSent(v % TWO48)]
    case Marker => [MarkerSent]
    case DataRequest(o) => [DataRequested(Truncate(o))]
    case SetTag(v) => [TagSet(v % TWO48)]
    case IncTag(v) => [TagIncremented(v % TWO48)]
    case Wait(o) => [Waited(Truncate(o))]
    case _ => []
  }

  function Exec(b: Block, fw: Firmware, mode: nat): Outcome
    decreases b, 0, 0
  {
    match b
    case Nil => Outcome(mode, [])
    case Op(op, rest) =>
      var o := Exec(rest, fw, ModeBits.SourceMode(op, mode));
      Outcome(o.mode, SourceEffect(op, mode) + o.trace)
    case Nest(n, body, rest) =>
      var loops := ExecTimes(body, fw, 1 + fw(n % TWO48), mode);
      var o := Exec(rest, fw, loops.mode);
      Outcome(o.mode, loops.trace + o.trace)
  }

  function ExecTimes(body: Block, fw: Firmware, n: nat, mode: nat): Outcome
    decreases body, 1, n
  {
    if n == 0 then Outcome(mode, [])
    else
      var first := Exec(body, fw, mode);
      var others := ExecTimes(body, fw, n - 1, first.mode);
      Outcome(others.mode, first.trace + others.trace)
  }

  /** A numeric operand that cannot be told from the keyword once it is in the row. */
  predicate Ambiguous(op: SourceOp) {
    match op
    case Heartbeat(Number(v)) => v % TWO48 == KEYWORD_PARAM
    case DataRequest(Number(v)) => v % TWO48 == KEYWORD_PARAM
    case Wait(Number(v)) => v % TWO48 == KEYWORD_PARAM
    case _ => false
  }

  predicate ClearBlock(b: Block) {
    match b
    case Nil => true
    case Op(op, rest) => !Ambiguous(op) && ClearBlock(rest)
    case Nest(_, body, rest) => ClearBlock(body) && ClearBlock(rest)
  }

  // Lines of a block followed by something else, one construct at a time.

  lemma FlatOp(op: SourceOp, rest: Block, tail: seq<SourceOp>)
    ensures Flat(Op(op, rest)) + tail == [op] + (Flat(rest) + tail)
  {
  }

  lemma FlatNest(n: u64, body: Block, rest: Block, tail: seq<SourceOp>)
    ensures Flat(Nest(n, body, rest)) + tail == [Loop(n)] + (Flat(body) + ([DoLoop] + (Flat(rest) + tail)))
  {
  }

  lemma ConsInjective<T>(a: T, x: seq<T>, a': T, x': seq<T>)
    requires [a] + x == [a'] + x'
    ensures a == a' && x == x'
  {
    assert ([a] + x)[0] == a && ([a] + x)[1..] == x;
    assert ([a'] + x')[0] == a' && ([a'] + x')[1..] == x';
  }

  /** The tail of a block: empty, or starting with a line that cannot continue the block. */
  predicate Stops(tail: seq<SourceOp>) {
    tail != [] ==> !IsPlain(tail[0]) && !tail[0].Loop?
  }

  /** The first line decides how a block starts. */
  lemma SameStart(b: Block, tail: seq<SourceOp>, b': Block, tail': seq<SourceOp>)
    requires PlainBlock(b) && PlainBlock(b') && Flat(b) + tail == Flat(b') + tail'
    requires Stops(tail) && Stops(tail')
    ensures b.Nil? <==> b'.Nil?
    ensures b.Op? <==> b'.Op?
    ensures b.Nest? <==> b'.Nest?
  {
    if !b.Nil? { assert (Flat(b) + tail)[0] == Flat(b)[0]; }
    if !b'.Nil? { assert (Flat(b') + tail')[0] == Flat(b')[0]; }
    if b.Nil? { assert Flat(b) + tail == tail; }
    if b'.Nil? { assert Flat(b') + tail' == tail'; }
  }

  /** A loop structure is determined by the lines. */
  lemma {:induction false} ReadingIsUnique(b: Block, tail: seq<SourceOp>, b': Block, tail': seq<SourceOp>)
    requires PlainBlock(b) && PlainBlock(b') && Flat(b) + tail == Flat(b') + tail'
    requires Stops(tail) && Stops(tail')
    ensures b == b' && tail == tail'
  {
    SameStart(b, tail, b', tail');
    match b {
      case Nil =>
        assert Flat(b) + tail == tail && Flat(b') + tail' == tail';
      case Op(op, rest) =>
        FlatOp(op, rest, tail);
        FlatOp(b'.op, b'.rest, tail');
        ConsInjective(op, Flat(rest) + tail, b'.op, Flat(b'.rest) + tail');
        ReadingIsUnique(rest, tail, b'.rest, tail');
      case Nest(n, body, rest) =>
        FlatNest(n, body, rest, tail);
        FlatNest(b'.times, b'.body, b'.rest, tail');
        var more, more' := [DoLoop] + (Flat(rest) + tail), [DoLoop] + (Flat(b'.rest) + tail');
        ConsInjective(Loop(n), Flat(body) + more, Loop(b'.times), Flat(b'.body) + more');
        ReadingIsUnique(body, more, b'.body, more');
        ConsInjective(DoLoop, Flat(rest) + tail, DoLoop, Flat(b'.rest) + tail');
        ReadingIsUnique(rest, tail, b'.rest, tail');
    }
  }

  // ----- The rows of a block -----

  function BlockRows(b: Block): seq<Row>
    requires PlainBlock(b)
  {
    match b
    case Nil => []
    case Op(op, rest) => PlainRows(op) + BlockRows(rest)
    case Nest(n, body, rest) =>
      var inner := BlockRows(body);
      [MakeRow(LOOP, n)] + inner + [MakeRow(DO_LOOP, |inner| + 1)] + BlockRows(rest)
  }

  lemma CompileOne(op: SourceOp, st: State)
    ensures Compile([op], st) == Step(op, st)
  {
    assert [op][..0] == [];
  }

  lemma CompileThen(a: seq<SourceOp>, b: seq<SourceOp>, st: State, mid: State)
    requires Compile(a, st) == Ok(mid)
    ensures Compile(a + b, st) == Compile(b, mid)
  {
    CompileAppend(a, b, st);
  }

  lemma AddTwice(st: State, a: seq<Row>, b: seq<Row>)
    ensures st.Add(a).Add(b) == st.Add(a + b)
  {
    assert st.rows + a + b == st.rows + (a + b);
  }

  /** LOOP pushes its row, DO_LOOP pops it: with the stack as it was, the distance is the length of the body. */
  lemma CompileNest(n: u64, inner: seq<Row>, st: State)
    ensures var open := Step(Loop(n), st);
            && open.Ok?
            && Step(DoLoop, open.value.Add(inner)) ==
               Ok(st.Add([MakeRow(LOOP, n)] + inner + [MakeRow(DO_LOOP, |inner| + 1)]))
  {
    var open := Step(Loop(n), st).value;
    var inside := open.Add(inner);
    assert inside.loopStack[..|st.loopStack|] == st.loopStack;
    assert inside.Line() - inside.loopStack[|st.loopStack|] == |inner| + 1;
    assert (|inner| + 1) % TWO64 % TWO48 == (|inner| + 1) % TWO48;
    assert inside.rows + [MakeRow(DO_LOOP, |inner| + 1)] ==
           st.rows + ([MakeRow(LOOP, n)] + inner + [MakeRow(DO_LOOP, |inner| + 1)]);
  }

  /** The one-pass compiler with its stack produces the rows of the nested reading and leaves the stack as
      it was: each DO_LOOP counts the rows of its own body, two-row operations included. */
  lemma {:induction false} CompileBlock(b: Block, st: State)
    requires PlainBlock(b)
    ensures Compile(Flat(b), st) == Ok(st.Add(BlockRows(b)))
  {
    hide Compile;
    match b {
      case Nil =>
        CompileNothing(st);
        assert st.rows + [] == st.rows;
      case Op(op, rest) =>
        CompileOne(op, st);
        var st1 := st.Add(PlainRows(op));
        CompileThen([op], Flat(rest), st, st1);
        CompileBlock(rest, st1);
        AddTwice(st, PlainRows(op), BlockRows(rest));
      case Nest(n, body, rest) =>
        var inner := BlockRows(body);
        CompileNest(n, inner, st);
        var open := Step(Loop(n), st).value;
        var closed := [MakeRow(LOOP, n)] + inner + [MakeRow(DO_LOOP, |inner| + 1)];
        FlatNest(n, body, rest, []);
        assert Flat(b) + [] == Flat(b) && Flat(rest) + [] == Flat(rest);
        CompileOne(Loop(n), st);
        CompileThen([Loop(n)], Flat(body) + ([DoLoop] + Flat(rest)), st, open);
        CompileBlock(body, open);
        CompileThen(Flat(body), [DoLoop] + Flat(rest), open, open.Add(inner));
        CompileOne(DoLoop, open.Add(inner));
        CompileThen([DoLoop], Flat(rest), open.Add(inner), st.Add(closed));
        CompileBlock(rest, st.Add(closed));
        AddTwice(st, closed, BlockRows(rest));
    }
  }

  lemma CompileNothing(st: State)
    ensures Compile([], st) == Ok(st)
  {
  }

  // ----- One row, one operation -----

  /** A compiled operation means what the source says -- for every mode -- exactly when its operand is not a
      number that looks like the keyword. */
  lemma RowMeansOp(op: SourceOp)
    requires IsPlain(op)
    ensures (forall mode: nat | mode < TWO48 :: RowsEffect(PlainRows(op), mode) == SourceEffect(op, mode))
            <==> !Ambiguous(op)
  {
    if Ambiguous(op) {
      assert RowsEffect(PlainRows(op), 0) != SourceEffect(op, 0) by { EffectOfRows(op, 0); }
    } else {
      forall mode: nat | mode < TWO48 ensures RowsEffect(PlainRows(op), mode) == SourceEffect(op, mode) {
        EffectOfRows(op, mode);
      }
    }
  }

  function RowsEffect(rows: seq<Row>, mode: nat): seq<Effect>
    requires Narrow(rows)
  {
    if rows == [] then []
    else RowEffect(rows[0], mode) + RowsEffect(rows[1..], ModeBits.RowMode(rows[0], mode))
  }

  lemma EffectOfRows(op: SourceOp, mode: nat)
    requires IsPlain(op)
    ensures var rows := PlainRows(op);
            RowsEffect(rows, mode) == if |rows| == 2 then [] else RowEffect(rows[0], mode)
  {
    hide And, Or, Shl64, Not64, WindowMask;
    var rows := PlainRows(op);
    if |rows| == 2 {
      assert rows == [rows[0], rows[1]];
      EffectOfTwo(rows[0], rows[1], mode);
    } else {
      assert rows == [rows[0]];
      EffectOfOne(rows[0], mode);
    }
  }

  lemma EffectOfOne(r: Row, mode: nat)
    requires r.param < TWO48
    ensures RowsEffect([r], mode) == RowEffect(r, mode)
  {
    assert [r][1..] == [];
  }

  lemma EffectOfTwo(r: Row, s: Row, mode: nat)
    requires r.param < TWO48 && s.param < TWO48
    ensures RowsEffect([r, s], mode) == RowEffect(r, mode) + RowEffect(s, ModeBits.RowMode(r, mode))
  {
    assert [r, s][1..] == [s];
    EffectOfOne(s, ModeBits.RowMode(r, mode));
  }
}
