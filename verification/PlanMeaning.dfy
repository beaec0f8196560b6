/** Whole plans: how an accepted plan reads, and the main theorem about running it. */
module PlanMeaning {
  import opened Words
  import opened Outcomes
  import opened RunPlan
  import opened RowMachine
  import opened CompilerCorrectness
  import opened LoopNesting
  import ModeBits

  /** A plan up to its first END, REPEAT or GOTO: loops, possibly a LABEL and more loops, then the ending. */
  datatype Plan = Plan(pre: Block, post: Option<Block>, last: SourceOp)

  predicate WellFormed(p: Plan) {
    && PlainBlock(p.pre)
    && (p.post.Some? ==> PlainBlock(p.post.value))
    && IsEnd(p.last)
    && (p.last.Goto? ==> p.post.Some?)
  }

  predicate ClearPlan(p: Plan) {
    ClearBlock(p.pre) && (p.post.Some? ==> ClearBlock(p.post.value))
  }

  function PlanOps(p: Plan): seq<SourceOp> {
    Flat(p.pre) + (if p.post.Some? then [Label] + Flat(p.post.value) else []) + [p.last]
  }

  // ----- The source's effects -----

  /** From the first line to the ending. */
  function ToEnd(p: Plan, fw: Firmware, mode: nat): Outcome {
    var o := Exec(p.pre, fw, mode);
    if p.post.None? then o
    else
      var o' := Exec(p.post.value, fw, o.mode);
      Outcome(o'.mode, o.trace + o'.trace)
  }

  /** From the ending to the ending: END stays, REPEAT starts over, GOTO resumes at the label. */
  function Again(p: Plan, fw: Firmware, mode: nat): Outcome
    requires WellFormed(p)
  {
    if p.last.End? then Outcome(mode, [])
    else if p.last.Repeat? then ToEnd(p, fw, mode)
    else Exec(p.post.value, fw, mode)
  }

  /** Everything done when the ending has been reached and n more rounds have been made. */
  function SourceRun(p: Plan, fw: Firmware, mode: nat, rounds: nat): Outcome
    requires WellFormed(p)
  {
    if rounds == 0 then ToEnd(p, fw, mode)
    else
      var o := SourceRun(p, fw, mode, rounds - 1);
      var o' := Again(p, fw, o.mode);
      Outcome(o'.mode, o.trace + o'.trace)
  }

  lemma {:induction false} SourceRunKeepsMode(p: Plan, fw: Firmware, mode: nat, rounds: nat)
    requires WellFormed(p) && mode < TWO48
    ensures SourceRun(p, fw, mode, rounds).mode < TWO48
  {
    if rounds == 0 {
      ToEndKeepsMode(p, fw, mode);
    } else {
      SourceRunKeepsMode(p, fw, mode, rounds - 1);
      var o := SourceRun(p, fw, mode, rounds - 1);
      ToEndKeepsMode(p, fw, o.mode);
      if p.last.Goto? { ExecKeepsMode(p.post.value, fw, o.mode); }
    }
  }

  lemma ToEndKeepsMode(p: Plan, fw: Firmware, mode: nat)
    requires mode < TWO48
    ensures ToEnd(p, fw, mode).mode < TWO48
  {
    ExecKeepsMode(p.pre, fw, mode);
    if p.post.Some? { ExecKeepsMode(p.post.value, fw, Exec(p.pre, fw, mode).mode); }
  }

  // ----- Reading lines as nested loops -----

  /** Lines that are plain operations and properly nested loops. */
  predicate Nested(ops: seq<SourceOp>) {
    && (forall k: nat | k < |ops| :: IsPlain(ops[k]) || ops[k].Loop? || ops[k].DoLoop?)
    && (forall k: nat | k <= |ops| :: OpDepth(ops, k) >= 0)
    && OpDepth(ops, |ops|) == 0
  }

  lemma {:induction false} OpDepthSlice(ops: seq<SourceOp>, i: nat, j: nat, k: nat)
    requires i <= j <= |ops| && k <= j - i
    ensures OpDepth(ops[i..j], k) == OpDepth(ops, i + k) - OpDepth(ops, i)
  {
    if k != 0 { OpDepthSlice(ops, i, j, k - 1); }
  }

  lemma NestedSlice(ops: seq<SourceOp>, i: nat, j: nat)
    requires i <= j <= |ops| && OpDepth(ops, j) == OpDepth(ops, i)
    requires forall k: nat | i <= k < j :: IsPlain(ops[k]) || ops[k].Loop? || ops[k].DoLoop?
    requires forall k: nat | i <= k <= j :: OpDepth(ops, k) >= OpDepth(ops, i)
    ensures Nested(ops[i..j])
  {
    forall k: nat | k <= j - i ensures OpDepth(ops[i..j], k) == OpDepth(ops, i + k) - OpDepth(ops, i) {
      OpDepthSlice(ops, i, j, k);
    }
    forall k: nat | k < j - i ensures ops[i..j][k] == ops[i + k] {}
  }

  /** The DO_LOOP that closes the LOOP in the first line. */
  lemma FindClose(ops: seq<SourceOp>) returns (j: nat)
    requires Nested(ops) && ops != [] && ops[0].Loop?
    ensures 1 <= j < |ops| && ops[j].DoLoop?
    ensures OpDepth(ops, j) == 1 && OpDepth(ops, j + 1) == 0
    ensures forall k: nat | 1 <= k <= j :: OpDepth(ops, k) >= 1
  {
    assert OpDepth(ops, 1) == OpDepth(ops, 0) + 1 == 1;
    j := 1;
    while OpDepth(ops, j + 1) != 0
      invariant 1 <= j < |ops|
      invariant OpDepth(ops, j) >= 1
      invariant forall k: nat | 1 <= k <= j :: OpDepth(ops, k) >= 1
      decreases |ops| - j
    {
      assert OpDepth(ops, j + 1) >= 0;
      j := j + 1;
    }
  }

  lemma SplitAround(ops: seq<SourceOp>, j: nat)
    requires 1 <= j < |ops|
    ensures ops == [ops[0]] + ops[1..j] + [ops[j]] + ops[j + 1..|ops|]
  {
  }

  lemma NestedFacts(ops: seq<SourceOp>)
    requires Nested(ops)
    ensures forall k: nat | k < |ops| :: IsPlain(ops[k]) || ops[k].Loop? || ops[k].DoLoop?
    ensures forall k: nat | k <= |ops| :: OpDepth(ops, k) >= 0
    ensures OpDepth(ops, |ops|) == 0
  {
  }

  /** Every properly nested list of lines is the text of a block (and of one only: ReadingIsUnique). */
  lemma {:induction false} ReadBlock(ops: seq<SourceOp>) returns (b: Block)
    requires Nested(ops)
    ensures PlainBlock(b) && Flat(b) == ops
    decreases |ops|
  {
    var n := |ops|;
    hide Nested;
    NestedFacts(ops);
    if n == 0 {
      b := Nil;
    } else if ops[0].Loop? {
      var j := FindClose(ops);
      assert OpDepth(ops, 1) == OpDepth(ops, 0) + 1 == 1;
      NestedSlice(ops, 1, j);
      NestedSlice(ops, j + 1, n);
      var body := ReadBlock(ops[1..j]);
      var rest := ReadBlock(ops[j + 1..n]);
      b := Nest(ops[0].times, body, rest);
      SplitAround(ops, j);
    } else {
      assert OpDepth(ops, 1) == OpDepth(ops, 0) + OpWeight(ops[0]) == OpWeight(ops[0]);
      NestedSlice(ops, 1, n);
      var rest := ReadBlock(ops[1..n]);
      b := Op(ops[0], rest);
      assert ops == [ops[0]] + ops[1..n];
    }
  }

  /** The lines before the first ending, which may contain one label. */
  lemma ReadHead(ops: seq<SourceOp>, e: nat) returns (pre: Block, post: Option<Block>)
    requires Disciplined(ops) && e < |ops| && IsEnd(ops[e])
    requires forall k: nat | k < e :: !IsEnd(ops[k])
    ensures PlainBlock(pre) && (post.Some? ==> PlainBlock(post.value))
    ensures ops[..e] == Flat(pre) + if post.Some? then [Label] + Flat(post.value) else []
    ensures ops[e].Goto? ==> post.Some?
  {
    hide PlainBlock, Flat, Nested;
    assert OpDepth(ops, e) == 0 == OpDepth(ops, 0);
    if LabelBefore(ops, e) {
      var l: nat :| l < e && ops[l].Label?;
      LabelSplits(ops, e, l);
      pre := ReadBlock(ops[0..l]);
      var rest := ReadBlock(ops[l + 1..e]);
      post := Some(rest);
      assert ops[..e] == ops[0..l] + ([ops[l]] + ops[l + 1..e]);
    } else {
      forall k: nat | k < e ensures IsPlain(ops[k]) || ops[k].Loop? || ops[k].DoLoop? { }
      NestedSlice(ops, 0, e);
      pre := ReadBlock(ops[0..e]);
      post := None;
      assert ops[..e] == ops[0..e] + [];
    }
  }

  lemma LabelSplits(ops: seq<SourceOp>, e: nat, l: nat)
    requires Disciplined(ops) && l < e < |ops| && IsEnd(ops[e]) && ops[l].Label?
    requires forall k: nat | k < e :: !IsEnd(ops[k])
    ensures Nested(ops[0..l]) && Nested(ops[l + 1..e])
  {
    hide Nested;
    assert OpDepth(ops, l) == 0 == OpDepth(ops, 0) && OpDepth(ops, e) == 0;
    assert OpDepth(ops, l + 1) == OpDepth(ops, l) + OpWeight(ops[l]) == 0;
    forall k: nat | k < e && k != l ensures IsPlain(ops[k]) || ops[k].Loop? || ops[k].DoLoop? {
      assert ops[k].Label? ==> !LabelBefore(ops, k);
      assert !LabelBefore(ops, l);
    }
    NestedSlice(ops, 0, l);
    NestedSlice(ops, l + 1, e);
  }

  /** An accepted plan reads as a Plan followed by lines that are never reached. */
  lemma PlanReading(ops: seq<SourceOp>) returns (p: Plan, dead: seq<SourceOp>)
    requires Accepts(ops)
    ensures WellFormed(p) && ops == PlanOps(p) + dead
  {
    AcceptedIffDisciplined(ops);
    var e := FirstEnd(ops);
    var pre, post := ReadHead(ops, e);
    p, dead := Plan(pre, post, ops[e]), ops[e + 1..];
    assert ops == ops[..e] + [ops[e]] + dead;
  }

  lemma FirstEnd(ops: seq<SourceOp>) returns (e: nat)
    requires EndBefore(ops, |ops|)
    ensures e < |ops| && IsEnd(ops[e])
    ensures forall k: nat | k < e :: !IsEnd(ops[k])
  {
    var j: nat :| j < |ops| && IsEnd(ops[j]);
    e := 0;
    while !IsEnd(ops[e])
      invariant e <= j
      invariant forall k: nat | k < e :: !IsEnd(ops[k])
      decreases j - e
    {
      e := e + 1;
    }
  }

  // ----- The rows of a plan -----

  function LastRow(p: Plan): Row
    requires WellFormed(p)
  {
    match p.last
    case Repeat => MakeRow(REPEAT, 0)
    case End => MakeRow(END, 0)
    case _ => MakeRow(GOTO, |BlockRows(p.pre)| + 1)
  }

  function PostRows(p: Plan): seq<Row>
    requires WellFormed(p)
  {
    if p.post.None? then [] else [MakeRow(NOOP, 1)] + BlockRows(p.post.value)
  }

  function PlanRows(p: Plan): seq<Row>
    requires WellFormed(p)
  {
    BlockRows(p.pre) + (PostRows(p) + [LastRow(p)])
  }

  lemma {:induction false} CompileExtends(ops: seq<SourceOp>, st: State)
    requires Compile(ops, st).Ok?
    ensures st.rows <= Compile(ops, st).value.rows
  {
    if ops != [] {
      CompileExtends(ops[..|ops| - 1], st);
    }
  }

  lemma PrefixPlaced(part: seq<Row>, rows: seq<Row>)
    requires part <= rows
    ensures Placed(rows, 0, part)
  {
  }

  lemma CompilePost(p: Plan, st: State)
    requires WellFormed(p) && st == START.Add(BlockRows(p.pre))
    ensures var labels := if p.post.Some? then map[MAIN_GOTO_LABEL := st.Line()] else map[];
            Compile(if p.post.Some? then [Label] + Flat(p.post.value) else [], st) ==
            Ok(st.(labels := labels).Add(PostRows(p)))
  {
    hide BlockRows, Flat;
    if p.post.None? {
      CompileNothing(st);
      assert st.rows + [] == st.rows;
    } else {
      CompileOne(Label, st);
      var st1 := st.(labels := map[MAIN_GOTO_LABEL := st.Line()]).Add([MakeRow(NOOP, 1)]);
      assert Step(Label, st) == Ok(st1);
      CompileThen([Label], Flat(p.post.value), st, st1);
      CompileBlock(p.post.value, st1);
      AddTwice(st.(labels := map[MAIN_GOTO_LABEL := st.Line()]), [MakeRow(NOOP, 1)], BlockRows(p.post.value));
    }
  }

  /** The compiler gets through a well-formed plan and has then made exactly its rows. */
  lemma PlanReached(p: Plan) returns (st: State)
    requires WellFormed(p)
    ensures Compile(PlanOps(p), START) == Ok(st) && st.rows == PlanRows(p) && st.ended
  {
    hide BlockRows, Flat, Compile;
    var pre, tail := Flat(p.pre), if p.post.Some? then [Label] + Flat(p.post.value) else [];
    var st1 := START.Add(BlockRows(p.pre));
    CompileBlock(p.pre, START);
    assert st1.rows == BlockRows(p.pre);
    assert PlanOps(p) == pre + (tail + [p.last]);
    CompileThen(pre, tail + [p.last], START, st1);
    CompilePost(p, st1);
    var labels := if p.post.Some? then map[MAIN_GOTO_LABEL := st1.Line()] else map[];
    var st2 := st1.(labels := labels).Add(PostRows(p));
    CompileThen(tail, [p.last], st1, st2);
    CompileOne(p.last, st2);
    st := Step(p.last, st2).value;
    assert st.rows == st2.rows + [LastRow(p)];
    assert st.rows == PlanRows(p);
  }

  /** Every well-formed plan is accepted, and compiled to the rows of its blocks. */
  lemma WellFormedIsAccepted(p: Plan)
    requires WellFormed(p)
    ensures Accepts(PlanOps(p)) && Compile(PlanOps(p), START).value.rows == PlanRows(p)
  {
    var st := PlanReached(p);
  }

  /** Whatever follows the ending, the compiled plan starts with those rows. */
  lemma PlanCompiles(p: Plan, dead: seq<SourceOp>)
    requires WellFormed(p) && Compile(PlanOps(p) + dead, START).Ok?
    ensures Placed(Compile(PlanOps(p) + dead, START).value.rows, 0, PlanRows(p))
  {
    hide BlockRows, Flat, Compile, PlanOps;
    var st := PlanReached(p);
    CompileAppend(PlanOps(p), dead, START);
    CompileExtends(dead, st);
    PrefixPlaced(PlanRows(p), Compile(PlanOps(p) + dead, START).value.rows);
  }

  /** The end of the file is not the end of a plan: a loop opened after the ending stays open. */
  lemma OpenLoopIsAccepted()
    ensures Accepts([End, Loop(1)]) && OpDepth([End, Loop(1)], 2) == 1
  {
    var ops := [End, Loop(1)];
    AcceptedIffDisciplined(ops);
    assert IsEnd(ops[0]);
    assert OpDepth(ops, 0) == 0 && OpDepth(ops, 1) == 0;
  }

  // ----- Running a plan -----

  function LastIndex(p: Plan): nat
    requires WellFormed(p)
  {
    |BlockRows(p.pre)| + |PostRows(p)|
  }

  /** From the label row to the ending. */
  lemma PostRuns(rows: seq<Row>, fw: Firmware, p: Plan, m: Machine) returns (steps: nat)
    requires WellFormed(p) && ClearPlan(p) && p.post.Some?
    requires Narrow(rows) && |rows| <= TWO48 && Placed(rows, m.pc, PostRows(p))
    requires !m.halted && m.mode < TWO48
    ensures Run(rows, fw, m, steps) == After(m, m.pc + |PostRows(p)|, Exec(p.post.value, fw, m.mode))
  {
    hide BlockRows, Exec, Placed, Narrow, Tick;
    var b := p.post.value;
    PlacedSplit(rows, m.pc, [MakeRow(NOOP, 1)], BlockRows(b));
    LabelTick(rows, fw, m);
    var m1 := m.(pc := m.pc + 1);
    var more := BlockRuns(rows, fw, m1, b);
    steps := 1 + more;
    RunAdd(rows, fw, m, 1, more);
  }

  lemma LabelTick(rows: seq<Row>, fw: Firmware, m: Machine)
    requires Narrow(rows) && !m.halted && Placed(rows, m.pc, [MakeRow(NOOP, 1)])
    ensures Run(rows, fw, m, 1) == m.(pc := m.pc + 1)
  {
    assert [MakeRow(NOOP, 1)][0] == rows[m.pc + 0];
    RunOne(rows, fw, m);
    assert m.trace + [] == m.trace;
  }

  /** From the first row to the ending. */
  lemma PlanRuns(rows: seq<Row>, fw: Firmware, p: Plan, m: Machine) returns (steps: nat)
    requires WellFormed(p) && ClearPlan(p)
    requires Narrow(rows) && |rows| <= TWO48 && Placed(rows, 0, PlanRows(p))
    requires !m.halted && m.mode < TWO48 && m.pc == 0
    ensures Run(rows, fw, m, steps) == After(m, LastIndex(p), ToEnd(p, fw, m.mode))
  {
    hide BlockRows, Exec, Placed, Narrow, Tick;
    PlacedSplit(rows, 0, BlockRows(p.pre), PostRows(p) + [LastRow(p)]);
    PlacedSplit(rows, |BlockRows(p.pre)|, PostRows(p), [LastRow(p)]);
    steps := BlockRuns(rows, fw, m, p.pre);
    if p.post.Some? {
      var o := Exec(p.pre, fw, m.mode);
      ExecKeepsMode(p.pre, fw, m.mode);
      var m1 := After(m, |BlockRows(p.pre)|, o);
      var more := PostRuns(rows, fw, p, m1);
      RunAdd(rows, fw, m, steps, more);
      steps := steps + more;
      AfterTwice(m, m1.pc, o, LastIndex(p), Exec(p.post.value, fw, o.mode));
    }
  }

  lemma LastTick(rows: seq<Row>, fw: Firmware, p: Plan, m: Machine)
    requires WellFormed(p) && Narrow(rows) && |rows| <= TWO48 && Placed(rows, 0, PlanRows(p))
    requires m.pc == LastIndex(p) && (!m.halted || p.last.End?)
    ensures Run(rows, fw, m, 1) ==
            if p.last.End? then m.(halted := true)
            else m.(pc := if p.last.Repeat? then 0 else |BlockRows(p.pre)|)
  {
    hide BlockRows;
    var part := PlanRows(p);
    assert part[LastIndex(p)] == LastRow(p) == rows[0 + LastIndex(p)];
    RunOne(rows, fw, m);
  }

  /** After the first arrival and any number of rounds the machine stands at the ending with the source's effects. */
  lemma {:induction false} RoundsRun(rows: seq<Row>, fw: Firmware, p: Plan, mode: nat, rounds: nat) returns (steps: nat)
    requires WellFormed(p) && ClearPlan(p) && mode < TWO48
    requires Narrow(rows) && |rows| <= TWO48 && Placed(rows, 0, PlanRows(p))
    ensures steps >= rounds
    ensures var o := SourceRun(p, fw, mode, rounds);
            Run(rows, fw, Boot(mode), steps) == Machine(LastIndex(p), [], o.mode, o.trace, p.last.End? && rounds > 0)
  {
    hide Placed, Narrow, Tick, Run, ToEnd, BlockRows;
    if rounds == 0 {
      steps := PlanRuns(rows, fw, p, Boot(mode));
      var o := ToEnd(p, fw, mode);
      assert [] + o.trace == o.trace;
    } else {
      var before := RoundsRun(rows, fw, p, mode, rounds - 1);
      var o := SourceRun(p, fw, mode, rounds - 1);
      SourceRunKeepsMode(p, fw, mode, rounds - 1);
      var m := Run(rows, fw, Boot(mode), before);
      LastTick(rows, fw, p, m);
      RunAdd(rows, fw, Boot(mode), before, 1);
      steps := before + 1;
      if p.last.Repeat? {
        var more := PlanRuns(rows, fw, p, m.(pc := 0));
        RunAdd(rows, fw, Boot(mode), steps, more);
        steps := steps + more;
      } else if p.last.Goto? {
        PlacedSplit(rows, 0, BlockRows(p.pre), PostRows(p) + [LastRow(p)]);
        PlacedSplit(rows, |BlockRows(p.pre)|, PostRows(p), [LastRow(p)]);
        var more := PostRuns(rows, fw, p, m.(pc := |BlockRows(p.pre)|));
        RunAdd(rows, fw, Boot(mode), steps, more);
        steps := steps + more;
      } else {
        assert o.trace + [] == o.trace;
      }
    }
  }

  lemma {:induction false} TraceGrows(rows: seq<Row>, fw: Firmware, m: Machine, steps: nat)
    requires Narrow(rows)
    ensures m.trace <= Run(rows, fw, m, steps).trace
    decreases steps
  {
    if steps != 0 { TraceGrows(rows, fw, Tick(rows, fw, m), steps - 1); }
  }

  predicate Unambiguous(ops: seq<SourceOp>) {
    forall k: nat | k < |ops| :: !Ambiguous(ops[k])
  }

  lemma {:induction false} UnambiguousBlock(b: Block)
    requires Unambiguous(Flat(b))
    ensures ClearBlock(b)
  {
    match b {
      case Nil =>
      case Op(op, rest) =>
        assert Flat(b)[0] == op;
        forall k: nat | k < |Flat(rest)| ensures !Ambiguous(Flat(rest)[k]) { assert Flat(b)[1 + k] == Flat(rest)[k]; }
        UnambiguousBlock(rest);
      case Nest(n, body, rest) =>
        var i := |Flat(body)|;
        forall k: nat | k < i ensures !Ambiguous(Flat(body)[k]) { assert Flat(b)[1 + k] == Flat(body)[k]; }
        forall k: nat | k < |Flat(rest)| ensures !Ambiguous(Flat(rest)[k]) {
          assert Flat(b)[i + 2 + k] == Flat(rest)[k];
        }
        UnambiguousBlock(body);
        UnambiguousBlock(rest);
    }
  }

  /** The lines up to the first ending have no ambiguous operand. */
  predicate LiveUnambiguous(ops: seq<SourceOp>) {
    forall k: nat | k < |ops| && !EndBefore(ops, k) :: !Ambiguous(ops[k])
  }

  lemma {:induction false} BlockHasNoEnd(b: Block)
    requires PlainBlock(b)
    ensures forall k: nat | k < |Flat(b)| :: !IsEnd(Flat(b)[k])
  {
    match b {
      case Nil =>
      case Op(op, rest) => BlockHasNoEnd(rest);
      case Nest(n, body, rest) =>
        BlockHasNoEnd(body);
        BlockHasNoEnd(rest);
    }
  }

  /** No line of a plan but the last is an ending. */
  lemma PlanIsLive(p: Plan, dead: seq<SourceOp>, k: nat)
    requires WellFormed(p) && k < |PlanOps(p)|
    ensures !EndBefore(PlanOps(p) + dead, k)
  {
    BlockHasNoEnd(p.pre);
    if p.post.Some? { BlockHasNoEnd(p.post.value); }
    var i := |Flat(p.pre)|;
    forall j: nat | j < k ensures !IsEnd((PlanOps(p) + dead)[j]) {
      assert (PlanOps(p) + dead)[j] == PlanOps(p)[j];
      if j < i {
        assert PlanOps(p)[j] == Flat(p.pre)[j];
      } else if j > i {
        assert PlanOps(p)[j] == Flat(p.post.value)[j - i - 1];
      }
    }
  }

  lemma UnambiguousPlan(p: Plan, dead: seq<SourceOp>)
    requires WellFormed(p) && LiveUnambiguous(PlanOps(p) + dead)
    ensures ClearPlan(p)
  {
    var all := PlanOps(p) + dead;
    forall k: nat | k < |PlanOps(p)| ensures !Ambiguous(all[k]) { PlanIsLive(p, dead, k); }
    forall k: nat | k < |Flat(p.pre)| ensures !Ambiguous(Flat(p.pre)[k]) { assert all[k] == Flat(p.pre)[k]; }
    UnambiguousBlock(p.pre);
    if p.post.Some? {
      var post := Flat(p.post.value);
      forall k: nat | k < |post| ensures !Ambiguous(post[k]) { assert all[|Flat(p.pre)| + 1 + k] == post[k]; }
      UnambiguousBlock(p.post.value);
    }
  }

  /** Main theorem.  Take any accepted plan -- loops nested to any depth, two-row operations anywhere, REPEAT or
      GOTO for ever, loops left open after the ending -- any firmware loop count, any initial mode.  The lines
      up to the first ending have a reading as nested loops, and
      (1) for every number of rounds the machine gets, in some number of steps, exactly the effects and the mode
          of the source, and
      (2) whatever the machine has emitted after any number of steps, the source emits first. */
  lemma CompilationPreservesMeaning(ops: seq<SourceOp>, fw: Firmware, mode: nat)
    returns (p: Plan, dead: seq<SourceOp>)
    requires Accepts(ops) && LiveUnambiguous(ops) && mode < TWO48
    requires |Compile(ops, START).value.rows| <= TWO48
    ensures Narrow(Compile(ops, START).value.rows)
    ensures WellFormed(p) && ops == PlanOps(p) + dead
    ensures forall rounds: nat :: MachineReaches(ops, fw, mode, rounds, SourceRun(p, fw, mode, rounds))
    ensures forall steps: nat ::
              Run(Compile(ops, START).value.rows, fw, Boot(mode), steps).trace <= SourceRun(p, fw, mode, steps).trace
  {
    hide *;
    RowsAreNarrow(ops);
    var rows := Compile(ops, START).value.rows;
    p, dead := PlanReading(ops);
    PlanCompiles(p, dead);
    UnambiguousPlan(p, dead);
    forall rounds: nat ensures MachineReaches(ops, fw, mode, rounds, SourceRun(p, fw, mode, rounds)) {
      var steps := RoundReached(ops, fw, mode, p, rounds);
    }
    forall steps: nat
      ensures Run(rows, fw, Boot(mode), steps).trace <= SourceRun(p, fw, mode, steps).trace
    {
      var enough := RoundReached(ops, fw, mode, p, steps);
      RunAdd(rows, fw, Boot(mode), steps, enough - steps);
      TraceGrows(rows, fw, Run(rows, fw, Boot(mode), steps), enough - steps);
    }
  }

  lemma RowsAreNarrow(ops: seq<SourceOp>)
    requires Accepts(ops)
    ensures Compile(ops, START).Ok? && Narrow(Compile(ops, START).value.rows)
  {
    AcceptedPlansAreWellFormed(ops);
  }

  lemma RoundReached(ops: seq<SourceOp>, fw: Firmware, mode: nat, p: Plan, rounds: nat) returns (steps: nat)
    requires Accepts(ops) && Narrow(Compile(ops, START).value.rows) && |Compile(ops, START).value.rows| <= TWO48
    requires WellFormed(p) && ClearPlan(p) && mode < TWO48
    requires Placed(Compile(ops, START).value.rows, 0, PlanRows(p))
    ensures steps >= rounds && SameEffects(ops, fw, mode, steps, SourceRun(p, fw, mode, rounds))
    ensures MachineReaches(ops, fw, mode, rounds, SourceRun(p, fw, mode, rounds))
    ensures Run(Compile(ops, START).value.rows, fw, Boot(mode), steps).trace == SourceRun(p, fw, mode, rounds).trace
  {
    hide Run, SourceRun, Compile, Narrow, Placed;
    steps := RoundsRun(Compile(ops, START).value.rows, fw, p, mode, rounds);
  }

  /** In some number of steps, at least `least`, the machine has done exactly what the source has done. */
  ghost predicate MachineReaches(ops: seq<SourceOp>, fw: Firmware, mode: nat, least: nat, o: Outcome)
    requires Accepts(ops) && Narrow(Compile(ops, START).value.rows)
  {
    exists steps: nat :: steps >= least && SameEffects(ops, fw, mode, steps, o)
  }

  /** The machine has done what the source has done. */
  predicate SameEffects(ops: seq<SourceOp>, fw: Firmware, mode: nat, steps: nat, o: Outcome)
    requires Accepts(ops) && Narrow(Compile(ops, START).value.rows)
  {
    var m := Run(Compile(ops, START).value.rows, fw, Boot(mode), steps);
    m.trace == o.trace && m.mode == o.mode
  }

  /** The reading used by the theorem is the only one. */
  lemma PlanReadingIsUnique(p: Plan, dead: seq<SourceOp>, p': Plan, dead': seq<SourceOp>)
    requires WellFormed(p) && WellFormed(p') && PlanOps(p) + dead == PlanOps(p') + dead'
    ensures p == p' && dead == dead'
  {
    hide PlainBlock, Flat;
    var tail, tail' := HeadTail(p, dead), HeadTail(p', dead');
    assert PlanOps(p) + dead == Flat(p.pre) + tail && PlanOps(p') + dead' == Flat(p'.pre) + tail';
    ReadingIsUnique(p.pre, tail, p'.pre, tail');
    assert tail[0] == tail'[0];
    var end, end' := [p.last] + dead, [p'.last] + dead';
    if p.post.Some? {
      ConsInjective(Label, Flat(p.post.value) + end, Label, Flat(p'.post.value) + end');
      ReadingIsUnique(p.post.value, end, p'.post.value, end');
    }
    ConsInjective(p.last, dead, p'.last, dead');
  }

  /** What follows the first block. */
  function HeadTail(p: Plan, dead: seq<SourceOp>): seq<SourceOp> {
    if p.post.Some? then [Label] + (Flat(p.post.value) + ([p.last] + dead)) else [p.last] + dead
  }

  /** Why ambiguous operands are excluded: this accepted plan asks for a heartbeat with mode 2^48 - 1, and the
      machine sends the registered mode instead. */
  lemma AmbiguousPlanMisread(fw: Firmware)
    ensures var ops := [Heartbeat(Number(TWO48 - 1)), End];
            && Accepts(ops)
            && Narrow(Compile(ops, START).value.rows)
            && Run(Compile(ops, START).value.rows, fw, Boot(0), 1).trace == [HeartbeatSent(0)]
            && var p := Plan(Op(Heartbeat(Number(TWO48 - 1)), Nil), None, End);
               WellFormed(p) && SourceRun(p, fw, 0, 0).trace == [HeartbeatSent(TWO48 - 1)]
  {
    hide Compile, Run, ModeBits.SourceMode;
    var h := Heartbeat(Number(TWO48 - 1));
    var rows := AmbiguousRows();
    RunOne(rows, fw, Boot(0));
    assert Tick(rows, fw, Boot(0)).trace == [HeartbeatSent(0)];
    assert PlainBlock(Op(h, Nil)) by { assert PlainBlock(Nil); }
    assert Exec(Op(h, Nil), fw, 0).trace == [HeartbeatSent(TWO48 - 1)] + [];
  }

  lemma AmbiguousRows() returns (rows: seq<Row>)
    ensures rows == [Row(HEARTBEAT, TWO48 - 1), Row(END, 0)]
    ensures var r := Compile([Heartbeat(Number(TWO48 - 1)), End], START); r.Ok? && r.value.rows == rows && r.value.ended
  {
    hide Compile;
    var h := Heartbeat(Number(TWO48 - 1));
    assert [h, End] == [h] + [End];
    rows := [Row(HEARTBEAT, TWO48 - 1), Row(END, 0)];
    var st1 := START.Add([rows[0]]);
    CompileOne(h, START);
    CompileThen([h], [End], START, st1);
    CompileOne(End, st1);
    assert st1.rows + [rows[1]] == rows;
  }
}
