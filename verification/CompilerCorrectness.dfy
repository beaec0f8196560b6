/** Compilation preserves meaning: the machine running an accepted plan produces the effects of the
    source read as nested loops, pass after pass. */
module CompilerCorrectness {
  import opened Words
  import opened RunPlan
  import opened RowMachine
  import ModeBits

  // ----- Runs -----

  lemma {:induction false} RunAdd(rows: seq<Row>, fw: Firmware, m: Machine, j: nat, k: nat)
    requires Narrow(rows)
    ensures Run(rows, fw, m, j + k) == Run(rows, fw, Run(rows, fw, m, j), k)
    decreases j
  {
    hide Tick, Narrow;
    if j != 0 { RunAdd(rows, fw, Tick(rows, fw, m), j - 1, k); }
  }

  lemma RunOne(rows: seq<Row>, fw: Firmware, m: Machine)
    requires Narrow(rows)
    ensures Run(rows, fw, m, 1) == Tick(rows, fw, m)
  {
    assert Run(rows, fw, Tick(rows, fw, m), 0) == Tick(rows, fw, m);
  }

  /** `part` stands in the plan from row a on. */
  predicate Placed(rows: seq<Row>, a: nat, part: seq<Row>) {
    a + |part| <= |rows| && forall i: nat | i < |part| :: rows[a + i] == part[i]
  }

  lemma PlacedSplit(rows: seq<Row>, a: nat, p: seq<Row>, q: seq<Row>)
    requires Placed(rows, a, p + q)
    ensures Placed(rows, a, p) && Placed(rows, a + |p|, q)
  {
    forall i: nat | i < |p| ensures rows[a + i] == p[i] { assert (p + q)[i] == p[i]; }
    forall i: nat | i < |q| ensures rows[a + |p| + i] == q[i] {
      assert (p + q)[|p| + i] == q[i];
      assert rows[a + (|p| + i)] == q[i];
    }
  }

  /** The state after a stretch that ends at row `pc`. */
  function After(m: Machine, pc: nat, o: Outcome): Machine {
    m.(pc := pc, mode := o.mode, trace := m.trace + o.trace)
  }

  lemma AfterTwice(m: Machine, pc: nat, o: Outcome, pc': nat, o': Outcome)
    ensures After(After(m, pc, o), pc', o') == After(m, pc', Outcome(o'.mode, o.trace + o'.trace))
  {
    assert m.trace + o.trace + o'.trace == m.trace + (o.trace + o'.trace);
  }

  /** Rows without control flow run one after the other. */
  lemma {:induction false} StraightRuns(rows: seq<Row>, fw: Firmware, m: Machine, part: seq<Row>)
    requires Narrow(rows) && Narrow(part) && !m.halted && Placed(rows, m.pc, part)
    requires forall k | 0 <= k < |part| :: !IsFlow(part[k].op)
    ensures Run(rows, fw, m, |part|) ==
            After(m, m.pc + |part|, Outcome(ModeBits.RowsMode(part, m.mode), RowsEffect(part, m.mode)))
    decreases part
  {
    if part == [] {
      assert m.trace + [] == m.trace;
    } else {
      var r := part[0];
      assert rows[m.pc + 0] == r;
      var m1 := Tick(rows, fw, m);
      assert m1 == After(m, m.pc + 1, Outcome(ModeBits.RowMode(r, m.mode), RowEffect(r, m.mode)));
      assert part == [r] + part[1..];
      PlacedSplit(rows, m.pc, [r], part[1..]);
      StraightRuns(rows, fw, m1, part[1..]);
      AfterTwice(m, m.pc + 1, Outcome(ModeBits.RowMode(r, m.mode), RowEffect(r, m.mode)), m.pc + |part|,
                 Outcome(ModeBits.RowsMode(part[1..], m1.mode), RowsEffect(part[1..], m1.mode)));
    }
  }

  lemma PlainRowsAreStraight(op: SourceOp)
    requires IsPlain(op)
    ensures forall k | 0 <= k < |PlainRows(op)| :: !IsFlow(PlainRows(op)[k].op)
  {
  }

  lemma OpRuns(rows: seq<Row>, fw: Firmware, m: Machine, op: SourceOp)
    requires Narrow(rows) && !m.halted && m.mode < TWO48
    requires IsPlain(op) && !Ambiguous(op) && Placed(rows, m.pc, PlainRows(op))
    ensures Run(rows, fw, m, |PlainRows(op)|) ==
            After(m, m.pc + |PlainRows(op)|, Outcome(ModeBits.SourceMode(op, m.mode), SourceEffect(op, m.mode)))
  {
    PlainRowsAreStraight(op);
    PlainRowsAreNarrow(op);
    StraightRuns(rows, fw, m, PlainRows(op));
    ModeBits.CompiledModeIsSourceMode(op, m.mode);
    RowMeansOp(op);
  }

  lemma {:induction false} ExecKeepsMode(b: Block, fw: Firmware, mode: nat)
    requires mode < TWO48
    ensures Exec(b, fw, mode).mode < TWO48
    decreases b, 0, 0
  {
    match b {
      case Nil =>
      case Op(op, rest) => ExecKeepsMode(rest, fw, ModeBits.SourceMode(op, mode));
      case Nest(n, body, rest) =>
        ExecTimesKeepsMode(body, fw, 1 + fw(n % TWO48), mode);
        ExecKeepsMode(rest, fw, ExecTimes(body, fw, 1 + fw(n % TWO48), mode).mode);
    }
  }

  lemma {:induction false} ExecTimesKeepsMode(body: Block, fw: Firmware, n: nat, mode: nat)
    requires mode < TWO48
    ensures ExecTimes(body, fw, n, mode).mode < TWO48
    decreases body, 1, n
  {
    if n != 0 {
      ExecKeepsMode(body, fw, mode);
      ExecTimesKeepsMode(body, fw, n - 1, Exec(body, fw, mode).mode);
    }
  }

  // ----- A block of rows does what the block of source lines says -----

  lemma {:induction false} BlockRuns(rows: seq<Row>, fw: Firmware, m: Machine, b: Block) returns (steps: nat)
    requires Narrow(rows) && |rows| <= TWO48 && !m.halted && m.mode < TWO48
    requires PlainBlock(b) && ClearBlock(b) && Placed(rows, m.pc, BlockRows(b))
    ensures Run(rows, fw, m, steps) == After(m, m.pc + |BlockRows(b)|, Exec(b, fw, m.mode))
    decreases b, 0, 0
  {
    hide Tick, RowsEffect, RowEffect, Placed, Narrow, Run, SourceEffect, PlainRows, ModeBits.SourceMode, Ambiguous;
    RunNone(rows, fw, m);
    match b {
      case Nil =>
        steps := 0;
        assert m.trace + [] == m.trace;
      case Op(op, rest) =>
        var first := PlainRows(op);
        PlacedSplit(rows, m.pc, first, BlockRows(rest));
        OpRuns(rows, fw, m, op);
        var o := Outcome(ModeBits.SourceMode(op, m.mode), SourceEffect(op, m.mode));
        var m1 := After(m, m.pc + |first|, o);
        var more := BlockRuns(rows, fw, m1, rest);
        steps := |first| + more;
        RunAdd(rows, fw, m, |first|, more);
        AfterTwice(m, m.pc + |first|, o, m.pc + |BlockRows(b)|, Exec(rest, fw, o.mode));
      case Nest(n, body, rest) =>
        var inner := BlockRows(body);
        var open, close := MakeRow(LOOP, n), MakeRow(DO_LOOP, |inner| + 1);
        assert BlockRows(b) == [open] + (inner + [close] + BlockRows(rest));
        PlacedSplit(rows, m.pc, [open], inner + [close] + BlockRows(rest));
        PlacedSplit(rows, m.pc + 1, inner + [close], BlockRows(rest));
        var m1 := m.(pc := m.pc + 1, counters := m.counters + [fw(open.param)]);
        assert Run(rows, fw, m, 1) == m1 by { LoopTick(rows, fw, m, n); }
        var turns := LoopRuns(rows, fw, m1, body, m.counters, fw(open.param));
        RunAdd(rows, fw, m, 1, turns);
        var o := ExecTimes(body, fw, 1 + fw(n % TWO48), m.mode);
        ExecTimesKeepsMode(body, fw, 1 + fw(n % TWO48), m.mode);
        var pc2 := m.pc + |inner| + 2;
        assert Run(rows, fw, m, 1 + turns) == After(m, pc2, o);
        var more := BlockRuns(rows, fw, After(m, pc2, o), rest);
        steps := 1 + turns + more;
        RunAdd(rows, fw, m, 1 + turns, more);
        AfterTwice(m, pc2, o, m.pc + |BlockRows(b)|, Exec(rest, fw, o.mode));
    }
  }

  lemma RunNone(rows: seq<Row>, fw: Firmware, m: Machine)
    requires Narrow(rows)
    ensures Run(rows, fw, m, 0) == m
  {
  }

  lemma LoopTick(rows: seq<Row>, fw: Firmware, m: Machine, n: u64)
    requires Narrow(rows) && !m.halted && Placed(rows, m.pc, [MakeRow(LOOP, n)])
    ensures Run(rows, fw, m, 1) == m.(pc := m.pc + 1, counters := m.counters + [fw(n % TWO48)])
  {
    assert [MakeRow(LOOP, n)][0] == rows[m.pc + 0];
    RunOne(rows, fw, m);
  }

  /** DO_LOOP with its counter on top: back to the row after the LOOP, or on. */
  lemma DoLoopTick(rows: seq<Row>, fw: Firmware, m: Machine, k: nat, outer: seq<nat>, left: nat)
    requires Narrow(rows) && |rows| <= TWO48 && !m.halted && Placed(rows, m.pc, [MakeRow(DO_LOOP, k)])
    requires 0 < k <= m.pc && m.counters == outer + [left]
    ensures Run(rows, fw, m, 1) ==
            if left > 0 then m.(pc := m.pc - k + 1, counters := outer + [left - 1])
            else m.(pc := m.pc + 1, counters := outer)
  {
    assert [MakeRow(DO_LOOP, k)][0] == rows[m.pc + 0];
    RunOne(rows, fw, m);
    var n := |m.counters|;
    assert m.counters[n - 1] == left && m.counters[..n - 1] == outer;
    if left > 0 { assert m.counters[n - 1 := left - 1] == outer + [left - 1]; }
  }

  /** From the first row of a body with `left` passes still armed, to the row after its DO_LOOP. */
  lemma {:induction false} LoopRuns(rows: seq<Row>, fw: Firmware, m: Machine, body: Block, outer: seq<nat>, left: nat)
    returns (steps: nat)
    requires Narrow(rows) && |rows| <= TWO48 && !m.halted && m.mode < TWO48 && m.pc > 0
    requires PlainBlock(body) && ClearBlock(body) && m.counters == outer + [left]
    requires Placed(rows, m.pc, BlockRows(body) + [MakeRow(DO_LOOP, |BlockRows(body)| + 1)])
    ensures Run(rows, fw, m, steps) ==
            After(m, m.pc + |BlockRows(body)| + 1, ExecTimes(body, fw, 1 + left, m.mode)).(counters := outer)
    decreases body, 1, left
  {
    hide Tick, Placed, Narrow, BlockRows, Exec, PlainBlock, ClearBlock, MakeRow;
    var inner := BlockRows(body);
    var close := MakeRow(DO_LOOP, |inner| + 1);
    PlacedSplit(rows, m.pc, inner, [close]);
    var once := BlockRuns(rows, fw, m, body);
    var o := Exec(body, fw, m.mode);
    ExecKeepsMode(body, fw, m.mode);
    var m1 := After(m, m.pc + |inner|, o);
    DoLoopTick(rows, fw, m1, |inner| + 1, outer, left);
    RunAdd(rows, fw, m, once, 1);
    var rest := ExecTimes(body, fw, left, o.mode);
    var end := m.pc + |inner| + 1;
    if left > 0 {
      var m2 := m1.(pc := m.pc, counters := outer + [left - 1]);
      var more := LoopRuns(rows, fw, m2, body, outer, left - 1);
      steps := once + 1 + more;
      RunAdd(rows, fw, m, once + 1, more);
      AfterTwice(m, m.pc + |inner|, o, end, rest);
    } else {
      steps := once + 1;
      assert o.trace + rest.trace == o.trace;
    }
  }
}
