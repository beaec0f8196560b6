/** Loops, labels and jumps of a compiled plan: what the loop stack guarantees about the rows. */
module LoopNesting {
  import opened Words
  import opened Outcomes
  import opened RunPlan

  // ----- Nesting depth of rows -----

  function Weight(r: Row): int {
    if r.op == LOOP then 1 else if r.op == DO_LOOP then -1 else 0
  }

  /** LOOPs minus DO_LOOPs in the first k rows. */
  function Depth(rows: seq<Row>, k: nat): int
    requires k <= |rows|
  {
    if k == 0 then 0 else Depth(rows, k - 1) + Weight(rows[k - 1])
  }

  /** Rows [i, j) form properly nested loops. */
  predicate Balanced(rows: seq<Row>, i: nat, j: nat) {
    && i <= j <= |rows|
    && Depth(rows, j) == Depth(rows, i)
    && forall k: nat | i <= k <= j :: Depth(rows, k) >= Depth(rows, i)
  }

  /** The LOOP in row l and the DO_LOOP in row d are a pair of brackets. */
  predicate Matches(rows: seq<Row>, l: nat, d: nat) {
    && l < d < |rows|
    && rows[l].op == LOOP && rows[d].op == DO_LOOP
    && Balanced(rows, l + 1, d)
  }

  lemma {:induction false} DepthAppend(rows: seq<Row>, more: seq<Row>, k: nat)
    requires k <= |rows|
    ensures Depth(rows + more, k) == Depth(rows, k)
  {
    if k != 0 { DepthAppend(rows, more, k - 1); }
  }

  lemma BalancedAppend(rows: seq<Row>, more: seq<Row>, i: nat, j: nat)
    requires Balanced(rows, i, j)
    ensures Balanced(rows + more, i, j)
  {
    forall k: nat | k <= j ensures Depth(rows + more, k) == Depth(rows, k) {
      DepthAppend(rows, more, k);
    }
  }

  lemma BalancedEmpty(rows: seq<Row>, i: nat)
    requires i <= |rows|
    ensures Balanced(rows, i, i)
  {
  }

  lemma BalancedJoin(rows: seq<Row>, i: nat, j: nat, k: nat)
    requires Balanced(rows, i, j) && Balanced(rows, j, k)
    ensures Balanced(rows, i, k)
  {
  }

  lemma BalancedNeutral(rows: seq<Row>, i: nat)
    requires i < |rows| && Weight(rows[i]) == 0
    ensures Balanced(rows, i, i + 1)
  {
  }

  lemma BalancedLoop(rows: seq<Row>, l: nat, d: nat)
    requires Matches(rows, l, d)
    ensures Balanced(rows, l, d + 1)
  {
    forall k: nat | l <= k <= d + 1 ensures Depth(rows, k) >= Depth(rows, l) {
      if l < k <= d { assert Depth(rows, k) >= Depth(rows, l + 1); }
    }
  }

  lemma MatchDepth(rows: seq<Row>, l: nat, d: nat)
    requires Matches(rows, l, d)
    ensures Depth(rows, l + 1) == Depth(rows, d) == Depth(rows, l) + 1
    ensures forall k: nat | l < k <= d :: Depth(rows, k) > Depth(rows, l)
    ensures Depth(rows, d + 1) == Depth(rows, l)
  {
  }

  /** A DO_LOOP closes one LOOP only ... */
  lemma MatchIsUnique(rows: seq<Row>, l: nat, l': nat, d: nat)
    requires Matches(rows, l, d) && Matches(rows, l', d)
    ensures l == l'
  {
    MatchDepth(rows, l, d);
    MatchDepth(rows, l', d);
  }

  /** ... and two pairs never cross: one lies inside the other or beside it. */
  lemma MatchesNeverCross(rows: seq<Row>, l: nat, d: nat, l': nat, d': nat)
    requires Matches(rows, l, d) && Matches(rows, l', d') && l < l'
    ensures d' < d || d < l'
  {
    MatchDepth(rows, l, d);
    MatchDepth(rows, l', d');
  }

  // ----- The loop stack -----

  /** The stack lists exactly the LOOP rows still open among the first n rows, innermost last. */
  predicate StackListsOpenLoops(rows: seq<Row>, n: nat, stack: seq<nat>)
    requires n <= |rows|
    decreases |stack|
  {
    if stack == [] then Balanced(rows, 0, n)
    else
      var top := stack[|stack| - 1];
      && 1 <= top <= n
      && rows[top - 1].op == LOOP
      && Balanced(rows, top, n)
      && StackListsOpenLoops(rows, top - 1, stack[..|stack| - 1])
  }

  lemma {:induction false} StackAppend(rows: seq<Row>, more: seq<Row>, n: nat, stack: seq<nat>)
    requires n <= |rows| && StackListsOpenLoops(rows, n, stack)
    ensures StackListsOpenLoops(rows + more, n, stack)
    decreases |stack|
  {
    if stack == [] {
      BalancedAppend(rows, more, 0, n);
    } else {
      var top := stack[|stack| - 1];
      BalancedAppend(rows, more, top, n);
      StackAppend(rows, more, top - 1, stack[..|stack| - 1]);
    }
  }

  lemma {:induction false} StackExtend(rows: seq<Row>, n: nat, n': nat, stack: seq<nat>)
    requires n <= |rows| && StackListsOpenLoops(rows, n, stack) && Balanced(rows, n, n')
    ensures StackListsOpenLoops(rows, n', stack)
  {
    BalancedJoin(rows, if stack == [] then 0 else stack[|stack| - 1], n, n');
  }

  /** The depth is the height of the stack, and no prefix is deeper in the negative. */
  lemma {:induction false} StackHeight(rows: seq<Row>, n: nat, stack: seq<nat>)
    requires n <= |rows| && StackListsOpenLoops(rows, n, stack)
    ensures Depth(rows, n) == |stack|
    ensures forall k: nat | k <= n :: Depth(rows, k) >= 0
    decreases |stack|
  {
    if stack != [] {
      var top := stack[|stack| - 1];
      StackHeight(rows, top - 1, stack[..|stack| - 1]);
      assert Depth(rows, top) == Depth(rows, top - 1) + 1;
    }
  }

  // ----- What every compiled plan satisfies -----

  predicate EndsPlan(i: Instr) { i == REPEAT || i == END || i == GOTO }

  /** Each DO_LOOP goes back exactly to the LOOP it closes. */
  predicate DoLoopsGoBack(rows: seq<Row>) {
    forall d: nat | d < |rows| && rows[d].op == DO_LOOP :: rows[d].param <= d && Matches(rows, d - rows[d].param, d)
  }

  /** Each GOTO names an earlier row, counted from 1, and that row is a label. */
  predicate GotosNameLabel(rows: seq<Row>) {
    forall g: nat | g < |rows| && rows[g].op == GOTO ::
      1 <= rows[g].param <= g && rows[rows[g].param - 1] == Row(NOOP, 1)
  }

  /** Loops are closed at END, REPEAT, GOTO and LABEL; no prefix closes more than it opens. */
  predicate ClosedAtControl(rows: seq<Row>) {
    && (forall k: nat | k <= |rows| :: Depth(rows, k) >= 0)
    && (forall k: nat | k < |rows| && (EndsPlan(rows[k].op) || rows[k].op == NOOP) :: Depth(rows, k) == 0)
  }

  predicate AtMostOneLabel(rows: seq<Row>) {
    forall j: nat, k: nat | j < |rows| && k < |rows| && rows[j].op == NOOP && rows[k].op == NOOP :: j == k
  }

  predicate HasEnd(rows: seq<Row>) {
    exists k: nat :: k < |rows| && EndsPlan(rows[k].op)
  }

  /** The binary has no source-only opcode. */
  predicate MachineOpcodes(rows: seq<Row>) {
    forall k: nat | k < |rows| :: MachineOpcode(rows[k])
  }

  predicate MachineOpcode(r: Row) {
    r.op !in {LABEL, CLEAR_MODE_BITS, SET_MODE_BITS, SET_MODE, INVALID} && r.param < TWO48
  }

  /** The compiler's invariant.  Row numbers travel in 48-bit parameters, so jumps are exact while the
      plan has at most 2^48 rows. */
  predicate Invariant(st: State) {
    && StackListsOpenLoops(st.rows, |st.rows|, st.loopStack)
    && ClosedAtControl(st.rows)
    && MachineOpcodes(st.rows)
    && (st.ended <==> HasEnd(st.rows))
    && st.labels.Keys <= {MAIN_GOTO_LABEL}
    && (MAIN_GOTO_LABEL in st.labels ==>
          var n := st.labels[MAIN_GOTO_LABEL]; 1 <= n <= |st.rows| && st.rows[n - 1] == Row(NOOP, 1))
    && (forall k: nat | k < |st.rows| && st.rows[k].op == NOOP ::
          MAIN_GOTO_LABEL in st.labels && st.labels[MAIN_GOTO_LABEL] == k + 1)
    && (|st.rows| <= TWO48 ==> DoLoopsGoBack(st.rows) && GotosNameLabel(st.rows))
  }

  // Rows added at the end disturb nothing said about earlier rows.

  lemma ClosedAppend(rows: seq<Row>, r: Row)
    requires ClosedAtControl(rows) && Depth(rows, |rows|) + Weight(r) >= 0
    requires EndsPlan(r.op) || r.op == NOOP ==> Depth(rows, |rows|) == 0
    ensures ClosedAtControl(rows + [r])
  {
    var rows' := rows + [r];
    forall k: nat | k <= |rows| ensures Depth(rows', k) == Depth(rows, k) {
      DepthAppend(rows, [r], k);
    }
    assert rows'[|rows|] == r;
    forall k: nat | k < |rows| ensures rows'[k] == rows[k] {}
  }

  lemma DoLoopsAppend(rows: seq<Row>, r: Row)
    requires DoLoopsGoBack(rows)
    requires r.op == DO_LOOP ==> r.param <= |rows| && Matches(rows + [r], |rows| - r.param, |rows|)
    ensures DoLoopsGoBack(rows + [r])
  {
    var rows' := rows + [r];
    forall d: nat | d < |rows'| && rows'[d].op == DO_LOOP
      ensures rows'[d].param <= d && Matches(rows', d - rows'[d].param, d)
    {
      if d < |rows| {
        assert rows'[d] == rows[d];
        BalancedAppend(rows, [r], d - rows[d].param + 1, d);
      }
    }
  }

  lemma GotosAppend(rows: seq<Row>, r: Row)
    requires GotosNameLabel(rows)
    requires r.op == GOTO ==> 1 <= r.param <= |rows| && rows[r.param - 1] == Row(NOOP, 1)
    ensures GotosNameLabel(rows + [r])
  {
    var rows' := rows + [r];
    forall g: nat | g < |rows'| && rows'[g].op == GOTO
      ensures 1 <= rows'[g].param <= g && rows'[rows'[g].param - 1] == Row(NOOP, 1)
    {
      if g < |rows| { assert rows'[g] == rows[g]; }
    }
  }

  lemma EndAppend(rows: seq<Row>, r: Row)
    ensures HasEnd(rows + [r]) <==> HasEnd(rows) || EndsPlan(r.op)
  {
    var rows' := rows + [r];
    assert rows'[|rows|] == r;
    if HasEnd(rows) {
      var k: nat :| k < |rows| && EndsPlan(rows[k].op);
      assert EndsPlan(rows'[k].op);
    }
    if HasEnd(rows') {
      var k: nat :| k < |rows'| && EndsPlan(rows'[k].op);
      if k < |rows| { assert EndsPlan(rows[k].op); }
    }
  }

  lemma RowsAppend(rows: seq<Row>, r: Row)
    requires ClosedAtControl(rows) && Depth(rows, |rows|) + Weight(r) >= 0
    requires EndsPlan(r.op) || r.op == NOOP ==> Depth(rows, |rows|) == 0
    ensures ClosedAtControl(rows + [r])
    ensures DoLoopsGoBack(rows) && r.op != DO_LOOP ==> DoLoopsGoBack(rows + [r])
    ensures GotosNameLabel(rows) && r.op != GOTO ==> GotosNameLabel(rows + [r])
    ensures HasEnd(rows + [r]) <==> HasEnd(rows) || EndsPlan(r.op)
    ensures MachineOpcodes(rows) && MachineOpcode(r) ==> MachineOpcodes(rows + [r])
  {
    ClosedAppend(rows, r);
    EndAppend(rows, r);
    if DoLoopsGoBack(rows) && r.op != DO_LOOP { DoLoopsAppend(rows, r); }
    if GotosNameLabel(rows) && r.op != GOTO { GotosAppend(rows, r); }
  }

  lemma InvariantAtStart()
    ensures Invariant(START)
  {
  }

  /** Adding a row that is no loop, label or jump. */
  lemma NeutralRow(st: State, r: Row)
    requires Invariant(st) && MachineOpcode(r)
    requires r.op !in {LOOP, DO_LOOP, NOOP, GOTO} && (EndsPlan(r.op) ==> st.loopStack == [])
    ensures Invariant(st.(ended := st.ended || EndsPlan(r.op)).Add([r]))
  {
    hide DoLoopsGoBack, GotosNameLabel, ClosedAtControl, HasEnd, MachineOpcodes, Balanced, Depth;
    var n := |st.rows|;
    StackHeight(st.rows, n, st.loopStack);
    RowsAppend(st.rows, r);
    StackAppend(st.rows, [r], n, st.loopStack);
    BalancedNeutral(st.rows + [r], n);
    StackExtend(st.rows + [r], n, n + 1, st.loopStack);
  }

  /** A LOOP row opens one more. */
  lemma PushKeepsStack(rows: seq<Row>, r: Row, stack: seq<nat>)
    requires StackListsOpenLoops(rows, |rows|, stack) && r.op == LOOP
    ensures StackListsOpenLoops(rows + [r], |rows| + 1, stack + [1 + |rows|])
  {
    hide Balanced;
    StackAppend(rows, [r], |rows|, stack);
    BalancedEmpty(rows + [r], |rows| + 1);
    assert (stack + [1 + |rows|])[..|stack|] == stack;
  }

  /** A DO_LOOP row closes the innermost open loop: it matches its LOOP, and the others stay open. */
  lemma PopKeepsStack(rows: seq<Row>, r: Row, stack: seq<nat>)
    requires stack != [] && StackListsOpenLoops(rows, |rows|, stack) && r.op == DO_LOOP
    ensures var top := stack[|stack| - 1];
            && 0 < top <= |rows| && Matches(rows + [r], top - 1, |rows|)
            && StackListsOpenLoops(rows + [r], |rows| + 1, stack[..|stack| - 1])
  {
    var n, top, rest := |rows|, stack[|stack| - 1], stack[..|stack| - 1];
    hide Balanced;
    BalancedAppend(rows, [r], top, n);
    assert Matches(rows + [r], top - 1, n);
    BalancedLoop(rows + [r], top - 1, n);
    StackAppend(rows, [r], top - 1, rest);
    StackExtend(rows + [r], top - 1, n + 1, rest);
  }

  /** The jump distance fits the row. */
  lemma BackJump(n: nat, top: nat)
    requires 0 < top <= n < TWO48
    ensures MakeRow(DO_LOOP, (1 + n - top) % TWO64).param == n - (top - 1)
  {
  }

  /** The invariant, from what it says of the rows and the stack, when the new row is no label and no end. */
  lemma RowKeepsInvariant(st: State, r: Row, stack: seq<nat>)
    requires Invariant(st) && r.op != NOOP && !EndsPlan(r.op)
    requires var rows := st.rows + [r];
             && StackListsOpenLoops(rows, |rows|, stack) && ClosedAtControl(rows) && MachineOpcodes(rows)
             && (HasEnd(rows) <==> HasEnd(st.rows))
             && (|rows| <= TWO48 ==> DoLoopsGoBack(rows) && GotosNameLabel(rows))
    ensures Invariant(st.(loopStack := stack).Add([r]))
  {
    hide DoLoopsGoBack, GotosNameLabel, ClosedAtControl, HasEnd, MachineOpcodes, StackListsOpenLoops, EndsPlan;
  }

  lemma LoopRow(st: State, count: nat)
    requires Invariant(st)
    ensures Invariant(st.(loopStack := st.loopStack + [st.Line()]).Add([MakeRow(LOOP, count)]))
  {
    hide DoLoopsGoBack, GotosNameLabel, ClosedAtControl, HasEnd, MachineOpcodes, Balanced, Depth, Matches;
    var r := MakeRow(LOOP, count);
    StackHeight(st.rows, |st.rows|, st.loopStack);
    PushKeepsStack(st.rows, r, st.loopStack);
    hide StackListsOpenLoops;
    RowsAppend(st.rows, r);
    RowKeepsInvariant(st, r, st.loopStack + [st.Line()]);
  }

  lemma PopKeepsInvariant(st: State, r: Row)
    requires Invariant(st) && st.loopStack != [] && r.op == DO_LOOP && MachineOpcode(r)
    requires |st.rows| < TWO48 ==> r.param == |st.rows| + 1 - st.loopStack[|st.loopStack| - 1]
    ensures Invariant(st.(loopStack := st.loopStack[..|st.loopStack| - 1]).Add([r]))
  {
    hide DoLoopsGoBack, GotosNameLabel, ClosedAtControl, HasEnd, MachineOpcodes, Balanced, Depth, Matches;
    StackHeight(st.rows, |st.rows|, st.loopStack);
    PopKeepsStack(st.rows, r, st.loopStack);
    hide StackListsOpenLoops;
    RowsAppend(st.rows, r);
    if |st.rows| < TWO48 { DoLoopsAppend(st.rows, r); }
    RowKeepsInvariant(st, r, st.loopStack[..|st.loopStack| - 1]);
  }

  lemma DoLoopRow(st: State)
    requires Invariant(st) && st.loopStack != []
    ensures Invariant(Step(DoLoop, st).value)
  {
    hide DoLoopsGoBack, GotosNameLabel, ClosedAtControl, HasEnd, MachineOpcodes, Balanced, Depth;
    var top := st.loopStack[|st.loopStack| - 1];
    var r := MakeRow(DO_LOOP, (st.Line() - top) % TWO64);
    if |st.rows| < TWO48 {
      assert 0 < top <= |st.rows|;
      BackJump(|st.rows|, top);
    }
    PopKeepsInvariant(st, r);
    assert Step(DoLoop, st) == Ok(st.(loopStack := st.loopStack[..|st.loopStack| - 1]).Add([r])) by {
      hide Invariant, PlainRows;
    }
  }

  lemma GotoRow(st: State)
    requires Invariant(st) && st.loopStack == [] && MAIN_GOTO_LABEL in st.labels
    ensures Invariant(Step(Goto, st).value)
  {
    hide DoLoopsGoBack, GotosNameLabel, ClosedAtControl, HasEnd, MachineOpcodes, Balanced, Depth;
    var n := |st.rows|;
    var r := MakeRow(GOTO, st.labels[MAIN_GOTO_LABEL]);
    var rows' := st.rows + [r];
    StackHeight(st.rows, n, st.loopStack);
    RowsAppend(st.rows, r);
    StackAppend(st.rows, [r], n, []);
    BalancedNeutral(rows', n);
    StackExtend(rows', n, n + 1, []);
    if |rows'| <= TWO48 { GotosAppend(st.rows, r); }
  }

  lemma LabelRow(st: State)
    requires Invariant(st) && st.loopStack == [] && MAIN_GOTO_LABEL !in st.labels
    ensures Invariant(Step(Label, st).value)
  {
    hide DoLoopsGoBack, GotosNameLabel, ClosedAtControl, HasEnd, MachineOpcodes, Balanced, Depth;
    var n := |st.rows|;
    var r := MakeRow(NOOP, 1);
    StackHeight(st.rows, n, st.loopStack);
    RowsAppend(st.rows, r);
    StackAppend(st.rows, [r], n, []);
    BalancedNeutral(st.rows + [r], n);
    StackExtend(st.rows + [r], n, n + 1, []);
  }

  lemma PlainRowsAreMachineOpcodes(op: SourceOp)
    requires IsPlain(op)
    ensures var rows := PlainRows(op);
            && 1 <= |rows| <= 2
            && forall k | 0 <= k < |rows| ::
                 MachineOpcode(rows[k]) && rows[k].op !in {LOOP, DO_LOOP, NOOP, GOTO} && !EndsPlan(rows[k].op)
  {
  }

  lemma PlainStep(op: SourceOp, st: State)
    requires Invariant(st) && IsPlain(op)
    ensures Invariant(st.Add(PlainRows(op)))
  {
    hide Invariant, PlainRows;
    PlainRowsAreMachineOpcodes(op);
    var rows := PlainRows(op);
    NeutralRow(st, rows[0]);
    var st' := st.Add([rows[0]]);
    assert st.(ended := st.ended || EndsPlan(rows[0].op)) == st;
    if |rows| == 2 {
      NeutralRow(st', rows[1]);
      assert st'.(ended := st'.ended || EndsPlan(rows[1].op)) == st';
      assert rows == [rows[0], rows[1]];
      assert st.rows + [rows[0]] + [rows[1]] == st.rows + rows;
    } else {
      assert rows == [rows[0]];
    }
  }

  lemma StepKeepsInvariant(op: SourceOp, st: State)
    requires Invariant(st) && Step(op, st).Ok?
    ensures Invariant(Step(op, st).value)
  {
    hide Invariant;
    match op
    case Loop(n) => LoopRow(st, n);
    case DoLoop => DoLoopRow(st);
    case Goto => GotoRow(st);
    case Label => LabelRow(st);
    case Repeat => NeutralRow(st, MakeRow(REPEAT, 0));
    case End => NeutralRow(st, MakeRow(END, 0));
    case _ => PlainStep(op, st);
  }

  lemma {:induction false} CompileKeepsInvariant(ops: seq<SourceOp>, st: State)
    requires Invariant(st) && Compile(ops, st).Ok?
    ensures Invariant(Compile(ops, st).value)
  {
    if ops != [] {
      CompileKeepsInvariant(ops[..|ops| - 1], st);
      StepKeepsInvariant(ops[|ops| - 1], Compile(ops[..|ops| - 1], st).value);
    }
  }

  /** Every accepted plan: brackets match and do not cross, each DO_LOOP goes back to its own LOOP, loops are
      closed wherever control can leave or enter, there is at most one label, each GOTO finds it, and the
      plan has an end. */
  lemma AcceptedPlansAreWellFormed(ops: seq<SourceOp>)
    requires Accepts(ops)
    ensures var rows := Compile(ops, START).value.rows;
            && ClosedAtControl(rows) && MachineOpcodes(rows) && HasEnd(rows) && AtMostOneLabel(rows)
            && (|rows| <= TWO48 ==> DoLoopsGoBack(rows) && GotosNameLabel(rows))
  {
    InvariantAtStart();
    CompileKeepsInvariant(ops, START);
  }

  // ----- Which plans are accepted -----

  function OpWeight(op: SourceOp): int {
    if op.Loop? then 1 else if op.DoLoop? then -1 else 0
  }

  function OpDepth(ops: seq<SourceOp>, k: nat): int
    requires k <= |ops|
  {
    if k == 0 then 0 else OpDepth(ops, k - 1) + OpWeight(ops[k - 1])
  }

  predicate IsEnd(op: SourceOp) { op.Repeat? || op.End? || op.Goto? }

  predicate LabelBefore(ops: seq<SourceOp>, k: nat)
    requires k <= |ops|
  {
    exists j: nat :: j < k && ops[j].Label?
  }

  predicate EndBefore(ops: seq<SourceOp>, k: nat)
    requires k <= |ops|
  {
    exists j: nat :: j < k && IsEnd(ops[j])
  }

  /** The rules of the language, on the source alone. */
  predicate Disciplined(ops: seq<SourceOp>) {
    && (forall k: nat | k <= |ops| :: OpDepth(ops, k) >= 0)
    && (forall k: nat | k < |ops| && (IsEnd(ops[k]) || ops[k].Label?) :: OpDepth(ops, k) == 0)
    && (forall k: nat | k < |ops| && ops[k].Goto? :: LabelBefore(ops, k))
    && (forall k: nat | k < |ops| && ops[k].Label? :: !LabelBefore(ops, k))
  }

  lemma {:induction false} OpDepthAppend(ops: seq<SourceOp>, more: seq<SourceOp>, k: nat)
    requires k <= |ops|
    ensures OpDepth(ops + more, k) == OpDepth(ops, k)
  {
    if k != 0 { OpDepthAppend(ops, more, k - 1); }
  }

  lemma DisciplinedPrefix(ops: seq<SourceOp>, op: SourceOp)
    ensures var n := |ops|;
            Disciplined(ops + [op]) <==>
              && Disciplined(ops)
              && OpDepth(ops, n) + OpWeight(op) >= 0
              && (IsEnd(op) || op.Label? ==> OpDepth(ops, n) == 0)
              && (op.Goto? ==> LabelBefore(ops, n))
              && (op.Label? ==> !LabelBefore(ops, n))
    ensures LabelBefore(ops + [op], |ops| + 1) <==> LabelBefore(ops, |ops|) || op.Label?
    ensures EndBefore(ops + [op], |ops| + 1) <==> EndBefore(ops, |ops|) || IsEnd(op)
    ensures OpDepth(ops + [op], |ops| + 1) == OpDepth(ops, |ops|) + OpWeight(op)
  {
    var all := ops + [op];
    forall k: nat | k <= |ops| ensures OpDepth(all, k) == OpDepth(ops, k) {
      OpDepthAppend(ops, [op], k);
    }
    forall k: nat | k <= |ops|
      ensures LabelBefore(all, k) <==> LabelBefore(ops, k)
      ensures EndBefore(all, k) <==> EndBefore(ops, k)
    {
      assert forall j: nat | j < k :: all[j] == ops[j];
    }
    assert all[|ops|] == op;
    if Disciplined(all) {
      forall k: nat | k < |ops| ensures all[k] == ops[k] {}
      assert forall k: nat | k <= |ops| :: OpDepth(ops, k) == OpDepth(all, k) >= 0;
      assert OpDepth(all, |ops| + 1) >= 0;
    }
  }

  /** The stack, the label map and the end flag say of the source what their names promise, and the
      compiler stops exactly at the first operation that breaks the rules. */
  lemma {:induction false} CompileFollowsRules(ops: seq<SourceOp>)
    ensures Compile(ops, START).Ok? <==> Disciplined(ops)
    ensures var r := Compile(ops, START);
            r.Ok? ==>
              && |r.value.loopStack| == OpDepth(ops, |ops|)
              && (MAIN_GOTO_LABEL in r.value.labels <==> LabelBefore(ops, |ops|))
              && (r.value.ended <==> EndBefore(ops, |ops|))
  {
    if ops != [] {
      var front, op := ops[..|ops| - 1], ops[|ops| - 1];
      assert ops == front + [op];
      CompileFollowsRules(front);
      DisciplinedPrefix(front, op);
      if Compile(front, START).Ok? { StepFollowsRules(op, Compile(front, START).value); }
      hide Disciplined, Step, OpDepth, LabelBefore, EndBefore, OpWeight;
    }
  }

  /** When one operation is accepted, and what it does to the stack, the label map and the end flag. */
  lemma StepFollowsRules(op: SourceOp, st: State)
    ensures Step(op, st).Ok? <==>
              && |st.loopStack| + OpWeight(op) >= 0
              && (IsEnd(op) || op.Label? ==> |st.loopStack| == 0)
              && (op.Goto? ==> MAIN_GOTO_LABEL in st.labels)
              && (op.Label? ==> MAIN_GOTO_LABEL !in st.labels)
    ensures var r := Step(op, st);
            r.Ok? ==>
              && |r.value.loopStack| == |st.loopStack| + OpWeight(op)
              && (MAIN_GOTO_LABEL in r.value.labels <==> MAIN_GOTO_LABEL in st.labels || op.Label?)
              && (r.value.ended <==> st.ended || IsEnd(op))
  {
    hide PlainRows, MakeRow;
  }

  /** Acceptance is exactly the rules plus one operation that ends the plan; end of file itself asks nothing,
      so a loop may stay open after the last END, REPEAT or GOTO. */
  lemma AcceptedIffDisciplined(ops: seq<SourceOp>)
    ensures Accepts(ops) <==> Disciplined(ops) && EndBefore(ops, |ops|)
  {
    CompileFollowsRules(ops);
  }
}
