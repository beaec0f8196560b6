/** The event-mode operations as bit-field updates.

    The source operations are given by what they do to each of the 48 bits; the rows they are compiled to
    are given by AND and OR on whole words.  The two agree on every mode, window and value. */
module ModeBits {
  import opened Words
  import opened RunPlan

  predicate InWindow(w: BitWindow, i: nat) {
    w.start <= i < w.start + w.count
  }

  /** Bit i of the mode after the operation. */
  predicate BitAfter(op: SourceOp, mode: nat, i: nat) {
    match op
    case ClearBits(w) => !InWindow(w, i) && Bit(mode, i)
    case SetBits(w, v) => if InWindow(w, i) then Bit(v, i - w.start) else Bit(mode, i)
    case AndBits(w, v) => Bit(mode, i) && (InWindow(w, i) ==> Bit(v, i - w.start))
    case OrBits(w, v) => Bit(mode, i) || (InWindow(w, i) && Bit(v, i - w.start))
    case SetMode(v) => Bit(v, i)
    case _ => Bit(mode, i)
  }

  /** The number whose bits below n are those of the mode after the operation. */
  function CollectBits(op: SourceOp, mode: nat, n: nat): (r: nat)
    ensures r < Pow2(n)
  {
    if n == 0 then 0 else (if BitAfter(op, mode, n - 1) then Pow2(n - 1) else 0) + CollectBits(op, mode, n - 1)
  }

  /** The event mode after a source operation. */
  function SourceMode(op: SourceOp, mode: nat): (r: nat)
    ensures r < TWO48
  {
    Pow2Constants();
    CollectBits(op, mode, 48)
  }

  function RowMode(r: Row, mode: nat): nat {
    if r.op == AND_MODE_BITS then And(mode, r.param)
    else if r.op == OR_MODE_BITS then Or(mode, r.param)
    else mode
  }

  function RowsMode(rows: seq<Row>, mode: nat): nat {
    if rows == [] then mode else RowsMode(rows[1..], RowMode(rows[0], mode))
  }

  // ----- Bits of the masks -----

  lemma {:induction false} TopBit(x: nat, n: nat, i: nat)
    requires x < Pow2(n)
    ensures Bit(Pow2(n) + x, i) <==> i == n || Bit(x, i)
    ensures i >= n ==> !Bit(x, i)
  {
    if n == 0 {
      ZeroHasNoBits(i);
      SingleBit(0, i);
    } else if i != 0 {
      TopBit(x / 2, n - 1, i - 1);
      assert (Pow2(n) + x) / 2 == Pow2(n - 1) + x / 2;
    }
  }

  lemma {:induction false} CollectBitsBit(op: SourceOp, mode: nat, n: nat, i: nat)
    ensures Bit(CollectBits(op, mode, n), i) <==> i < n && BitAfter(op, mode, i)
  {
    if n == 0 {
      ZeroHasNoBits(i);
    } else {
      CollectBitsBit(op, mode, n - 1, i);
      TopBit(CollectBits(op, mode, n - 1), n - 1, i);
    }
  }

  lemma SourceModeBit(op: SourceOp, mode: nat, i: nat)
    ensures Bit(SourceMode(op, mode), i) <==> i < 48 && BitAfter(op, mode, i)
  {
    hide CollectBits, Bit, BitAfter;
    CollectBitsBit(op, mode, 48, i);
  }

  lemma {:induction false} MaskBit(start: nat, count: nat, i: nat)
    ensures Bit(Mask(start, count), i) <==> start <= i < start + count
  {
    if count == 0 {
      ZeroHasNoBits(i);
    } else {
      MaskBit(start, count - 1, i);
      TopBit(Mask(start, count - 1), start + count - 1, i);
    }
  }

  /** One turn of the mask loop: `bitmask |= 1 << i` sets exactly the next bit of the window. */
  lemma MaskStep(start: nat, n: nat)
    requires start + n < 64
    ensures Or(Mask(start, n), Shl64(1, start + n)) == Mask(start, n + 1) < TWO64
  {
    var i := start + n;
    Pow2Constants();
    hide Mask, Or, Bit;
    Pow2Monotonic(i + 1, 64);
    DivModUnique(Pow2(i), TWO64, 0, Pow2(i));
    assert Shl64(1, i) == Pow2(i);
    OrBounded(Mask(start, n), Pow2(i), i + 1);
    forall k: nat | k < i + 1
      ensures Bit(Or(Mask(start, n), Pow2(i)), k) <==> Bit(Mask(start, n + 1), k)
    {
      MaskStepBit(start, n, k);
    }
    BitsDetermine(Or(Mask(start, n), Pow2(i)), Mask(start, n + 1), i + 1);
  }

  lemma MaskStepBit(start: nat, n: nat, k: nat)
    ensures Bit(Or(Mask(start, n), Pow2(start + n)), k) <==> Bit(Mask(start, n + 1), k)
  {
    hide Mask, Or, Pow2, Bit;
    OrBit(Mask(start, n), Pow2(start + n), k);
    SingleBit(start + n, k);
    MaskBit(start, n, k);
    MaskBit(start, n + 1, k);
  }

  // ----- The rows do what the source says -----

  /** The 48-bit row parameter keeps the low bits of the computed value. */
  lemma ParamBit(op: Instr, param: nat, i: nat)
    requires i < 48
    ensures MakeRow(op, param).op == op
    ensures Bit(MakeRow(op, param).param, i) <==> Bit(param, i)
  {
    Pow2Constants();
    TruncationBit(param, 48, i);
  }

  lemma RowModeBit(r: Row, mode: nat, i: nat)
    ensures Bit(RowMode(r, mode), i) <==>
            if r.op == AND_MODE_BITS then Bit(mode, i) && Bit(r.param, i)
            else if r.op == OR_MODE_BITS then Bit(mode, i) || Bit(r.param, i)
            else Bit(mode, i)
  {
    AndBit(mode, r.param, i);
    OrBit(mode, r.param, i);
  }

  lemma WindowBits(w: Window, v: u64, i: nat)
    requires i < 48
    ensures Bit(WindowMask(w), i) <==> InWindow(w, i)
    ensures Bit(Not64(WindowMask(w)), i) <==> !InWindow(w, i)
    ensures Bit(And(Shl64(v, w.start), WindowMask(w)), i) <==> InWindow(w, i) && Bit(v, i - w.start)
    ensures Bit(Or(Shl64(v, w.start), Not64(WindowMask(w))), i) <==>
            !InWindow(w, i) || (i >= w.start && Bit(v, i - w.start))
  {
    MaskBit(w.start, w.count, i);
    Not64Bit(WindowMask(w), i);
    Shl64Bit(v, w.start, i);
    AndBit(Shl64(v, w.start), WindowMask(w), i);
    OrBit(Shl64(v, w.start), Not64(WindowMask(w)), i);
  }

  lemma OneRow(r: Row, mode: nat)
    ensures RowsMode([r], mode) == RowMode(r, mode)
  {
    assert [r][1..] == [];
  }

  lemma TwoRows(r: Row, s: Row, mode: nat)
    ensures RowsMode([r, s], mode) == RowMode(s, RowMode(r, mode))
  {
    assert [r, s][1..] == [s];
    OneRow(s, RowMode(r, mode));
  }

  lemma RowsModeBit(op: SourceOp, mode: nat, i: nat)
    requires IsPlain(op) && i < 48
    ensures Bit(RowsMode(PlainRows(op), mode), i) <==> BitAfter(op, mode, i)
  {
    hide Bit, And, Or, Shl64, Not64, WindowMask, RowMode, RowsMode;
    var rows := PlainRows(op);
    RowModeBit(rows[0], mode, i);
    OneRow(rows[0], mode);
    match op
    case ClearBits(w) =>
      WindowBits(w, 0, i);
      ParamBit(AND_MODE_BITS, Not64(WindowMask(w)), i);
    case SetBits(w, v) =>
      WindowBits(w, v, i);
      ParamBit(AND_MODE_BITS, Not64(WindowMask(w)), i);
      ParamBit(OR_MODE_BITS, And(Shl64(v, w.start), WindowMask(w)), i);
      TwoRows(rows[0], rows[1], mode);
      RowModeBit(rows[1], RowMode(rows[0], mode), i);
    case AndBits(w, v) =>
      WindowBits(w, v, i);
      ParamBit(AND_MODE_BITS, Or(Shl64(v, w.start), Not64(WindowMask(w))), i);
    case OrBits(w, v) =>
      WindowBits(w, v, i);
      ParamBit(OR_MODE_BITS, And(Shl64(v, w.start), WindowMask(w)), i);
    case SetMode(v) =>
      ZeroHasNoBits(i);
      ParamBit(AND_MODE_BITS, 0, i);
      ParamBit(OR_MODE_BITS, v, i);
      TwoRows(rows[0], rows[1], mode);
      RowModeBit(rows[1], RowMode(rows[0], mode), i);
    case _ =>
  }

  lemma RowModeBounded(r: Row, mode: nat)
    requires mode < TWO48 && r.param < TWO48
    ensures RowMode(r, mode) < TWO48
  {
    Pow2Constants();
    OrBounded(mode, r.param, 48);
  }

  lemma {:induction false} RowsModeBounded(rows: seq<Row>, mode: nat)
    requires mode < TWO48 && Narrow(rows)
    ensures RowsMode(rows, mode) < TWO48
  {
    if rows != [] {
      RowModeBounded(rows[0], mode);
      RowsModeBounded(rows[1..], RowMode(rows[0], mode));
    }
  }

  /** SET_MODE_BITS replaces its window by the low bits of the value (also when the value was written with
      '~'), AND, OR and CLEAR leave every bit outside the window alone, SET_MODE loads the value modulo 2^48
      -- on every 48-bit mode, and the result is again a 48-bit mode. */
  lemma CompiledModeIsSourceMode(op: SourceOp, mode: nat)
    requires IsPlain(op) && mode < TWO48
    ensures RowsMode(PlainRows(op), mode) == SourceMode(op, mode)
  {
    Pow2Constants();
    PlainRowsAreNarrow(op);
    hide RowsMode, PlainRows, Bit, BitAfter, Pow2, SourceMode, IsPlain;
    RowsModeBounded(PlainRows(op), mode);
    forall i: nat | i < 48 ensures Bit(RowsMode(PlainRows(op), mode), i) <==> Bit(SourceMode(op, mode), i) {
      RowsModeBit(op, mode, i);
      SourceModeBit(op, mode, i);
    }
    BitsDetermine(RowsMode(PlainRows(op), mode), SourceMode(op, mode), 48);
  }

  lemma SetModeLoads(v: u64, mode: nat)
    requires mode < TWO48
    ensures RowsMode(PlainRows(SetMode(v)), mode) == v % TWO48
  {
    CompiledModeIsSourceMode(SetMode(v), mode);
    Pow2Constants();
    hide RowsMode, PlainRows, Bit, Pow2, SourceMode;
    forall i: nat | i < 48 ensures Bit(SourceMode(SetMode(v), mode), i) <==> Bit(v % TWO48, i) {
      SourceModeBit(SetMode(v), mode, i);
      TruncationBit(v, 48, i);
    }
    BitsDetermine(SourceMode(SetMode(v), mode), v % TWO48, 48);
  }

  lemma OtherOpsKeepMode(op: SourceOp, mode: nat)
    requires mode < TWO48
    requires !op.ClearBits? && !op.SetBits? && !op.AndBits? && !op.OrBits? && !op.SetMode?
    ensures SourceMode(op, mode) == mode
  {
    Pow2Constants();
    hide Bit, Pow2, SourceMode;
    forall i: nat | i < 48 ensures Bit(SourceMode(op, mode), i) <==> Bit(mode, i) {
      SourceModeBit(op, mode, i);
    }
    BitsDetermine(SourceMode(op, mode), mode, 48);
  }
}
