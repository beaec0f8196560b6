/** The language of run plans, keyword by keyword, and a text for every operation. */
module RunPlanGrammar {
  import opened Words
  import opened Outcomes
  import opened RunPlan
  import opened RunPlanText
  import opened Numerals
  import Numbers
  import Tokenizer

  // ----- What the arguments of a line say -----

  /** The text is a number of 64 bits, this one. */
  predicate Denotes(s: string, v: nat) { ReadNumber(s, TWO64) == Ok(v) }

  predicate DenotesShort(s: string, v: nat) { ReadNumber(s, TWO16) == Ok(v) }

  predicate SpellsOperand(s: string, keyword: string, o: Operand) {
    match o
    case Keyword => s == keyword
    case Number(v) => s != keyword && Denotes(s, v)
  }

  predicate SpellsWindow(start: string, count: string, w: BitWindow) {
    DenotesShort(start, w.start) && DenotesShort(count, w.count)
  }

  /** A window must lie in the 48 bits of the mode and hold at least one of them. */
  lemma WindowIsRead(start: string, count: string, s: nat, c: nat)
    requires DenotesShort(start, s) && DenotesShort(count, c)
    ensures if s <= 47 && 0 < c && s + c <= 48 then ReadWindow(start, count) == Ok(BitWindow(s, c))
            else ReadWindow(start, count) == Err(OutOfRange)
  {
    hide ReadNumber;
  }

  /** start_bit, bit_count and value; a value that is too wide must be written as a complement. */
  predicate SpellsFields(args: seq<string>, name: string, w: BitWindow, v: u64) {
    && |args| == 7 && args[0] == name && args[1] == "start_bit" && args[3] == "bit_count" && args[5] == "value"
    && SpellsWindow(args[2], args[4], w) && Denotes(args[6], v)
    && (v < Pow2(w.count) || (args[6] != "" && args[6][0] == '~'))
  }

  predicate SpellsWait(args: seq<string>, o: Operand, ticks: Ticks) {
    && |args| == 3 && args[0] == "WAIT"
    && match o
       case Keyword => args[1] == "NEXT" && args[2] in {"clocks", "ns", "us", "ms", "s", "RF0"}
       case Number(t) =>
         && args[1] != "NEXT" && ReadNumber(args[1], TWO64).Ok?
         && var v := ReadNumber(args[1], TWO64).value;
            || (args[2] == "clocks" && t == v)
            || (args[2] == "ns" && v == 25 * t)
            || (args[2] in {"us", "ms", "s"} && t == ticks(args[1], args[2]))
  }

  /** The arguments say this operation: one line of the language for each keyword. */
  predicate Spells(args: seq<string>, op: SourceOp, ticks: Ticks) {
    match op
    case Heartbeat(o) =>
      |args| == 3 && args[0] == "HEARTBEAT" && args[1] == "event_mode" && SpellsOperand(args[2], "registered", o)
    case Marker => args == ["MARKER"]
    case DataRequest(o) =>
      |args| == 3 && args[0] == "DATA_REQUEST" && args[1] == "request_tag" && SpellsOperand(args[2], "current", o)
    case SetTag(v) => |args| == 2 && args[0] == "SET_TAG" && Denotes(args[1], v)
    case IncTag(v) =>
      || (args == ["INC_TAG"] && v == 1)
      || (|args| == 3 && args[0] == "INC_TAG" && args[1] == "add_value" && Denotes(args[2], v))
    case Wait(o) => SpellsWait(args, o, ticks)
    case Loop(v) => |args| == 2 && args[0] == "LOOP" && Denotes(args[1], v)
    case DoLoop => args == ["DO_LOOP"]
    case Repeat => args == ["REPEAT"]
    case End => args == ["END"]
    case Goto => args == ["GOTO_LABEL"]
    case Label => args == ["LABEL"]
    case ClearBits(w) =>
      && |args| == 5 && args[0] == "CLEAR_MODE_BITS" && args[1] == "start_bit" && args[3] == "bit_count"
      && SpellsWindow(args[2], args[4], w)
    case SetBits(w, v) => SpellsFields(args, "SET_MODE_BITS", w, v)
    case AndBits(w, v) => SpellsFields(args, "AND_MODE_BITS", w, v)
    case OrBits(w, v) => SpellsFields(args, "OR_MODE_BITS", w, v)
    case SetMode(v) => |args| == 2 && args[0] == "SET_MODE" && Denotes(args[1], v)
  }

  /** The name of the instruction of an operation. */
  function Name(i: Instr): string {
    match i
    case HEARTBEAT => "HEARTBEAT"
    case MARKER => "MARKER"
    case DATA_REQUEST => "DATA_REQUEST"
    case SET_TAG => "SET_TAG"
    case INC_TAG => "INC_TAG"
    case WAIT => "WAIT"
    case LOOP => "LOOP"
    case DO_LOOP => "DO_LOOP"
    case REPEAT => "REPEAT"
    case END => "END"
    case GOTO => "GOTO_LABEL"
    case LABEL => "LABEL"
    case CLEAR_MODE_BITS => "CLEAR_MODE_BITS"
    case SET_MODE_BITS => "SET_MODE_BITS"
    case AND_MODE_BITS => "AND_MODE_BITS"
    case OR_MODE_BITS => "OR_MODE_BITS"
    case SET_MODE => "SET_MODE"
    case NOOP => ""
    case INVALID => ""
  }

  lemma NameIsParsed(i: Instr)
    requires i != NOOP && i != INVALID
    ensures ParseInstruction(Name(i)) == i
  {
  }

  lemma ParsedIsName(s: string)
    ensures ParseInstruction(s) != NOOP
    ensures ParseInstruction(s) != INVALID ==> s == Name(ParseInstruction(s))
  {
  }

  lemma FlowIsSpelled(i: Instr, args: seq<string>, op: SourceOp, ticks: Ticks)
    requires i in {LOOP, DO_LOOP, REPEAT, END, GOTO, LABEL} && args != [] && args[0] == Name(i)
    ensures ReadFlow(i, args) == Ok(op) <==> Spells(args, op, ticks)
  {
    hide ReadNumber;
    NamesDiffer(i);
  }

  lemma SimpleIsSpelled(i: Instr, args: seq<string>, op: SourceOp, ticks: Ticks)
    requires i in {HEARTBEAT, MARKER, DATA_REQUEST, SET_TAG, INC_TAG, SET_MODE} && args != [] && args[0] == Name(i)
    ensures ReadSimple(i, args) == Ok(op) <==> Spells(args, op, ticks)
  {
    hide ReadNumber;
    NamesDiffer(i);
  }

  lemma BitsIsSpelled(i: Instr, args: seq<string>, op: SourceOp, ticks: Ticks)
    requires i in {SET_MODE_BITS, AND_MODE_BITS, OR_MODE_BITS, CLEAR_MODE_BITS} && args != [] && args[0] == Name(i)
    requires forall k | 0 <= k < |args| :: args[k] != ""
    ensures ReadBits(i, args) == Ok(op) <==> Spells(args, op, ticks)
  {
    hide ReadNumber, Pow2;
    NamesDiffer(i);
  }

  lemma WaitIsSpelled(args: seq<string>, op: SourceOp, ticks: Ticks)
    requires args != [] && args[0] == "WAIT"
    ensures (op.Wait? && ReadWait(args, ticks) == Ok(op.time)) <==> Spells(args, op, ticks)
  {
    hide ReadNumber;
    NamesDiffer(WAIT);
  }

  /** The names are different. */
  lemma NamesDiffer(i: Instr)
    requires i != NOOP && i != INVALID
    ensures forall j: Instr | j != NOOP && j != INVALID && Name(j) == Name(i) :: j == i
  {
    forall j: Instr | j != NOOP && j != INVALID && Name(j) == Name(i) ensures j == i {
      NameIsParsed(i);
      NameIsParsed(j);
    }
  }

  function InstrFor(op: SourceOp): (i: Instr)
    ensures i != NOOP && i != INVALID
  {
    match op
    case Heartbeat(_) => HEARTBEAT
    case Marker => MARKER
    case DataRequest(_) => DATA_REQUEST
    case SetTag(_) => SET_TAG
    case IncTag(_) => INC_TAG
    case Wait(_) => WAIT
    case Loop(_) => LOOP
    case DoLoop => DO_LOOP
    case Repeat => REPEAT
    case End => END
    case Goto => GOTO
    case Label => LABEL
    case ClearBits(_) => CLEAR_MODE_BITS
    case SetBits(_, _) => SET_MODE_BITS
    case AndBits(_, _) => AND_MODE_BITS
    case OrBits(_, _) => OR_MODE_BITS
    case SetMode(_) => SET_MODE
  }

  lemma SpelledIsNamed(args: seq<string>, op: SourceOp, ticks: Ticks)
    requires args != [] && Spells(args, op, ticks)
    ensures args[0] == Name(InstrFor(op))
  {
    hide ReadNumber, Pow2;
  }

  /** A line's arguments are read as an operation exactly when they say it. */
  lemma ReadExactly(args: seq<string>, op: SourceOp, ticks: Ticks)
    requires args != [] && forall k | 0 <= k < |args| :: args[k] != ""
    ensures ReadOp(args, ticks) == Ok(op) <==> Spells(args, op, ticks)
  {
    hide ReadNumber, ReadFlow, ReadSimple, ReadBits, ReadWait, ParseInstruction, Spells, Name, InstrFor;
    var i := ParseInstruction(args[0]);
    ParsedIsName(args[0]);
    if i in {LOOP, DO_LOOP, REPEAT, END, GOTO, LABEL} {
      FlowIsSpelled(i, args, op, ticks);
    } else if i in {HEARTBEAT, MARKER, DATA_REQUEST, SET_TAG, INC_TAG, SET_MODE} {
      SimpleIsSpelled(i, args, op, ticks);
    } else if i in {SET_MODE_BITS, AND_MODE_BITS, OR_MODE_BITS, CLEAR_MODE_BITS} {
      BitsIsSpelled(i, args, op, ticks);
    } else if i == WAIT {
      assert args[0] == "WAIT" by { WaitName(); }
      WaitIsSpelled(args, op, ticks);
    } else if Spells(args, op, ticks) {
      SpelledIsNamed(args, op, ticks);
      NameIsParsed(InstrFor(op));
    }
  }

  lemma WaitName()
    ensures Name(WAIT) == "WAIT"
  {
  }

  // ----- A text for every operation -----

  function OperandText(o: Operand, keyword: string): string {
    match o
    case Keyword => keyword
    case Number(v) => NumberText(v)
  }

  function FieldsText(name: string, w: Window, v: u64): (r: seq<string>)
    ensures |r| == 7
  {
    [name, "start_bit", Decimal(w.start), "bit_count", Decimal(w.count), "value",
     if v < Pow2(w.count) then NumberText(v) else InvertedText(v)]
  }

  /** The arguments of a line for the operation. */
  function Text(op: SourceOp): (r: seq<string>)
    ensures r != []
  {
    match op
    case Heartbeat(o) => ["HEARTBEAT", "event_mode", OperandText(o, "registered")]
    case Marker => ["MARKER"]
    case DataRequest(o) => ["DATA_REQUEST", "request_tag", OperandText(o, "current")]
    case SetTag(v) => ["SET_TAG", NumberText(v)]
    case IncTag(v) => ["INC_TAG", "add_value", NumberText(v)]
    case Wait(o) => if o.Keyword? then ["WAIT", "NEXT", "RF0"] else ["WAIT", NumberText(o.value), "clocks"]
    case Loop(v) => ["LOOP", NumberText(v)]
    case DoLoop => ["DO_LOOP"]
    case Repeat => ["REPEAT"]
    case End => ["END"]
    case Goto => ["GOTO_LABEL"]
    case Label => ["LABEL"]
    case ClearBits(w) => ["CLEAR_MODE_BITS", "start_bit", Decimal(w.start), "bit_count", Decimal(w.count)]
    case SetBits(w, v) => FieldsText("SET_MODE_BITS", w, v)
    case AndBits(w, v) => FieldsText("AND_MODE_BITS", w, v)
    case OrBits(w, v) => FieldsText("OR_MODE_BITS", w, v)
    case SetMode(v) => ["SET_MODE", NumberText(v)]
  }

  lemma NumberTextDenotes(v: u64)
    ensures Denotes(NumberText(v), v)
  {
    NumberTextIsRead(v);
    hide NumberText;
    DivModUnique(v, TWO64, 0, v);
  }

  lemma InvertedTextDenotes(v: u64)
    requires v > 0
    ensures Denotes(InvertedText(v), v) && InvertedText(v) != "" && InvertedText(v)[0] == '~'
  {
    InvertedTextIsRead(v);
    hide InvertedText;
    DivModUnique(v, TWO64, 0, v);
  }

  lemma DecimalDenotes(n: nat)
    requires n < TWO16
    ensures DenotesShort(Decimal(n), n)
  {
    hide Decimal, IsToken, Numbers.TokenValue, Numbers.NumberOf;
    DecimalIsToken(n);
    TokenIsRead(Decimal(n), TWO16);
    DivModUnique(n, TWO16, 0, n);
  }

  /** A number starts with a digit or with the complement. */
  lemma NumberTextStarts(v: u64)
    ensures NumberText(v) != "" && (NumberText(v)[0] == '~' || '0' <= NumberText(v)[0] <= '9')
  {
    DigitsAreWord(v);
    hide Decimal;
  }

  lemma FieldsSpell(name: string, w: Window, v: u64)
    ensures SpellsFields(FieldsText(name, w, v), name, w, v)
  {
    hide Denotes, DenotesShort, NumberText, InvertedText, Decimal, Pow2;
    DecimalDenotes(w.start);
    DecimalDenotes(w.count);
    if v < Pow2(w.count) { NumberTextDenotes(v); } else { InvertedTextDenotes(v); }
  }

  lemma TextSpells(op: SourceOp, ticks: Ticks)
    ensures Spells(Text(op), op, ticks)
  {
    hide Denotes, DenotesShort, NumberText, InvertedText, Decimal, FieldsText, SpellsFields, ReadNumber;
    match op
    case Heartbeat(o) => if o.Number? { NumberTextDenotes(o.value); NumberTextStarts(o.value); }
    case DataRequest(o) => if o.Number? { NumberTextDenotes(o.value); NumberTextStarts(o.value); }
    case SetTag(v) => NumberTextDenotes(v);
    case IncTag(v) => NumberTextDenotes(v);
    case Wait(o) => if o.Number? { WaitTextSpells(o.value, ticks); }
    case Loop(v) => NumberTextDenotes(v);
    case ClearBits(w) =>
      DecimalDenotes(w.start);
      DecimalDenotes(w.count);
    case SetBits(w, v) => FieldsSpell("SET_MODE_BITS", w, v);
    case AndBits(w, v) => FieldsSpell("AND_MODE_BITS", w, v);
    case OrBits(w, v) => FieldsSpell("OR_MODE_BITS", w, v);
    case SetMode(v) => NumberTextDenotes(v);
    case Marker =>
    case DoLoop =>
    case Repeat =>
    case End =>
    case Goto =>
    case Label =>
  }

  lemma WaitTextSpells(v: u64, ticks: Ticks)
    ensures SpellsWait(["WAIT", NumberText(v), "clocks"], Number(v), ticks)
  {
    NumberTextDenotes(v);
    NumberTextStarts(v);
    hide NumberText, ReadNumber;
  }

  // ----- And a line -----

  predicate IsInside(ch: char) {
    && ch != ',' && ch != ' ' && ch != '\t' && ch != ';' && ch != '=' && ch != '\n' && ch != '\r'
  }

  /** An argument as a line can hold it: no delimiter or line end in it, and no comment. */
  predicate IsArgument(s: string) {
    s != "" && s[0] != '/' && forall k | 0 <= k < |s| :: IsInside(s[k])
  }

  predicate IsLineEnd(end: string) {
    end == "" || end == "\n" || end == "\r\n"
  }

  /** Arguments written one after the other with any delimiters between them are the arguments of the line, and the line
      is no comment. */
  lemma ArgumentsAreFound(args: seq<string>, cuts: seq<char>, end: string)
    requires |args| == |cuts| + 1 && forall k | 0 <= k < |args| :: IsArgument(args[k])
    requires forall k | 0 <= k < |cuts| :: cuts[k] in {',', ' ', '\t', ';', '='}
    requires IsLineEnd(end) && |args[0]| > 1
    ensures Arguments(Tokenizer.Glue(args, cuts) + end) == args
    ensures IsComment(Tokenizer.Glue(args, cuts) + end, 0) == Ok(false)
  {
    hide IsComment, Clean;
    var pieces := Tokenizer.Extend(args, end);
    Tokenizer.GlueExtended(args, cuts, end);
    forall k | 0 <= k < |pieces| ensures Tokenizer.FreeOf(pieces[k], ARGUMENT_DELIMITERS) {
      assert IsArgument(args[k]);
    }
    Tokenizer.GlueSplits(pieces, cuts, ARGUMENT_DELIMITERS);
    TrimmedArguments(args, end);
    CleanKeeps(args, []);
    assert args + [] == args;
    FirstOfLine(args, cuts, end);
    hide IsArgument;
  }

  lemma {:induction false} TrimKeeps(args: seq<string>)
    requires forall k | 0 <= k < |args| :: IsArgument(args[k])
    ensures Tokenizer.TrimAll(args, LINE_ENDS) == args
  {
    if args != [] {
      var front, a := args[..|args| - 1], args[|args| - 1];
      TrimKeeps(front);
      assert IsArgument(a) && a[0] !in LINE_ENDS && a[|a| - 1] !in LINE_ENDS;
      assert Tokenizer.Trim(a, LINE_ENDS) == a;
    }
  }

  lemma TrimmedArguments(args: seq<string>, end: string)
    requires args != [] && forall k | 0 <= k < |args| :: IsArgument(args[k])
    requires IsLineEnd(end)
    ensures Tokenizer.TrimAll(Tokenizer.Extend(args, end), LINE_ENDS) == args
  {
    var front, a := args[..|args| - 1], args[|args| - 1];
    TrimKeeps(front);
    assert IsArgument(a);
    TrimmedEnd(a, end);
    hide Tokenizer.Trim, IsArgument;
    assert Tokenizer.Extend(args, end)[..|args| - 1] == front;
  }

  lemma TrimmedEnd(a: string, end: string)
    requires IsArgument(a) && IsLineEnd(end)
    ensures Tokenizer.Trim(a + end, LINE_ENDS) == a
  {
    assert a[0] !in LINE_ENDS && a[|a| - 1] !in LINE_ENDS;
    var b := a + end;
    assert b[0] == a[0] && Tokenizer.TrimLeft(b, LINE_ENDS) == b;
    assert Tokenizer.TrimRight(a, LINE_ENDS) == a;
    if end == "" {
      assert b == a;
    } else if end == "\n" {
      assert b[..|b| - 1] == a;
    } else {
      var c := b[..|b| - 1];
      assert c[|c| - 1] == '\r' && c[..|c| - 1] == a;
      assert Tokenizer.TrimRight(c, LINE_ENDS) == a && Tokenizer.TrimRight(b, LINE_ENDS) == a;
    }
  }

  /** Arguments are kept up to the first comment. */
  lemma {:induction false} CleanKeeps(args: seq<string>, rest: seq<string>)
    requires forall k | 0 <= k < |args| :: IsArgument(args[k])
    requires rest == [] || "//" <= rest[0]
    ensures Clean(args + rest) == args
  {
    if args == [] {
      assert args + rest == rest;
    } else {
      CleanKeeps(args[1..], rest);
      assert IsArgument(args[0]);
      assert (args + rest)[0] == args[0] && (args + rest)[1..] == args[1..] + rest;
    }
  }

  /** Delimiters next to each other, or at an end of the line, make no difference. */
  lemma {:induction false} EmptyPiecesAreDropped(front: seq<string>, back: seq<string>)
    ensures Clean(front + [""] + back) == Clean(front + back)
  {
    if front == [] {
      assert front + [""] + back == [""] + back && front + back == back;
      assert ([""] + back)[1..] == back;
    } else {
      EmptyPiecesAreDropped(front[1..], back);
      assert (front + [""] + back)[1..] == front[1..] + [""] + back;
      assert (front + back)[1..] == front[1..] + back;
    }
  }

  lemma {:induction false} FirstOfGlue(args: seq<string>, cuts: seq<char>)
    requires |args| == |cuts| + 1 && args[0] != ""
    ensures |Tokenizer.Glue(args, cuts)| >= |args[0]| && Tokenizer.Glue(args, cuts)[0] == args[0][0]
  {
    if cuts != [] { FirstOfGlue(args[..|cuts|], cuts[..|cuts| - 1]); }
  }

  lemma FirstOfLine(args: seq<string>, cuts: seq<char>, end: string)
    requires |args| == |cuts| + 1 && IsArgument(args[0]) && |args[0]| > 1
    ensures IsComment(Tokenizer.Glue(args, cuts) + end, 0) == Ok(false)
  {
    FirstOfGlue(args, cuts);
    hide Tokenizer.Glue;
  }

  // ----- Comments -----

  /** Behind blanks two slashes make a comment, one alone an error, and anything else a line. */
  lemma {:induction false} CommentsAreFound(blanks: string, rest: string)
    requires forall k | 0 <= k < |blanks| :: blanks[k] in {' ', '\t', '\r', '\n'}
    requires |rest| >= 2 && rest[0] !in {' ', '\t', '\r', '\n'}
    ensures IsComment(blanks + rest, 0)
            == if rest[0] != '/' then Ok(false) else if rest[1] == '/' then Ok(true) else Err(SingleSlash)
  {
    SkipBlanks(blanks, rest, 0);
  }

  lemma {:induction false} SkipBlanks(blanks: string, rest: string, i: nat)
    requires i <= |blanks| && |rest| >= 2
    requires forall k | 0 <= k < |blanks| :: blanks[k] in {' ', '\t', '\r', '\n'}
    ensures IsComment(blanks + rest, i) == IsComment(blanks + rest, |blanks|)
    decreases |blanks| - i
  {
    if i < |blanks| {
      SkipBlanks(blanks, rest, i + 1);
      assert (blanks + rest)[i] == blanks[i];
    }
  }

  /** A line of blanks only, and of at most one other character at its end, holds nothing. */
  lemma {:induction false} BlankLines(blanks: string, last: char)
    requires forall k | 0 <= k < |blanks| :: blanks[k] in {' ', '\t', '\r', '\n'}
    ensures IsComment(blanks + [last], 0) == Ok(true)
  {
    SkipToLast(blanks, last, 0);
  }

  lemma {:induction false} SkipToLast(blanks: string, last: char, i: nat)
    requires i <= |blanks| && forall k | 0 <= k < |blanks| :: blanks[k] in {' ', '\t', '\r', '\n'}
    ensures IsComment(blanks + [last], i) == Ok(true)
    decreases |blanks| - i
  {
    if i < |blanks| {
      SkipToLast(blanks, last, i + 1);
      assert (blanks + [last])[i] == blanks[i];
    }
  }

  // ----- Printed plans -----

  /** The line of an operation. */
  function Line(op: SourceOp): string {
    Tokenizer.Glue(Text(op), Spaces(|Text(op)| - 1)) + "\n"
  }

  lemma NamesAreLong(op: SourceOp)
    ensures |Text(op)[0]| > 1
  {
  }

  function Spaces(n: nat): (r: seq<char>)
    ensures |r| == n && forall k | 0 <= k < n :: r[k] == ' '
  {
    seq(n, i => ' ')
  }

  lemma DecimalIsArgument(n: nat)
    ensures IsArgument(Decimal(n))
  {
    hide Digits;
    DigitsAreWord(n);
  }

  lemma OperatorsAreInside()
    ensures IsInside('~') && IsInside('-')
  {
  }

  lemma ComplementIsArgument(s: string, rest: string)
    requires IsArgument(s) && (rest == "" || IsArgument(rest))
    ensures IsArgument("~" + s) && IsArgument("~" + s + "-" + rest)
  {
    var a, b := "~" + s, "~" + s + "-" + rest;
    hide IsInside;
    OperatorsAreInside();
    assert forall k | 0 < k < |a| :: a[k] == s[k - 1];
    assert forall k | 0 <= k < |b| ::
        b[k] == if k <= |s| then a[k] else if k == |s| + 1 then '-' else rest[k - |s| - 2];
  }

  lemma NumberTextIsArgument(v: u64)
    ensures IsArgument(NumberText(v))
  {
    hide Decimal, IsArgument;
    DecimalIsArgument(if v < 0x8000_0000_0000_0000 then v else 0xFFFF_FFFF_FFFF_FFFF - v);
    if v >= 0x8000_0000_0000_0000 { ComplementIsArgument(Decimal(0xFFFF_FFFF_FFFF_FFFF - v), ""); }
  }

  lemma InvertedTextIsArgument(v: u64)
    requires v > 0
    ensures IsArgument(InvertedText(v))
  {
    hide Decimal, IsArgument;
    if v < 0x8000_0000_0000_0000 {
      DecimalIsArgument(0x7FFF_FFFF_FFFF_FFFF);
      DecimalIsArgument(0x8000_0000_0000_0000 - v);
      ComplementIsArgument(Decimal(0x7FFF_FFFF_FFFF_FFFF), Decimal(0x8000_0000_0000_0000 - v));
    } else {
      DecimalIsArgument(0xFFFF_FFFF_FFFF_FFFF - v);
      ComplementIsArgument(Decimal(0xFFFF_FFFF_FFFF_FFFF - v), "");
    }
  }

  lemma FieldsAreArguments(name: string, w: Window, v: u64)
    requires IsArgument(name)
    ensures forall k | 0 <= k < 7 :: IsArgument(FieldsText(name, w, v)[k])
  {
    hide NumberText, InvertedText, Decimal, IsArgument, Pow2;
    DecimalIsArgument(w.start);
    DecimalIsArgument(w.count);
    if v < Pow2(w.count) { NumberTextIsArgument(v); } else { InvertedTextIsArgument(v); }
    KeywordsAreArguments();
  }

  lemma KeywordsAreArguments()
    ensures IsArgument("start_bit") && IsArgument("bit_count") && IsArgument("value")
    ensures IsArgument("event_mode") && IsArgument("registered") && IsArgument("request_tag") && IsArgument("current")
    ensures IsArgument("add_value") && IsArgument("NEXT") && IsArgument("RF0") && IsArgument("clocks")
  {
  }

  lemma FlowNamesAreArguments()
    ensures IsArgument("LOOP") && IsArgument("DO_LOOP") && IsArgument("REPEAT") && IsArgument("END")
    ensures IsArgument("GOTO_LABEL") && IsArgument("LABEL") && IsArgument("WAIT") && IsArgument("MARKER")
    ensures IsArgument("HEARTBEAT")
  {
  }

  lemma ValueNamesAreArguments()
    ensures IsArgument("DATA_REQUEST") && IsArgument("SET_TAG") && IsArgument("INC_TAG") && IsArgument("SET_MODE")
    ensures IsArgument("CLEAR_MODE_BITS") && IsArgument("SET_MODE_BITS")
    ensures IsArgument("AND_MODE_BITS") && IsArgument("OR_MODE_BITS")
  {
  }

  lemma NamesAreArguments(i: Instr)
    requires i != NOOP && i != INVALID
    ensures IsArgument(Name(i))
  {
    hide IsArgument;
    FlowNamesAreArguments();
    ValueNamesAreArguments();
  }

  lemma TextIsArguments(op: SourceOp)
    ensures forall k | 0 <= k < |Text(op)| :: IsArgument(Text(op)[k])
  {
    hide NumberText, InvertedText, Decimal, FieldsText, IsArgument;
    NamesAreArguments(InstrFor(op));
    KeywordsAreArguments();
    match op
    case Heartbeat(o) => if o.Number? { NumberTextIsArgument(o.value); }
    case DataRequest(o) => if o.Number? { NumberTextIsArgument(o.value); }
    case SetTag(v) => NumberTextIsArgument(v);
    case IncTag(v) => NumberTextIsArgument(v);
    case Wait(o) => if o.Number? { NumberTextIsArgument(o.value); }
    case Loop(v) => NumberTextIsArgument(v);
    case ClearBits(w) =>
      DecimalIsArgument(w.start);
      DecimalIsArgument(w.count);
    case SetBits(w, v) =>
      assert Name(SET_MODE_BITS) == "SET_MODE_BITS";
      FieldsAreArguments("SET_MODE_BITS", w, v);
    case AndBits(w, v) =>
      assert Name(AND_MODE_BITS) == "AND_MODE_BITS";
      FieldsAreArguments("AND_MODE_BITS", w, v);
    case OrBits(w, v) =>
      assert Name(OR_MODE_BITS) == "OR_MODE_BITS";
      FieldsAreArguments("OR_MODE_BITS", w, v);
    case SetMode(v) => NumberTextIsArgument(v);
    case Marker =>
    case DoLoop =>
    case Repeat =>
    case End =>
    case Goto =>
    case Label =>
  }

  /** Every operation is read back from its line. */
  lemma LineIsRead(op: SourceOp, ticks: Ticks)
    ensures LineOp(Line(op), ticks) == Ok(Some(op))
  {
    hide Text, IsArgument, ReadOp, Spells, Arguments, IsComment;
    var args := Text(op);
    TextIsArguments(op);
    TextSpells(op, ticks);
    NamesAreLong(op);
    ArgumentsAreFound(args, Spaces(|args| - 1), "\n");
    ReadExactly(args, op, ticks);
  }

  /** The lines of a plan. */
  function Printed(ops: seq<SourceOp>): (r: seq<string>)
    ensures |r| == |ops| && forall k | 0 <= k < |ops| :: r[k] == Line(ops[k])
  {
    seq(|ops|, i requires 0 <= i < |ops| => Line(ops[i]))
  }

  /** Every list of operations has a text, and compiling the text is compiling the list. */
  lemma {:induction false} PrintedPlansCompile(ops: seq<SourceOp>, ticks: Ticks)
    ensures SourceOps(Printed(ops), ticks) == Ok(ops)
    ensures CompileText(Printed(ops), ticks) == Compile(ops, START)
  {
    hide Line, LineOp, Step;
    if ops != [] {
      var front, op := ops[..|ops| - 1], ops[|ops| - 1];
      PrintedPlansCompile(front, ticks);
      LineIsRead(op, ticks);
      var lines := Printed(ops);
      assert lines[..|ops| - 1] == Printed(front) && lines[|ops| - 1] == Line(op);
      assert front + [op] == ops;
    }
  }
}
