/** From the lines of a run-plan file to source operations. */
module RunPlanText {
  import opened Outcomes
  import opened RunPlan
  import Tokenizer

  const ARGUMENT_DELIMITERS: set<char> := {',', ' ', '\t', ';', '='}
  const LINE_ENDS: set<char> := {'\n', '\r'}

  predicate IsBlank(ch: char) {
    ch == ' ' || ch == '\t' || ch == '\r' || ch == '\n'
  }

  /** Whether the line is a comment, looking from position i; the last character is never looked at first. */
  function IsComment(line: string, i: nat): Result<bool, Error>
    decreases |line| - i
  {
    if i + 1 >= |line| then Ok(true)
    else if IsBlank(line[i]) then IsComment(line, i + 1)
    else if line[i] != '/' then Ok(false)
    else if line[i + 1] != '/' then Err(SingleSlash)
    else Ok(true)
  }

  /** Empty elements dropped, and everything from the first element that starts with two slashes. */
  function Clean(tokens: seq<string>): (r: seq<string>)
    ensures forall k | 0 <= k < |r| :: r[k] != "" && !("//" <= r[k])
  {
    if tokens == [] then []
    else if tokens[0] == "" then Clean(tokens[1..])
    else if "//" <= tokens[0] then []
    else [tokens[0]] + Clean(tokens[1..])
  }

  function Arguments(line: string): (r: seq<string>)
    ensures forall k | 0 <= k < |r| :: r[k] != ""
  {
    Clean(Tokenizer.TrimAll(Tokenizer.Split(line, ARGUMENT_DELIMITERS), LINE_ENDS))
  }

  /** The operation a line holds, if any. */
  function LineOp(line: string, ticks: Ticks): Result<Option<SourceOp>, Error> {
    var comment :- IsComment(line, 0);
    var args := Arguments(line);
    if comment || args == [] then Ok(None)
    else
      var op :- ReadOp(args, ticks);
      Ok(Some(op))
  }

  /** The lines compiled one after the other. */
  function CompileText(lines: seq<string>, ticks: Ticks): Result<State, Error> {
    if lines == [] then Ok(START)
    else
      var st :- CompileText(lines[..|lines| - 1], ticks);
      var op :- LineOp(lines[|lines| - 1], ticks);
      if op.None? then Ok(st) else Step(op.value, st)
  }

  /** The operations of a file, in order. */
  function SourceOps(lines: seq<string>, ticks: Ticks): Result<seq<SourceOp>, Error> {
    if lines == [] then Ok([])
    else
      var ops :- SourceOps(lines[..|lines| - 1], ticks);
      var op :- LineOp(lines[|lines| - 1], ticks);
      Ok(if op.None? then ops else ops + [op.value])
  }

  /** Reading line by line and compiling as one goes is compiling the list of operations: a text is accepted or refused
      as they are, unless one of its lines cannot be read. */
  lemma {:induction false} TextIsOps(lines: seq<string>, ticks: Ticks)
    ensures CompileText(lines, ticks).Ok? ==> SourceOps(lines, ticks).Ok?
    ensures SourceOps(lines, ticks).Ok? ==>
              Compile(SourceOps(lines, ticks).value, START) == CompileText(lines, ticks)
  {
    if lines != [] {
      var front, line := lines[..|lines| - 1], lines[|lines| - 1];
      TextIsOps(front, ticks);
      if SourceOps(lines, ticks).Ok? {
        var ops := SourceOps(front, ticks).value;
        var op := LineOp(line, ticks).value;
        if op.Some? { assert (ops + [op.value])[..|ops|] == ops; }
      }
    }
  }
}
