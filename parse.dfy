/** The line parser of wiggelen/parse.py: one line plus a mutable parse state
    in, one classified line out. */
module Parse {
  import opened Text
  import opened WigFormat

  /** Track modes. */
  datatype Mode = Variable | Fixed

  /** The value held by the state dictionary: mode, span, and the start and
      step that only a `fixedStep` header sets (None until then). */
  datatype State = State(mode: Mode, span: int, start: Option<int>, step: Option<int>)

  /** A data record: the position, the span in force, and the value. */
  datatype Data = Data(position: int, span: int, value: Number)

  /** The classification: `(LineType.NONE, None)`, `(LineType.REGION,
      chrom)` or `(LineType.DATA, Data(...))`. */
  datatype Parsed = NoneLine | RegionLine(chrom: string) | DataLine(data: Data)

  /** What `parse` raises: ParseError carrying the line, IndexError from
      `line[0]` on an empty line, TypeError from `None + step`. */
  datatype Error = ParseError(line: string) | IndexError | TypeError

  datatype Result = Ok(parsed: Parsed) | Fail(error: Error)

  /** What one call returns, and the state it leaves behind (also when it
      raises, since the state is updated field by field). */
  datatype Step = Step(result: Result, state: State)

  /** The state `create_state()` returns. */
  const FreshState := State(Variable, 1, None, None)

  /** The bytes a data line may start with. */
  const NumberStart := "0123456789."

  /** Lines that parse to NONE without touching the state. */
  predicate Ignored(line: string)
    requires line != []
  {
    "browser" <= line || "track" <= line || line[0] == '#' || line in ["\n", "\r\n", "\r"]
  }

  /** `parse(line, state)` as a function of the old state. */
  function ParseLine(line: string, s: State): Step {
    if line == [] then Step(Fail(IndexError), s)
    else if line[0] in NumberStart then
      if s.mode == Variable then VariableData(line, s) else FixedData(line, s)
    else if Ignored(line) then Step(Ok(NoneLine), s)
    else if "variableStep" <= line then VariableStepHeader(line, s)
    else if "fixedStep" <= line then FixedStepHeader(line, s)
    else Step(Fail(ParseError(line)), s)
  }

  /** A `<position> <value>` line in VARIABLE mode. */
  function VariableData(line: string, s: State): Step {
    var tokens := Split(line);
    if |tokens| != 2 then Step(Fail(ParseError(line)), s)
    else
      match (ParseInt(tokens[0]), ParseValue(tokens[1]))
      case (Some(p), Some(v)) => Step(Ok(DataLine(Data(p, s.span, v))), s)
      case _ => Step(Fail(ParseError(line)), s)
  }

  /** A `<value>` line in FIXED mode: `start` advances before the value is
      read. */
  function FixedData(line: string, s: State): Step {
    if s.start.None? || s.step.None? then Step(Fail(TypeError), s)
    else
      var s' := s.(start := Some(s.start.value + s.step.value));
      match ParseValue(line)
      case None => Step(Fail(ParseError(line)), s')
      case Some(v) => Step(Ok(DataLine(Data(s.start.value, s.span, v))), s')
  }

  /** `int(fields.get(key, default))`. */
  function FieldInt(f: map<string, string>, key: string, default: int): Option<int> {
    if key in f then ParseInt(f[key]) else Some(default)
  }

  /** What a `variableStep` header does with its attribute dictionary `f`:
      mode VARIABLE, span from `span=` or 1, start and step untouched, REGION
      with `chrom`; rejected without `chrom` or with an unreadable span. */
  function VariableStepEffect(line: string, f: map<string, string>, s: State): (r: Step)
    ensures r.state.mode == Variable && r.state.start == s.start && r.state.step == s.step
    ensures r.result.Ok? <==> "chrom" in f && FieldInt(f, "span", 1).Some?
    ensures r.result.Ok? ==> r.result == Ok(RegionLine(f["chrom"]))
  {
    var span := if "span" in f then ParseInt(f["span"]) else Some(1);
    if span.None? then Step(Fail(ParseError(line)), s.(mode := Variable))
    else if "chrom" !in f then Step(Fail(ParseError(line)), s.(mode := Variable, span := span.value))
    else Step(Ok(RegionLine(f["chrom"])), s.(mode := Variable, span := span.value))
  }

  /** What a `fixedStep` header does with its attribute dictionary `f`: mode
      FIXED, then `start`, `span` (default 1) and `step` (default
      `min(1, span)`) stored in that order, REGION with `chrom`; each missing
      or unreadable field raises after the fields before it were stored. */
  function FixedStepEffect(line: string, f: map<string, string>, s: State): (r: Step)
    ensures r.state.mode == Fixed
    ensures r.result.Ok? ==> "chrom" in f && r.result == Ok(RegionLine(f["chrom"]))
    ensures r.result.Ok? ==> r.state.start.Some? && r.state.step.Some?
  {
    var start := if "start" in f then ParseInt(f["start"]) else None;
    var span := if "span" in f then ParseInt(f["span"]) else Some(1);
    if start.None? then Step(Fail(ParseError(line)), s.(mode := Fixed))
    else if span.None? then Step(Fail(ParseError(line)), s.(mode := Fixed, start := start))
    else
      var step := if "step" in f then ParseInt(f["step"]) else Some(Min(1, span.value));
      if step.None? then
        Step(Fail(ParseError(line)), s.(mode := Fixed, start := start, span := span.value))
      else if "chrom" !in f then
        Step(Fail(ParseError(line)), State(Fixed, span.value, start, step))
      else Step(Ok(RegionLine(f["chrom"])), State(Fixed, span.value, start, step))
  }

  /** A `variableStep` header: its attributes must all be `key=value`
      pairs, and then they act as the dictionary they form. */
  function VariableStepHeader(line: string, s: State): (r: Step)
    requires "variableStep" <= line
    ensures r.result.Ok? ==> r.result.parsed.RegionLine?
  {
    match Fields(Split(line[|"variableStep"|..]))
    case None => Step(Fail(ParseError(line)), s)
    case Some(f) => VariableStepEffect(line, f, s)
  }

  function FixedStepHeader(line: string, s: State): (r: Step)
    requires "fixedStep" <= line
    ensures r.result.Ok? ==> r.result.parsed.RegionLine?
  {
    match Fields(Split(line[|"fixedStep"|..]))
    case None => Step(Fail(ParseError(line)), s)
    case Some(f) => FixedStepEffect(line, f, s)
  }

  function Min(a: int, b: int): int {
    if a <= b then a else b
  }

  /** The state dictionary that `parse` updates in place. */
  class ParseState {
    var mode: Mode
    var span: int
    var start: Option<int>
    var step: Option<int>

    /** `create_state()`. */
    constructor ()
      ensures mode == Variable && span == 1 && start == None && step == None
      ensures Value() == FreshState
    {
      mode, span, start, step := Variable, 1, None, None;
    }

    function Value(): State
      reads this
    {
      State(mode, span, start, step)
    }

    /** `parse(line, state)`. */
    method Parse(line: string) returns (r: Result)
      modifies this
      ensures r == ParseLine(line, old(Value())).result
      ensures Value() == ParseLine(line, old(Value())).state
    {
      if line == [] {
        return Fail(IndexError);
      }
      if line[0] in NumberStart {
        if mode == Variable {
          r := ParseVariableData(line);
        } else {
          r := ParseFixedData(line);
        }
      } else if Ignored(line) {
        r := Ok(NoneLine);
      } else if "variableStep" <= line {
        r := ParseVariableStep(line);
      } else if "fixedStep" <= line {
        r := ParseFixedStep(line);
      } else {
        r := Fail(ParseError(line));
      }
    }

    /** A data line in VARIABLE mode: two tokens, position and value. */
    method ParseVariableData(line: string) returns (r: Result)
      modifies this
      ensures r == VariableData(line, old(Value())).result
      ensures Value() == VariableData(line, old(Value())).state
    {
      var tokens := Split(line);
      if |tokens| != 2 {
        return Fail(ParseError(line));
      }
      var position := ParseInt(tokens[0]);
      var value := ParseValue(tokens[1]);
      if position.None? || value.None? {
        return Fail(ParseError(line));
      }
      return Ok(DataLine(Data(position.value, span, value.value)));
    }

    /** A data line in FIXED mode: the position is `start`, which then moves
        on by `step` before the value is read. */
    method ParseFixedData(line: string) returns (r: Result)
      modifies this
      ensures r == FixedData(line, old(Value())).result
      ensures Value() == FixedData(line, old(Value())).state
    {
      if start.None? || step.None? {
        return Fail(TypeError);
      }
      ghost var s0 := Value();
      FixedDataStep(line, s0);
      var position := start.value;
      start := Some(start.value + step.value);
      assert Value() == s0.(start := Some(s0.start.value + s0.step.value));
      var value := ParseValue(line);
      if value.None? {
        return Fail(ParseError(line));
      }
      return Ok(DataLine(Data(position, span, value.value)));
    }

    method ParseVariableStep(line: string) returns (r: Result)
      requires "variableStep" <= line
      modifies this
      ensures r == VariableStepHeader(line, old(Value())).result
      ensures Value() == VariableStepHeader(line, old(Value())).state
    {
      var fields := Fields(Split(line[|"variableStep"|..]));
      if fields.None? {
        return Fail(ParseError(line));
      }
      mode := Variable;
      var sp := FieldInt(fields.value, "span", 1);
      if sp.None? {
        return Fail(ParseError(line));
      }
      span := sp.value;
      if "chrom" !in fields.value {
        return Fail(ParseError(line));
      }
      return Ok(RegionLine(fields.value["chrom"]));
    }

    method ParseFixedStep(line: string) returns (r: Result)
      requires "fixedStep" <= line
      modifies this
      ensures r == FixedStepHeader(line, old(Value())).result
      ensures Value() == FixedStepHeader(line, old(Value())).state
    {
      var fields := Fields(Split(line[|"fixedStep"|..]));
      if fields.None? {
        return Fail(ParseError(line));
      }
      mode := Fixed;
      var st := if "start" in fields.value then ParseInt(fields.value["start"]) else None;
      if st.None? {
        return Fail(ParseError(line));
      }
      start := st;
      var sp := FieldInt(fields.value, "span", 1);
      if sp.None? {
        return Fail(ParseError(line));
      }
      span := sp.value;
      var stp := FieldInt(fields.value, "step", Min(1, span));
      if stp.None? {
        return Fail(ParseError(line));
      }
      step := stp;
      if "chrom" !in fields.value {
        return Fail(ParseError(line));
      }
      return Ok(RegionLine(fields.value["chrom"]));
    }
  }

  // -----------------------------------------------------------------------
  // Properties of one call
  // -----------------------------------------------------------------------

  /** `browser`/`track` lines, comments and bare line breaks are NONE and
      leave the state as it was. */
  lemma IgnoredLineIsNone(line: string, s: State)
    requires line != [] && Ignored(line)
    ensures ParseLine(line, s) == Step(Ok(NoneLine), s)
  {
  }

  /** A line of whitespace other than a bare line break is rejected: only
      the exact lines `\n`, `\r\n` and `\r` are ignored. */
  lemma BlankLineRejected(line: string, s: State)
    requires line != [] && (forall i :: 0 <= i < |line| ==> IsSpace(line[i])) && line !in ["\n", "\r\n", "\r"]
    ensures ParseLine(line, s) == Step(Fail(ParseError(line)), s)
  {
    assert line[0] !in NumberStart;
    assert !("browser" <= line) && !("track" <= line);
    assert !("variableStep" <= line) && !("fixedStep" <= line);
  }

  /** Every DATA result carries the span held in the state, and data lines
      never change the mode or the span. */
  lemma DataCarriesSpan(line: string, s: State)
    requires ParseLine(line, s).result.Ok? && ParseLine(line, s).result.parsed.DataLine?
    ensures ParseLine(line, s).result.parsed.data.span == s.span
    ensures ParseLine(line, s).state.mode == s.mode && ParseLine(line, s).state.span == s.span
  {
  }

  /** In FIXED mode a data line is at the old `start`, and `start` moves on
      by `step` whether or not the value can be read. */
  lemma FixedDataAdvances(line: string, s: State)
    requires line != [] && line[0] in NumberStart
    requires s.mode == Fixed && s.start.Some? && s.step.Some?
    ensures ParseLine(line, s).state == s.(start := Some(s.start.value + s.step.value))
    ensures ParseLine(line, s).result ==
            if ParseValue(line).Some? then Ok(DataLine(Data(s.start.value, s.span, ParseValue(line).value)))
            else Fail(ParseError(line))
  {
    DataDispatch(line, s);
    FixedDataStep(line, s);
  }

  lemma FixedDataStep(line: string, s: State)
    requires s.start.Some? && s.step.Some?
    ensures FixedData(line, s).state == s.(start := Some(s.start.value + s.step.value))
    ensures FixedData(line, s).result ==
            if ParseValue(line).Some? then Ok(DataLine(Data(s.start.value, s.span, ParseValue(line).value)))
            else Fail(ParseError(line))
  {
    var s' := s.(start := Some(s.start.value + s.step.value));
    match ParseValue(line)
    case None =>
      assert FixedData(line, s) == Step(Fail(ParseError(line)), s');
    case Some(v) =>
      assert FixedData(line, s) == Step(Ok(DataLine(Data(s.start.value, s.span, v))), s');
  }

  /** Which branch of `parse` a line takes, by its first bytes. */
  lemma DataDispatch(line: string, s: State)
    requires line != [] && line[0] in NumberStart
    ensures ParseLine(line, s) == if s.mode == Variable then VariableData(line, s) else FixedData(line, s)
  {
  }

  lemma VariableStepDispatch(line: string, s: State)
    requires "variableStep" <= line
    ensures ParseLine(line, s) == VariableStepHeader(line, s)
  {
    assert line[0] == 'v';
    assert !("browser" <= line) && !("track" <= line);
  }

  lemma FixedStepDispatch(line: string, s: State)
    requires "fixedStep" <= line
    ensures ParseLine(line, s) == FixedStepHeader(line, s)
  {
    assert line[0] == 'f';
    assert !("browser" <= line) && !("track" <= line) && !("variableStep" <= line);
  }

  /** A line starting with '-' is none of the kinds `parse` knows. */
  lemma MinusRejected(line: string, s: State)
    requires line != [] && line[0] == '-'
    ensures ParseLine(line, s) == Step(Fail(ParseError(line)), s)
  {
    assert !("browser" <= line) && !("track" <= line);
    assert !("variableStep" <= line) && !("fixedStep" <= line);
  }

  /** A VARIABLE-mode line of two tokens, a position and a value. */
  lemma VariableDataTokens(line: string, num: string, tok: string, s: State)
    requires s.mode == Variable && line != [] && line[0] in NumberStart
    requires Split(line) == [num, tok] && ParseInt(num).Some? && ParseValue(tok).Some?
    ensures ParseLine(line, s) == Step(Ok(DataLine(Data(ParseInt(num).value, s.span, ParseValue(tok).value))), s)
  {
    DataDispatch(line, s);
  }

  /** In VARIABLE mode a data line is accepted exactly when it has two
      tokens, an int position and a readable value; otherwise `parse` raises
      ParseError. The state never changes. */
  lemma VariableDataAccepted(line: string, s: State)
    requires s.mode == Variable && line != [] && line[0] in NumberStart
    ensures ParseLine(line, s).state == s
    ensures ParseLine(line, s).result.Ok? <==>
            |Split(line)| == 2 && ParseInt(Split(line)[0]).Some? && ParseValue(Split(line)[1]).Some?
    ensures ParseLine(line, s).result.Fail? ==> ParseLine(line, s).result.error == ParseError(line)
  {
    DataDispatch(line, s);
  }

  /** The facts about `<position> <value>\n` that `parse` looks at. */
  lemma VariableLineFacts(p: int, tok: string)
    requires p >= 0 && tok != [] && NoSpace(tok)
    ensures var line := IntToString(p) + " " + tok + "\n";
            && line[0] in NumberStart
            && Split(line) == [IntToString(p), tok]
            && ParseInt(IntToString(p)) == Some(p)
  {
    var num := IntToString(p);
    var line := num + " " + tok + "\n";
    assert line[0] == num[0];
    assert NoSpace(num);
    SplitPair(num, tok, ' ', '\n');
    assert line == num + [' '] + tok + ['\n'];
    ParseIntOfIntToString(p);
  }

  /** A VARIABLE-mode line `<position> <value>` written with a non-negative
      position is the DATA record it spells; a negative position starts with
      '-' and is rejected. */
  lemma VariableDataLine(p: int, tok: string, s: State)
    requires s.mode == Variable
    requires tok != [] && NoSpace(tok) && ParseValue(tok).Some?
    ensures var line := IntToString(p) + " " + tok + "\n";
            ParseLine(line, s) ==
              if p >= 0 then Step(Ok(DataLine(Data(p, s.span, ParseValue(tok).value))), s)
              else Step(Fail(ParseError(line)), s)
  {
    var num := IntToString(p);
    var line := num + " " + tok + "\n";
    if p < 0 {
      assert line[0] == num[0];
      MinusRejected(line, s);
    } else {
      VariableLineFacts(p, tok);
      VariableDataTokens(line, num, tok, s);
    }
  }

  /** A line consisting of two blanks-separated tokens is the only kind
      VARIABLE mode accepts. */
  lemma VariableDataNeedsTwoTokens(line: string, s: State)
    requires line != [] && line[0] in NumberStart && s.mode == Variable
    requires |Split(line)| != 2
    ensures ParseLine(line, s) == Step(Fail(ParseError(line)), s)
  {
    DataDispatch(line, s);
  }

  lemma VariableStepFields(line: string, f: map<string, string>, s: State)
    requires "variableStep" <= line && Fields(Split(line[|"variableStep"|..])) == Some(f)
    ensures ParseLine(line, s) == VariableStepEffect(line, f, s)
  {
    VariableStepDispatch(line, s);
  }

  lemma FixedStepFields(line: string, f: map<string, string>, s: State)
    requires "fixedStep" <= line && Fields(Split(line[|"fixedStep"|..])) == Some(f)
    ensures ParseLine(line, s) == FixedStepEffect(line, f, s)
  {
    FixedStepDispatch(line, s);
  }

  /** A `variableStep` dictionary is accepted exactly when it has `chrom`
      and a readable span, and then the span is stored. */
  lemma VariableStepStored(line: string, f: map<string, string>, s: State)
    ensures var r := VariableStepEffect(line, f, s);
            r.result.Ok? ==> r.state == s.(mode := Variable, span := FieldInt(f, "span", 1).value)
  {
  }

  /** A `fixedStep` dictionary is accepted exactly when it has `chrom`, a
      readable `start`, a readable span (default 1) and a readable step
      (default `min(1, span)`), and then all of them are stored. */
  lemma FixedStepStored(line: string, f: map<string, string>, s: State)
    ensures var r := FixedStepEffect(line, f, s);
            r.result.Ok? <==>
              && "chrom" in f && "start" in f && ParseInt(f["start"]).Some?
              && FieldInt(f, "span", 1).Some?
              && FieldInt(f, "step", Min(1, FieldInt(f, "span", 1).value)).Some?
    ensures var r := FixedStepEffect(line, f, s);
            r.result.Ok? ==>
              var span := FieldInt(f, "span", 1).value;
              r.state == State(Fixed, span, ParseInt(f["start"]), FieldInt(f, "step", Min(1, span)))
  {
  }

  /** A `variableStep` header written from clean attributes `fs` has the
      effect of their dictionary, in which a later key overrides. */
  lemma VariableStepHeaderLine(fs: seq<(string, string)>, s: State)
    requires CleanFields(fs)
    ensures var line := "variableStep" + Attributes(fs) + "\n";
            ParseLine(line, s) == VariableStepEffect(line, FieldMap(fs), s)
  {
    HeaderFields("variableStep", fs, '\n');
    VariableStepFields("variableStep" + Attributes(fs) + "\n", FieldMap(fs), s);
  }

  lemma FixedStepHeaderLine(fs: seq<(string, string)>, s: State)
    requires CleanFields(fs)
    ensures var line := "fixedStep" + Attributes(fs) + "\n";
            ParseLine(line, s) == FixedStepEffect(line, FieldMap(fs), s)
  {
    HeaderFields("fixedStep", fs, '\n');
    FixedStepFields("fixedStep" + Attributes(fs) + "\n", FieldMap(fs), s);
  }

  /** `fixedStep chrom=<c> start=<n>`: REGION c, FIXED mode at n, and the
      defaults span 1 and step min(1, 1) = 1. */
  lemma FixedStepDefaults(chrom: string, start: int, s: State)
    requires Clean(chrom)
    ensures ParseLine("fixedStep chrom=" + chrom + " start=" + IntToString(start) + "\n", s) ==
            Step(Ok(RegionLine(chrom)), State(Fixed, 1, Some(start), Some(1)))
  {
    var n := IntToString(start);
    var fs := [("chrom", chrom), ("start", n)];
    IntToStringClean(start);
    assert CleanFields(fs);
    PairAttributes(chrom, n);
    FixedStepHeaderLine(fs, s);
    PairFieldMap(("chrom", chrom), ("start", n));
    ParseIntOfIntToString(start);
    FixedStepEffectDefaults("fixedStep" + Attributes(fs) + "\n", chrom, start, s);
  }

  /** The line written from the attributes `chrom=<c> start=<n>`. */
  lemma PairAttributes(chrom: string, n: string)
    ensures "fixedStep" + Attributes([("chrom", chrom), ("start", n)]) + "\n" == "fixedStep chrom=" + chrom + " start=" + n + "\n"
  {
    var fs := [("chrom", chrom), ("start", n)];
    assert fs[1..][1..] == [];
    assert Attributes(fs[1..]) == " " + "start" + "=" + n + [];
    assert Attributes(fs) == " " + "chrom" + "=" + chrom + Attributes(fs[1..]);
    var line := "fixedStep" + Attributes(fs) + "\n";
    assert line == "fixedStep chrom=" + chrom + " start=" + n + "\n";
  }

  lemma PairFieldMap(a: (string, string), b: (string, string))
    ensures FieldMap([a, b]) == map[a.0 := a.1][b.0 := b.1]
  {
    var fs := [a, b];
    assert fs[..1] == [a] && fs[..1][..0] == [];
    assert FieldMap(fs[..1]) == map[a.0 := a.1];
  }

  lemma FixedStepEffectDefaults(line: string, chrom: string, start: int, s: State)
    requires ParseInt(IntToString(start)) == Some(start)
    ensures FixedStepEffect(line, map["chrom" := chrom]["start" := IntToString(start)], s) ==
            Step(Ok(RegionLine(chrom)), State(Fixed, 1, Some(start), Some(1)))
  {
  }

  /** `variableStep chrom=<c>`: REGION c, VARIABLE mode with span 1; start
      and step are left as they were. */
  lemma VariableStepDefaults(chrom: string, s: State)
    requires Clean(chrom)
    ensures ParseLine("variableStep chrom=" + chrom + "\n", s) ==
            Step(Ok(RegionLine(chrom)), s.(mode := Variable, span := 1))
  {
    var fs := [("chrom", chrom)];
    assert CleanFields(fs);
    assert fs[1..] == [];
    assert Attributes(fs) == " " + "chrom" + "=" + chrom + [];
    var line := "variableStep" + Attributes(fs) + "\n";
    assert line == "variableStep chrom=" + chrom + "\n";
    VariableStepHeaderLine(fs, s);
    assert FieldMap(fs) == map["chrom" := chrom];
  }

  /** A header without `chrom` raises ParseError, but only after the mode
      (and, for `fixedStep`, start, span and step) were stored. */
  lemma VariableStepMissingChrom(fs: seq<(string, string)>, s: State)
    requires CleanFields(fs) && forall i :: 0 <= i < |fs| ==> fs[i].0 != "chrom"
    ensures var line := "variableStep" + Attributes(fs) + "\n";
            ParseLine(line, s).result == Fail(ParseError(line)) && ParseLine(line, s).state.mode == Variable
  {
    FieldMapLookup(fs, "chrom");
    VariableStepHeaderLine(fs, s);
  }

  lemma FixedStepMissingChrom(fs: seq<(string, string)>, s: State)
    requires CleanFields(fs) && forall i :: 0 <= i < |fs| ==> fs[i].0 != "chrom"
    ensures var line := "fixedStep" + Attributes(fs) + "\n";
            ParseLine(line, s).result == Fail(ParseError(line)) && ParseLine(line, s).state.mode == Fixed
  {
    FieldMapLookup(fs, "chrom");
    FixedStepHeaderLine(fs, s);
    FixedStepEffectNoChrom("fixedStep" + Attributes(fs) + "\n", FieldMap(fs), s);
  }

  lemma FixedStepEffectNoChrom(line: string, f: map<string, string>, s: State)
    requires "chrom" !in f
    ensures FixedStepEffect(line, f, s).result == Fail(ParseError(line)) && FixedStepEffect(line, f, s).state.mode == Fixed
  {
  }

  /** A header whose attributes are not all `key=value` pairs is rejected
      before the state is touched. */
  lemma MalformedFieldRejected(line: string, s: State)
    requires "variableStep" <= line || "fixedStep" <= line
    requires var rest := if "variableStep" <= line then line[|"variableStep"|..] else line[|"fixedStep"|..];
             exists j :: 0 <= j < |Split(rest)| && !IsField(Split(rest)[j])
    ensures ParseLine(line, s) == Step(Fail(ParseError(line)), s)
  {
    if "variableStep" <= line {
      FieldsFailWhen(Split(line[|"variableStep"|..]));
      VariableStepDispatch(line, s);
    } else {
      FieldsFailWhen(Split(line[|"fixedStep"|..]));
      FixedStepDispatch(line, s);
    }
  }

  // -----------------------------------------------------------------------
  // Runs of lines
  // -----------------------------------------------------------------------

  /** Feeding the lines one after another to a line parser `f` with one
      state, as a caller of `parse` does, collecting every result (also the
      failures). */
  function Run(f: (string, State) -> Step, lines: seq<string>, s: State): (seq<Result>, State)
    decreases |lines|
  {
    if lines == [] then ([], s)
    else
      var step := f(lines[0], s);
      var rest := Run(f, lines[1..], step.state);
      ([step.result] + rest.0, rest.1)
  }

  function ParseAll(lines: seq<string>, s: State): (seq<Result>, State) {
    Run(ParseLine, lines, s)
  }

  /** A line that FIXED mode reads as the value `v`. */
  predicate ValueLine(line: string, v: Number) {
    line != [] && line[0] in NumberStart && ParseValue(line) == Some(v)
  }

  lemma FixedValueLine(line: string, v: Number, s: State)
    requires s.mode == Fixed && s.start.Some? && s.step.Some? && ValueLine(line, v)
    ensures ParseLine(line, s) == Step(Ok(DataLine(Data(s.start.value, s.span, v))),
                                       s.(start := Some(s.start.value + s.step.value)))
  {
    FixedDataAdvances(line, s);
  }

  /** The records of a FIXED block of values: one per value, at `start`,
      `start + step`, ..., all with the same span. */
  function FixedRecords(start: int, step: int, span: int, vs: seq<Number>): seq<Result>
    decreases |vs|
  {
    if vs == [] then []
    else [Ok(DataLine(Data(start, span, vs[0])))] + FixedRecords(start + step, step, span, vs[1..])
  }

  /** Record i of a FIXED block is at `start` advanced i times by `step`. */
  lemma {:induction false} FixedRecordsAt(start: int, step: int, span: int, vs: seq<Number>)
    ensures |FixedRecords(start, step, span, vs)| == |vs|
    ensures forall i :: 0 <= i < |vs| ==>
              FixedRecords(start, step, span, vs)[i] == Ok(DataLine(Data(Advance(start, step, i), span, vs[i])))
    decreases |vs|
  {
    if vs != [] {
      FixedRecordsAt(start + step, step, span, vs[1..]);
      forall i | 0 < i < |vs|
        ensures FixedRecords(start, step, span, vs)[i] == Ok(DataLine(Data(Advance(start, step, i), span, vs[i])))
      {
        AdvanceShift(start, step, i - 1);
        assert vs[1..][i - 1] == vs[i];
      }
    }
  }

  /** The FIXED-block induction for any line parser `f` that behaves like
      `parse` on the lines `value` accepts. */
  lemma {:induction false} RunFixed(f: (string, State) -> Step, value: (string, Number) -> bool,
                                    lines: seq<string>, vs: seq<Number>, s: State)
    requires forall line: string, v: Number, st: State :: st.mode == Fixed && st.start.Some? && st.step.Some? && value(line, v) ==>
               f(line, st) == Step(Ok(DataLine(Data(st.start.value, st.span, v))),
                                   st.(start := Some(st.start.value + st.step.value)))
    requires s.mode == Fixed && s.start.Some? && s.step.Some?
    requires |vs| == |lines| && forall i :: 0 <= i < |lines| ==> value(lines[i], vs[i])
    ensures Run(f, lines, s).0 == FixedRecords(s.start.value, s.step.value, s.span, vs)
    ensures Run(f, lines, s).1 == s.(start := Some(Advance(s.start.value, s.step.value, |lines|)))
    decreases |lines|
  {
    var start, step := s.start.value, s.step.value;
    if lines != [] {
      var t := s.(start := Some(start + step));
      assert value(lines[0], vs[0]);
      assert f(lines[0], s) == Step(Ok(DataLine(Data(start, s.span, vs[0]))), t);
      forall i | 0 <= i < |lines[1..]| ensures value(lines[1..][i], vs[1..][i]) {
        assert lines[1..][i] == lines[i + 1] && vs[1..][i] == vs[i + 1];
      }
      RunFixed(f, value, lines[1..], vs[1..], t);
      AdvanceShift(start, step, |lines| - 1);
    }
  }

  /** `parse` itself advances over value lines in FIXED mode. */
  lemma ParseLineOnValues()
    ensures forall line: string, v: Number, st: State :: st.mode == Fixed && st.start.Some? && st.step.Some? && ValueLine(line, v) ==>
              ParseLine(line, st) == Step(Ok(DataLine(Data(st.start.value, st.span, v))),
                                          st.(start := Some(st.start.value + st.step.value)))
  {
    forall line: string, v: Number, st: State | st.mode == Fixed && st.start.Some? && st.step.Some? && ValueLine(line, v)
      ensures ParseLine(line, st) == Step(Ok(DataLine(Data(st.start.value, st.span, v))),
                                          st.(start := Some(st.start.value + st.step.value)))
    {
      FixedValueLine(line, v, st);
    }
  }

  /** In FIXED mode, k value lines after the header are the records of
      FixedRecords: at start, start + step, ..., start + (k - 1) * step, all
      with the span in force, and leave `start` at start + k * step (Advance,
      see AdvanceIsProduct). */
  lemma FixedRun(lines: seq<string>, vs: seq<Number>, s: State)
    requires s.mode == Fixed && s.start.Some? && s.step.Some?
    requires |vs| == |lines| && forall i :: 0 <= i < |lines| ==> ValueLine(lines[i], vs[i])
    ensures ParseAll(lines, s) == (FixedRecords(s.start.value, s.step.value, s.span, vs),
                                   s.(start := Some(Advance(s.start.value, s.step.value, |lines|))))
  {
    ParseLineOnValues();
    RunFixed(ParseLine, ValueLine, lines, vs, s);
  }
}
