/** The track reader of wiggelen/wiggle.py: `walk`, with and without an
    index. A track is the sequence of its lines, each with its line break;
    an index maps a region to the number of the line a seek lands on. */
module Wiggle {
  import opened Text
  import opened WigFormat

  // -----------------------------------------------------------------------
  // Walk state
  // -----------------------------------------------------------------------

  /** `format_`: unset until the first header, then 'variable' or 'fixed'. */
  datatype Format = NoFormat | VariableFormat | FixedFormat

  /** `span`: a `variableStep` header stores the attribute text itself (it is
      never converted to an int), a `fixedStep` header an int. */
  datatype Span = IntSpan(n: int) | TextSpan(text: string)

  /** The local variables `format_, region, start, step, span`. */
  datatype WalkState = WalkState(format: Format, region: string, start: int, step: int, span: Span)

  /** The state before the first line. Python starts every variable at None;
      region, start, step and span are only read once `format_` is set, and
      only a header sets it, so the values chosen here are never observed. */
  const Initial := WalkState(NoFormat, "", 0, 0, IntSpan(1))

  /** What ends a walk early: `Exception('Could not parse line: ...')`, a
      KeyError for a missing header attribute (the `except ValueError,
      KeyError:` clauses of Python 2 catch ValueError only), and TypeError
      from `range(span)` on a span that is still text. */
  datatype WalkError = CouldNotParse(line: string) | KeyError(key: string) | TypeError

  // -----------------------------------------------------------------------
  // One line
  // -----------------------------------------------------------------------

  /** A header line decoded, independent of the walk state. */
  datatype Header =
    | BadHeader(error: WalkError)
    | VariableHeader(chrom: string, span: Span)
    | FixedHeader(chrom: string, start: int, step: int, width: int)

  /** The `variableStep` header branch on the attribute dictionary `f`:
      `chrom` is required, `span` is kept as text when given, 1 otherwise. */
  function VariableFields(f: map<string, string>): (h: Header)
    ensures !h.FixedHeader?
  {
    if "chrom" !in f then BadHeader(KeyError("chrom"))
    else VariableHeader(f["chrom"], if "span" in f then TextSpan(f["span"]) else IntSpan(1))
  }

  /** The `fixedStep` header branch on the attribute dictionary `f`: `chrom`,
      `start` and `step` required, in that order; `start`, `step` and `span`
      (default 1) read as ints, a failure reported against `line`. */
  function FixedFields(line: string, f: map<string, string>): (h: Header)
    ensures !h.VariableHeader?
  {
    if "chrom" !in f then BadHeader(KeyError("chrom"))
    else if "start" !in f then BadHeader(KeyError("start"))
    else if ParseInt(f["start"]).None? then BadHeader(CouldNotParse(line))
    else if "step" !in f then BadHeader(KeyError("step"))
    else if ParseInt(f["step"]).None? then BadHeader(CouldNotParse(line))
    else
      var span := if "span" in f then ParseInt(f["span"]) else Some(1);
      if span.None? then BadHeader(CouldNotParse(line))
      else FixedHeader(f["chrom"], ParseInt(f["start"]).value, ParseInt(f["step"]).value, span.value)
  }

  /** `dict(...)` of the attributes after `variableStep`, then its fields. */
  function DecodeVariableStep(line: string): (h: Header)
    requires "variableStep" <= line
    ensures !h.FixedHeader?
  {
    match Fields(Split(line[|"variableStep"|..]))
    case None => BadHeader(CouldNotParse(line))
    case Some(f) => VariableFields(f)
  }

  /** `dict(...)` of the attributes after `fixedStep`, then its fields. */
  function DecodeFixedStep(line: string): (h: Header)
    requires "fixedStep" <= line
    ensures !h.VariableHeader?
  {
    match Fields(Split(line[|"fixedStep"|..]))
    case None => BadHeader(CouldNotParse(line))
    case Some(f) => FixedFields(line, f)
  }

  /** The header a line declares, if it is a header at all. */
  function DecodeHeader(line: string): Option<Header> {
    if "browser" <= line || "track" <= line then None
    else if "variableStep" <= line then Some(DecodeVariableStep(line))
    else if "fixedStep" <= line then Some(DecodeFixedStep(line))
    else None
  }

  /** The region a well-formed header names. */
  function HeaderRegion(line: string): Option<string> {
    match DecodeHeader(line)
    case Some(VariableHeader(chrom, _)) => Some(chrom)
    case Some(FixedHeader(chrom, _, _, _)) => Some(chrom)
    case _ => None
  }

  /** The outcome of one line: records to yield and the new state, a header
      (after which the walk may stop), or an error. */
  datatype Outcome =
    | Emit(items: seq<Item<Number>>, state: WalkState)
    | NewRegion(state: WalkState)
    | Raise(error: WalkError)

  /** `for i in range(n): yield region, base + i, value`. */
  function Repeat(region: string, base: int, n: int, v: Number): (r: seq<Item<Number>>)
    ensures |r| == if n > 0 then n else 0
    ensures forall i :: 0 <= i < |r| ==> r[i] == Item(region, base + i, v)
  {
    if n <= 0 then [] else seq(n, i requires 0 <= i < n => Item(region, base + i, v))
  }

  /** A data line in variable format: `position value`, expanded over the
      span. */
  function VariableData(line: string, st: WalkState): Outcome {
    var tokens := Split(line);
    if |tokens| != 2 then Raise(CouldNotParse(line))
    else
      match (ParseInt(tokens[0]), ParseValue(tokens[1]))
      case (Some(p), Some(v)) =>
        (match st.span
         case TextSpan(_) => Raise(TypeError)
         case IntSpan(n) => Emit(Repeat(st.region, p, n, v), st))
      case _ => Raise(CouldNotParse(line))
  }

  /** A data line in fixed format: the value, expanded over the span at
      `start`, after which `start` moves on by `step`. */
  function FixedData(line: string, st: WalkState): Outcome {
    match ParseValue(line)
    case None => Raise(CouldNotParse(line))
    case Some(v) =>
      match st.span
      case TextSpan(_) => Raise(TypeError)
      case IntSpan(n) => Emit(Repeat(st.region, st.start, n, v), st.(start := st.start + st.step))
  }

  /** A decoded header applied to the state. */
  function ApplyHeader(h: Header, st: WalkState): Outcome {
    match h
    case BadHeader(e) => Raise(e)
    case VariableHeader(chrom, span) => NewRegion(st.(format := VariableFormat, region := chrom, span := span))
    case FixedHeader(chrom, start, step, span) => NewRegion(WalkState(FixedFormat, chrom, start, step, IntSpan(span)))
  }

  /** The body of the `for line in track` loop. */
  function WalkLine(line: string, st: WalkState): Outcome {
    if "browser" <= line || "track" <= line then Emit([], st)
    else if "variableStep" <= line then ApplyHeader(DecodeVariableStep(line), st)
    else if "fixedStep" <= line then ApplyHeader(DecodeFixedStep(line), st)
    else if st.format == VariableFormat then VariableData(line, st)
    else if st.format == FixedFormat then FixedData(line, st)
    else Raise(CouldNotParse(line))
  }

  // -----------------------------------------------------------------------
  // A run of lines, and the two walks
  // -----------------------------------------------------------------------

  /** What a run over lines produced: the records yielded, the state at the
      end, and the error that ended it, if any. */
  datatype Scanned = Scanned(items: seq<Item<Number>>, state: WalkState, error: Option<WalkError>)

  /** The records `res` preceded by `items`. */
  function After(items: seq<Item<Number>>, res: Scanned): Scanned {
    res.(items := items + res.items)
  }

  /** The inner loop from the given lines on, for a line step `f`: it ends at
      the end of the lines, at an error, or, when `expected` is given, at a
      header for another region. */
  function ScanBy(f: (string, WalkState) -> Outcome, lines: seq<string>, expected: Option<string>, st: WalkState): Scanned
    decreases |lines|
  {
    if lines == [] then Scanned([], st, None)
    else
      match f(lines[0], st)
      case Raise(e) => Scanned([], st, Some(e))
      case NewRegion(st') =>
        if expected.Some? && st'.region != expected.value then Scanned([], st', None)
        else ScanBy(f, lines[1..], expected, st')
      case Emit(items, st') => After(items, ScanBy(f, lines[1..], expected, st'))
  }

  /** The inner loop of `walk`. */
  function Scan(lines: seq<string>, expected: Option<string>, st: WalkState): Scanned {
    ScanBy(WalkLine, lines, expected, st)
  }

  /** What `walk` yields, and the error it raises at the end, if any. */
  datatype Walked = Walked(items: seq<Item<Number>>, error: Option<WalkError>)

  /** `track.seek(idx[region])`: the lines from the given line on. */
  function Seek(lines: seq<string>, j: nat): seq<string> {
    if j <= |lines| then lines[j..] else []
  }

  /** The indexed walk over the given regions in turn; the walk state
      carries over from one region to the next. */
  function WalkRegions(lines: seq<string>, idx: map<string, nat>, regions: seq<string>, st: WalkState): Walked
    requires forall i :: 0 <= i < |regions| ==> regions[i] in idx
    decreases |regions|
  {
    if regions == [] then Walked([], None)
    else
      var r := Scan(Seek(lines, idx[regions[0]]), Some(regions[0]), st);
      if r.error.Some? then Walked(r.items, r.error)
      else
        var rest := WalkRegions(lines, idx, regions[1..], r.state);
        Walked(r.items + rest.items, rest.error)
  }

  /** `walk(track)`: one pass over all lines without an index; with an index,
      the regions in `sorted(idx)` order, each from its recorded line. */
  ghost function WalkSpec(lines: seq<string>, idx: Option<map<string, nat>>): Walked {
    match idx
    case None =>
      var r := Scan(lines, None, Initial);
      Walked(r.items, r.error)
    case Some(m) => WalkRegions(lines, m, SortedKeys(m.Keys), Initial)
  }

  // -----------------------------------------------------------------------
  // `sorted(idx)`
  // -----------------------------------------------------------------------

  predicate StrictlySorted(rs: seq<string>) {
    forall i, j :: 0 <= i < j < |rs| ==> LexLess(rs[i], rs[j])
  }

  predicate IsLeast(x: string, keys: set<string>) {
    x in keys && forall y :: y in keys && y != x ==> LexLess(x, y)
  }

  lemma {:induction false} LeastExists(keys: set<string>)
    requires keys != {}
    ensures exists x :: IsLeast(x, keys)
    decreases |keys|
  {
    var z :| z in keys;
    if keys != {z} {
      LeastExists(keys - {z});
      var x :| IsLeast(x, keys - {z});
      LexTotal(x, z);
      if LexLess(x, z) {
        assert IsLeast(x, keys);
      } else {
        forall y | y in keys && y != z ensures LexLess(z, y) {
          if y != x {
            LexTransitive(z, x, y);
          }
        }
        assert IsLeast(z, keys);
      }
    } else {
      assert IsLeast(z, keys);
    }
  }

  /** The keys in ascending string order, each once. */
  ghost function SortedKeys(keys: set<string>): (rs: seq<string>)
    ensures StrictlySorted(rs)
    ensures forall k :: k in keys <==> k in rs
    decreases keys
  {
    if keys == {} then []
    else
      LeastExists(keys);
      var x :| IsLeast(x, keys);
      var rest := SortedKeys(keys - {x});
      assert forall k :: k in rest ==> LexLess(x, k);
      [x] + rest
  }

  /** A strictly sorted listing of a set of strings is unique. */
  lemma {:induction false} SortedUnique(a: seq<string>, b: seq<string>)
    requires StrictlySorted(a) && StrictlySorted(b)
    requires forall k :: k in a <==> k in b
    ensures a == b
    decreases |a|
  {
    assert a != [] ==> a[0] in a && a[0] in b;
    assert b != [] ==> b[0] in b && b[0] in a;
    if a != [] && b != [] {
      if a[0] != b[0] {
        var i :| 0 <= i < |b| && b[i] == a[0];
        var j :| 0 <= j < |a| && a[j] == b[0];
        assert i > 0 && j > 0;
        LexAsymmetric(a[0], b[0]);
        assert false;
      }
      assert a == [a[0]] + a[1..] && b == [b[0]] + b[1..];
      forall k ensures k in a[1..] <==> k in b[1..] {
        if k in a[1..] {
          var i :| 0 <= i < |a[1..]| && a[1..][i] == k;
          assert a[i + 1] == k;
          assert LexLess(a[0], k);
          LexIrreflexive(k);
          assert k in b && k != b[0];
        }
        if k in b[1..] {
          var i :| 0 <= i < |b[1..]| && b[1..][i] == k;
          assert b[i + 1] == k;
          assert LexLess(b[0], k);
          LexIrreflexive(k);
          assert k in a && k != a[0];
        }
      }
      SortedUnique(a[1..], b[1..]);
    }
  }

  // -----------------------------------------------------------------------
  // The walk, step by step
  // -----------------------------------------------------------------------

  /** `for i in range(n): yield region, base + i, value`. */
  method Expand(region: string, base: int, n: int, v: Number) returns (out: seq<Item<Number>>)
    ensures out == Repeat(region, base, n, v)
  {
    out := [];
    var i := 0;
    while i < n
      invariant 0 <= i <= if n > 0 then n else 0
      invariant out == Repeat(region, base, i, v)
    {
      ghost var next := Repeat(region, base, i + 1, v);
      assert forall k :: 0 <= k < i ==> next[k] == out[k];
      out := out + [Item(region, base + i, v)];
      assert out == next;
      i := i + 1;
    }
  }

  method VariableDataStep(line: string, st: WalkState) returns (o: Outcome)
    ensures o == VariableData(line, st)
  {
    var tokens := Split(line);
    if |tokens| != 2 {
      return Raise(CouldNotParse(line));
    }
    var position := ParseInt(tokens[0]);
    var value := ParseValue(tokens[1]);
    if position.None? || value.None? {
      return Raise(CouldNotParse(line));
    }
    if st.span.TextSpan? {
      return Raise(TypeError);
    }
    var out := Expand(st.region, position.value, st.span.n, value.value);
    return Emit(out, st);
  }

  method FixedDataStep(line: string, st: WalkState) returns (o: Outcome)
    ensures o == FixedData(line, st)
  {
    var value := ParseValue(line);
    if value.None? {
      return Raise(CouldNotParse(line));
    }
    if st.span.TextSpan? {
      return Raise(TypeError);
    }
    var out := Expand(st.region, st.start, st.span.n, value.value);
    return Emit(out, st.(start := st.start + st.step));
  }

  /** One turn of the `for line in track` loop. */
  method WalkLineStep(line: string, st: WalkState) returns (o: Outcome)
    ensures o == WalkLine(line, st)
  {
    if "browser" <= line || "track" <= line {
      o := Emit([], st);
    } else if "variableStep" <= line {
      o := ApplyHeader(DecodeVariableStep(line), st);
    } else if "fixedStep" <= line {
      o := ApplyHeader(DecodeFixedStep(line), st);
    } else if st.format == VariableFormat {
      o := VariableDataStep(line, st);
    } else if st.format == FixedFormat {
      o := FixedDataStep(line, st);
    } else {
      o := Raise(CouldNotParse(line));
    }
  }

  /** One step of Scan, by the outcome of the first line. */
  lemma ScanStep(lines: seq<string>, expected: Option<string>, st: WalkState, o: Outcome)
    requires lines != [] && o == WalkLine(lines[0], st)
    ensures o.Raise? ==> Scan(lines, expected, st) == Scanned([], st, Some(o.error))
    ensures o.NewRegion? && expected.Some? && o.state.region != expected.value ==>
              Scan(lines, expected, st) == Scanned([], o.state, None)
    ensures o.NewRegion? && !(expected.Some? && o.state.region != expected.value) ==>
              Scan(lines, expected, st) == Scan(lines[1..], expected, o.state)
    ensures o.Emit? ==> Scan(lines, expected, st) == After(o.items, Scan(lines[1..], expected, o.state))
  {
  }

  lemma AfterAfter(a: seq<Item<Number>>, b: seq<Item<Number>>, r: Scanned)
    ensures After(a, After(b, r)) == After(a + b, r)
  {
    assert a + (b + r.items) == (a + b) + r.items;
  }

  /** The `for line in track` loop from the given lines on. */
  method ScanLines(lines: seq<string>, expected: Option<string>, st0: WalkState) returns (r: Scanned)
    ensures r == Scan(lines, expected, st0)
  {
    var items: seq<Item<Number>> := [];
    var st := st0;
    var i := 0;
    while i < |lines|
      invariant 0 <= i <= |lines|
      invariant Scan(lines, expected, st0) == After(items, Scan(lines[i..], expected, st))
    {
      assert lines[i..][0] == lines[i] && lines[i..][1..] == lines[i + 1..];
      var o := WalkLineStep(lines[i], st);
      ScanStep(lines[i..], expected, st, o);
      match o {
        case Raise(e) =>
          return Scanned(items, st, Some(e));
        case NewRegion(st') =>
          if expected.Some? && st'.region != expected.value {
            return Scanned(items, st', None);
          }
          st := st';
        case Emit(es, st') =>
          AfterAfter(items, es, Scan(lines[i + 1..], expected, st'));
          items := items + es;
          st := st';
      }
      i := i + 1;
    }
    assert lines[i..] == [];
    return Scanned(items, st, None);
  }

  /** `sorted(idx)`: the keys, inserted one by one into a sorted list. */
  method SortRegions(m: map<string, nat>) returns (rs: seq<string>)
    ensures rs == SortedKeys(m.Keys)
  {
    var remaining := m.Keys;
    rs := [];
    while remaining != {}
      invariant StrictlySorted(rs)
      invariant forall k :: k in m.Keys <==> k in rs || k in remaining
      invariant forall k :: k in rs ==> k !in remaining
      decreases |remaining|
    {
      var x :| x in remaining;
      var j := 0;
      while j < |rs| && LexLess(rs[j], x)
        invariant 0 <= j <= |rs|
        invariant forall q :: 0 <= q < j ==> LexLess(rs[q], x)
      {
        j := j + 1;
      }
      forall q | j <= q < |rs| ensures LexLess(x, rs[q]) {
        LexTotal(rs[j], x);
        if q > j {
          LexTransitive(x, rs[j], rs[q]);
        }
      }
      rs := rs[..j] + [x] + rs[j..];
      remaining := remaining - {x};
    }
    SortedUnique(rs, SortedKeys(m.Keys));
  }

  /** The indexed walk: each region in turn, from its recorded line. */
  method WalkIndexed(lines: seq<string>, m: map<string, nat>, regions: seq<string>)
    returns (items: seq<Item<Number>>, error: Option<WalkError>)
    requires forall i :: 0 <= i < |regions| ==> regions[i] in m
    ensures Walked(items, error) == WalkRegions(lines, m, regions, Initial)
  {
    var st := Initial;
    items, error := [], None;
    var k := 0;
    while k < |regions|
      invariant 0 <= k <= |regions|
      invariant WalkRegions(lines, m, regions, Initial) ==
                var rest := WalkRegions(lines, m, regions[k..], st);
                Walked(items + rest.items, rest.error)
    {
      assert regions[k..][0] == regions[k] && regions[k..][1..] == regions[k + 1..];
      var r := ScanLines(Seek(lines, m[regions[k]]), Some(regions[k]), st);
      if r.error.Some? {
        return items + r.items, r.error;
      }
      ConcatAssoc(items, r.items, WalkRegions(lines, m, regions[k + 1..], r.state).items);
      items := items + r.items;
      st := r.state;
      k := k + 1;
    }
    assert regions[k..] == [];
  }

  /** `walk(track)` with `index(track)` returning `idx`. */
  method Walk(lines: seq<string>, idx: Option<map<string, nat>>) returns (items: seq<Item<Number>>, error: Option<WalkError>)
    ensures Walked(items, error) == WalkSpec(lines, idx)
  {
    if idx.None? {
      var r := ScanLines(lines, None, Initial);
      return r.items, r.error;
    }
    var regions := SortRegions(idx.value);
    items, error := WalkIndexed(lines, idx.value, regions);
  }

  // -----------------------------------------------------------------------
  // Properties of one line
  // -----------------------------------------------------------------------

  /** A line that is neither skipped nor a header: a data line. */
  predicate IsData(line: string) {
    !("browser" <= line) && !("track" <= line) && !("variableStep" <= line) && !("fixedStep" <= line)
  }

  lemma DataByFirstChar(line: string)
    requires line != [] && line[0] != 'b' && line[0] != 't' && line[0] != 'v' && line[0] != 'f'
    ensures IsData(line)
  {
  }

  /** `browser` and `track` lines are skipped; the state stays as it is. */
  lemma {:induction false} SkippedLine(lines: seq<string>, expected: Option<string>, st: WalkState)
    requires lines != [] && ("browser" <= lines[0] || "track" <= lines[0])
    ensures Scan(lines, expected, st) == Scan(lines[1..], expected, st)
  {
    ScanStep(lines, expected, st, WalkLine(lines[0], st));
    assert [] + Scan(lines[1..], expected, st).items == Scan(lines[1..], expected, st).items;
  }

  /** A data line before any header raises 'Could not parse line'. */
  lemma DataBeforeHeader(lines: seq<string>, expected: Option<string>)
    requires lines != [] && IsData(lines[0])
    ensures Scan(lines, expected, Initial) == Scanned([], Initial, Some(CouldNotParse(lines[0])))
  {
    ScanStep(lines, expected, Initial, WalkLine(lines[0], Initial));
  }

  /** In variable format any data line that splits into a position `a`
      read by `int()` and a value `b` yields `(region, p + i, v)` for each i
      below the span, whatever its blanks, signs or leading zeros. */
  lemma VariableDataLineExpands(line: string, a: string, b: string, p: int, v: Number, st: WalkState)
    requires st.format == VariableFormat && st.span.IntSpan?
    requires IsData(line) && Split(line) == [a, b] && ParseInt(a) == Some(p) && ParseValue(b) == Some(v)
    ensures WalkLine(line, st) == Emit(Repeat(st.region, p, st.span.n, v), st)
  {
  }

  /** In particular a line written as `<p> <value>` yields `(region, p + i,
      value)` for each i below the span, for any position p, negative ones
      included. */
  lemma VariableDataExpands(p: int, tok: string, v: Number, st: WalkState)
    requires st.format == VariableFormat && st.span.IntSpan?
    requires tok != [] && NoSpace(tok) && ParseValue(tok) == Some(v)
    ensures WalkLine(IntToString(p) + " " + tok + "\n", st) == Emit(Repeat(st.region, p, st.span.n, v), st)
  {
    var num := IntToString(p);
    var line := num + " " + tok + "\n";
    assert line[0] == num[0];
    DataByFirstChar(line);
    assert NoSpace(num);
    SplitPair(num, tok, ' ', '\n');
    assert line == num + [' '] + tok + ['\n'];
    ParseIntOfIntToString(p);
    VariableDataLineExpands(line, num, tok, p, v, st);
  }

  /** A `variableStep` span is never converted to an int: once one is given,
      the next well-formed data line fails in `range(span)`. */
  lemma TextSpanFails(line: string, st: WalkState)
    requires st.format == VariableFormat && st.span.TextSpan? && IsData(line)
    requires |Split(line)| == 2 && ParseInt(Split(line)[0]).Some? && ParseValue(Split(line)[1]).Some?
    ensures WalkLine(line, st) == Raise(TypeError)
  {
  }

  /** In fixed format a line holding the value `v` yields `(region, start + i,
      v)` for each i below the span, then moves `start` on by `step`. */
  predicate FixedValue(line: string, v: Number) {
    IsData(line) && ParseValue(line) == Some(v)
  }

  lemma FixedDataExpands(line: string, v: Number, st: WalkState)
    requires st.format == FixedFormat && st.span.IntSpan? && FixedValue(line, v)
    ensures WalkLine(line, st) == Emit(Repeat(st.region, st.start, st.span.n, v), st.(start := st.start + st.step))
  {
  }

  /** A header written from clean attributes `fs` applies the dictionary of
      those attributes (a later key overrides an earlier one). */
  lemma VariableStepLine(fs: seq<(string, string)>, st: WalkState)
    requires CleanFields(fs)
    ensures WalkLine("variableStep" + Attributes(fs) + "\n", st) == ApplyHeader(VariableFields(FieldMap(fs)), st)
  {
    var line := "variableStep" + Attributes(fs) + "\n";
    HeaderFields("variableStep", fs, '\n');
    assert line[0] == 'v';
  }

  lemma FixedStepLine(fs: seq<(string, string)>, st: WalkState)
    requires CleanFields(fs)
    ensures var line := "fixedStep" + Attributes(fs) + "\n";
            WalkLine(line, st) == ApplyHeader(FixedFields(line, FieldMap(fs)), st)
  {
    var line := "fixedStep" + Attributes(fs) + "\n";
    HeaderFields("fixedStep", fs, '\n');
    assert line[0] == 'f';
  }

  /** The attributes `fs` give the key `k` the value `v`. */
  predicate HasField(fs: seq<(string, string)>, k: string, v: string) {
    k in FieldMap(fs) && FieldMap(fs)[k] == v
  }

  /** An explicit `span=` on a `variableStep` header is kept as text. */
  lemma VariableStepKeepsSpanText(fs: seq<(string, string)>, chrom: string, span: string, st: WalkState)
    requires CleanFields(fs) && HasField(fs, "chrom", chrom) && HasField(fs, "span", span)
    ensures WalkLine("variableStep" + Attributes(fs) + "\n", st) ==
            NewRegion(st.(format := VariableFormat, region := chrom, span := TextSpan(span)))
  {
    VariableStepLine(fs, st);
  }

  /** Without `span=` a `variableStep` header sets span 1; start and step
      stay as they were. */
  lemma VariableStepDefaultSpan(fs: seq<(string, string)>, chrom: string, st: WalkState)
    requires CleanFields(fs) && HasField(fs, "chrom", chrom) && "span" !in FieldMap(fs)
    ensures WalkLine("variableStep" + Attributes(fs) + "\n", st) ==
            NewRegion(st.(format := VariableFormat, region := chrom, span := IntSpan(1)))
  {
    VariableStepLine(fs, st);
  }

  /** A `fixedStep` header with `chrom`, `start` and `step` (and `span`,
      default 1) starts a fixed block. */
  lemma FixedStepStarts(fs: seq<(string, string)>, chrom: string, start: int, step: int, span: int, st: WalkState)
    requires CleanFields(fs) && HasField(fs, "chrom", chrom)
    requires HasField(fs, "start", IntToString(start)) && HasField(fs, "step", IntToString(step))
    requires if "span" in FieldMap(fs) then FieldMap(fs)["span"] == IntToString(span) else span == 1
    ensures WalkLine("fixedStep" + Attributes(fs) + "\n", st) ==
            NewRegion(WalkState(FixedFormat, chrom, start, step, IntSpan(span)))
  {
    FixedStepLine(fs, st);
    ParseIntOfIntToString(start);
    ParseIntOfIntToString(step);
    ParseIntOfIntToString(span);
  }

  /** A `fixedStep` header requires `step`: without it the walk raises
      KeyError. */
  lemma FixedStepNeedsStep(fs: seq<(string, string)>, st: WalkState)
    requires CleanFields(fs) && "chrom" in FieldMap(fs) && "start" in FieldMap(fs)
    requires ParseInt(FieldMap(fs)["start"]).Some? && "step" !in FieldMap(fs)
    ensures WalkLine("fixedStep" + Attributes(fs) + "\n", st) == Raise(KeyError("step"))
  {
    FixedStepLine(fs, st);
  }

  /** A header without `chrom` raises KeyError. */
  lemma HeaderNeedsChrom(fs: seq<(string, string)>, st: WalkState)
    requires CleanFields(fs) && "chrom" !in FieldMap(fs)
    ensures WalkLine("variableStep" + Attributes(fs) + "\n", st) == Raise(KeyError("chrom"))
    ensures WalkLine("fixedStep" + Attributes(fs) + "\n", st) == Raise(KeyError("chrom"))
  {
    VariableStepLine(fs, st);
    FixedStepLine(fs, st);
  }

  // -----------------------------------------------------------------------
  // Properties of runs of lines
  // -----------------------------------------------------------------------

  /** The records of a fixed block: each value repeated over the span, at
      `start`, `start + step`, `start + 2 * step`, ... (see Advance). */
  function FixedBlock(region: string, start: int, step: int, n: int, vs: seq<Number>): seq<Item<Number>>
    decreases |vs|
  {
    if vs == [] then [] else Repeat(region, start, n, vs[0]) + FixedBlock(region, start + step, step, n, vs[1..])
  }

  /** A fixed block over two runs of values is the block of the first run
      followed by that of the second, started where the first one ends. */
  lemma {:induction false} FixedBlockAppend(region: string, start: int, step: int, n: int, a: seq<Number>, b: seq<Number>)
    ensures FixedBlock(region, start, step, n, a + b) ==
            FixedBlock(region, start, step, n, a) + FixedBlock(region, Advance(start, step, |a|), step, n, b)
    decreases |a|
  {
    if a == [] {
      assert a + b == b;
    } else {
      assert (a + b)[0] == a[0] && (a + b)[1..] == a[1..] + b;
      FixedBlockAppend(region, start + step, step, n, a[1..], b);
      AdvanceShift(start, step, |a| - 1);
      ConcatAssoc(Repeat(region, start, n, a[0]), FixedBlock(region, start + step, step, n, a[1..]),
                  FixedBlock(region, Advance(start, step, |a|), step, n, b));
    }
  }

  /** The k-th value of a fixed block is expanded at `start` advanced k times. */
  lemma FixedBlockParts(region: string, start: int, step: int, n: int, vs: seq<Number>, k: nat)
    requires k < |vs|
    ensures FixedBlock(region, start, step, n, vs) ==
            FixedBlock(region, start, step, n, vs[..k]) + Repeat(region, Advance(start, step, k), n, vs[k]) +
            FixedBlock(region, Advance(start, step, k + 1), step, n, vs[k + 1..])
  {
    var c := [vs[k]] + vs[k + 1..];
    assert vs == vs[..k] + c;
    FixedBlockAppend(region, start, step, n, vs[..k], c);
    assert c[0] == vs[k] && c[1..] == vs[k + 1..];
    ConcatAssoc(FixedBlock(region, start, step, n, vs[..k]), Repeat(region, Advance(start, step, k), n, vs[k]),
                FixedBlock(region, Advance(start, step, k + 1), step, n, vs[k + 1..]));
  }

  /** The fixed-block induction for any line step `f` that behaves like the
      walk's on the lines `value` accepts. */
  lemma {:induction false} ScanByFixed(f: (string, WalkState) -> Outcome, value: (string, Number) -> bool,
                                       lines: seq<string>, vs: seq<Number>, expected: Option<string>, st: WalkState)
    requires forall line: string, v: Number, t: WalkState {:trigger f(line, t), value(line, v)} ::
               t.format == FixedFormat && t.span.IntSpan? && value(line, v) ==>
               f(line, t) == Emit(Repeat(t.region, t.start, t.span.n, v), t.(start := t.start + t.step))
    requires st.format == FixedFormat && st.span.IntSpan?
    requires |vs| == |lines| && forall i :: 0 <= i < |lines| ==> value(lines[i], vs[i])
    ensures ScanBy(f, lines, expected, st) ==
            Scanned(FixedBlock(st.region, st.start, st.step, st.span.n, vs), st.(start := Advance(st.start, st.step, |lines|)), None)
    decreases |lines|
  {
    if lines == [] {
      assert st.(start := Advance(st.start, st.step, 0)) == st;
    } else {
      var st' := st.(start := st.start + st.step);
      assert value(lines[0], vs[0]);
      assert f(lines[0], st) == Emit(Repeat(st.region, st.start, st.span.n, vs[0]), st');
      forall i | 0 <= i < |lines[1..]| ensures value(lines[1..][i], vs[1..][i]) {
        assert lines[1..][i] == lines[i + 1] && vs[1..][i] == vs[i + 1];
      }
      ScanByFixed(f, value, lines[1..], vs[1..], expected, st');
      AdvanceShift(st.start, st.step, |lines| - 1);
      assert st'.(start := Advance(st'.start, st.step, |lines| - 1)) == st.(start := Advance(st.start, st.step, |lines|));
    }
  }

  /** Value lines after a `fixedStep` header: one Repeat per value, `start`
      moved on by `step` per line, and no error. */
  lemma ScanFixedBlock(lines: seq<string>, vs: seq<Number>, expected: Option<string>, st: WalkState)
    requires st.format == FixedFormat && st.span.IntSpan?
    requires |vs| == |lines| && forall i :: 0 <= i < |lines| ==> FixedValue(lines[i], vs[i])
    ensures Scan(lines, expected, st) ==
            Scanned(FixedBlock(st.region, st.start, st.step, st.span.n, vs), st.(start := Advance(st.start, st.step, |lines|)), None)
  {
    forall line: string, v: Number, t: WalkState | t.format == FixedFormat && t.span.IntSpan? && FixedValue(line, v)
      ensures WalkLine(line, t) == Emit(Repeat(t.region, t.start, t.span.n, v), t.(start := t.start + t.step))
    {
      FixedDataExpands(line, v, t);
    }
    ScanByFixed(WalkLine, FixedValue, lines, vs, expected, st);
  }

  /** A value line `<k>\n` holds the int k. */
  lemma WrittenValueLine(k: int)
    ensures FixedValue(IntToString(k) + "\n", IntValue(k))
  {
    var line := IntToString(k) + "\n";
    assert line[0] == IntToString(k)[0];
    DataByFirstChar(line);
    ParseIntOfIntToStringLine(k, '\n');
  }

  /** The header line `fixedStep chrom=<c> start=<n> step=<d> span=<w>`. */
  function FixedStepText(chrom: string, start: int, step: int, span: int): string {
    "fixedStep chrom=" + chrom + " start=" + IntToString(start) + " step=" + IntToString(step) +
    " span=" + IntToString(span) + "\n"
  }

  function FixedAttributes(chrom: string, a: string, b: string, c: string): seq<(string, string)> {
    [("chrom", chrom), ("start", a), ("step", b), ("span", c)]
  }

  lemma FixedAttributesText(chrom: string, a: string, b: string, c: string)
    ensures "fixedStep" + Attributes(FixedAttributes(chrom, a, b, c)) + "\n" ==
            "fixedStep chrom=" + chrom + " start=" + a + " step=" + b + " span=" + c + "\n"
  {
    AttributesConsPair("span", c, []);
    AttributesConsPair("step", b, [("span", c)]);
    AttributesConsPair("start", a, [("step", b), ("span", c)]);
    AttributesConsPair("chrom", chrom, [("start", a), ("step", b), ("span", c)]);
  }

  lemma FixedAttributesMap(chrom: string, a: string, b: string, c: string)
    ensures FieldMap(FixedAttributes(chrom, a, b, c)) == map["chrom" := chrom, "start" := a, "step" := b, "span" := c]
  {
    var p1, p2, p3 := [("chrom", chrom)], [("chrom", chrom), ("start", a)], [("chrom", chrom), ("start", a), ("step", b)];
    assert [] + p1 == p1 && p1 + [("start", a)] == p2 && p2 + [("step", b)] == p3;
    assert p3 + [("span", c)] == FixedAttributes(chrom, a, b, c);
    FieldMapSnoc([], "chrom", chrom);
    FieldMapSnoc(p1, "start", a);
    FieldMapSnoc(p2, "step", b);
    FieldMapSnoc(p3, "span", c);
  }

  /** A fully spelt-out `fixedStep` header starts a fixed block in that
      region at that start, step and span. */
  lemma FixedStepWritten(chrom: string, start: int, step: int, span: int, st: WalkState)
    requires Clean(chrom)
    ensures WalkLine(FixedStepText(chrom, start, step, span), st) ==
            NewRegion(WalkState(FixedFormat, chrom, start, step, IntSpan(span)))
  {
    var a, b, c := IntToString(start), IntToString(step), IntToString(span);
    var fs := FixedAttributes(chrom, a, b, c);
    IntToStringClean(start);
    IntToStringClean(step);
    IntToStringClean(span);
    assert CleanFields(fs);
    FixedAttributesText(chrom, a, b, c);
    FixedAttributesMap(chrom, a, b, c);
    FixedStepStarts(fs, chrom, start, step, span, st);
  }

  lemma ExampleHeaderText()
    ensures FixedStepText("chr8", 1, 5, 2) == "fixedStep chrom=chr8 start=1 step=5 span=2\n"
  {
    assert IntToString(1) == "1" && IntToString(5) == "5" && IntToString(2) == "2";
  }

  lemma ExampleBlock()
    ensures FixedBlock("chr8", 1, 5, 2, [IntValue(11), IntValue(33), IntValue(44)]) ==
            [Item("chr8", 1, IntValue(11)), Item("chr8", 2, IntValue(11)),
             Item("chr8", 6, IntValue(33)), Item("chr8", 7, IntValue(33)),
             Item("chr8", 11, IntValue(44)), Item("chr8", 12, IntValue(44))]
  {
    var vs := [IntValue(11), IntValue(33), IntValue(44)];
    assert vs[1..] == [IntValue(33), IntValue(44)] && vs[1..][1..] == [IntValue(44)] && vs[1..][1..][1..] == [];
    assert FixedBlock("chr8", 1, 5, 2, vs) ==
           Repeat("chr8", 1, 2, vs[0]) + Repeat("chr8", 6, 2, vs[1]) + Repeat("chr8", 11, 2, vs[2]);
  }

  /** A header for any region when no region is expected: the walk goes on
      from the next line in the new state. */
  lemma ScanAfterHeader(lines: seq<string>, st: WalkState, st': WalkState)
    requires lines != [] && WalkLine(lines[0], st) == NewRegion(st')
    ensures Scan(lines, None, st) == Scan(lines[1..], None, st')
  {
    ScanStep(lines, None, st, NewRegion(st'));
  }

  /** The block `fixedStep chrom=chr8 start=1 step=5 span=2` (see
      ExampleHeaderText) with the values 11, 33 and 44 expands to six
      records, two per value. */
  lemma SpanExpansionExample()
    ensures Scan([FixedStepText("chr8", 1, 5, 2), IntToString(11) + "\n", IntToString(33) + "\n", IntToString(44) + "\n"],
                 None, Initial) ==
            Scanned([Item("chr8", 1, IntValue(11)), Item("chr8", 2, IntValue(11)),
                     Item("chr8", 6, IntValue(33)), Item("chr8", 7, IntValue(33)),
                     Item("chr8", 11, IntValue(44)), Item("chr8", 12, IntValue(44))],
                    WalkState(FixedFormat, "chr8", 16, 5, IntSpan(2)), None)
  {
    var values := [IntToString(11) + "\n", IntToString(33) + "\n", IntToString(44) + "\n"];
    var lines := [FixedStepText("chr8", 1, 5, 2)] + values;
    var st := WalkState(FixedFormat, "chr8", 1, 5, IntSpan(2));
    assert Clean("chr8");
    FixedStepWritten("chr8", 1, 5, 2, Initial);
    assert lines[1..] == values;
    ScanAfterHeader(lines, Initial, st);
    WrittenValueLine(11);
    WrittenValueLine(33);
    WrittenValueLine(44);
    ScanFixedBlock(values, [IntValue(11), IntValue(33), IntValue(44)], None, st);
    assert Advance(1, 5, 3) == 16;
    ExampleBlock();
  }

  // -----------------------------------------------------------------------
  // The indexed walk visits the regions in order
  // -----------------------------------------------------------------------

  /** A well-formed header starts its region. */
  lemma HeaderStartsRegion(line: string, st: WalkState, r: string)
    requires HeaderRegion(line) == Some(r)
    ensures WalkLine(line, st).NewRegion? && WalkLine(line, st).state.region == r
  {
  }

  /** Data and skipped lines keep the region and yield records in it. */
  lemma EmitKeepsRegion(line: string, st: WalkState)
    ensures var o := WalkLine(line, st);
            o.Emit? ==> o.state.region == st.region && forall k :: 0 <= k < |o.items| ==> o.items[k].region == st.region
  {
  }

  /** Walking from a header for another region than the expected one yields
      nothing: the walk of this region ends there. */
  lemma ScanStopsAtOtherRegion(lines: seq<string>, r: string, r': string, st: WalkState)
    requires lines != [] && HeaderRegion(lines[0]) == Some(r') && r' != r
    ensures Scan(lines, Some(r), st).items == [] && Scan(lines, Some(r), st).error == None
  {
    HeaderStartsRegion(lines[0], st, r');
    ScanStep(lines, Some(r), st, WalkLine(lines[0], st));
  }

  /** While walking region r, every record yielded is in r. */
  lemma {:induction false} ScanInRegion(lines: seq<string>, r: string, st: WalkState)
    requires st.region == r
    ensures forall k :: 0 <= k < |Scan(lines, Some(r), st).items| ==> Scan(lines, Some(r), st).items[k].region == r
    decreases |lines|
  {
    if lines != [] {
      var o := WalkLine(lines[0], st);
      ScanStep(lines, Some(r), st, o);
      EmitKeepsRegion(lines[0], st);
      match o {
        case Raise(_) =>
        case NewRegion(st') =>
          if st'.region == r {
            ScanInRegion(lines[1..], r, st');
          }
        case Emit(items, st') =>
          ScanInRegion(lines[1..], r, st');
      }
    }
  }

  /** Walking region r from its header yields records in r only. */
  lemma ScanFromHeader(lines: seq<string>, r: string, st: WalkState)
    requires lines != [] && HeaderRegion(lines[0]) == Some(r)
    ensures forall k :: 0 <= k < |Scan(lines, Some(r), st).items| ==> Scan(lines, Some(r), st).items[k].region == r
  {
    HeaderStartsRegion(lines[0], st, r);
    var o := WalkLine(lines[0], st);
    ScanStep(lines, Some(r), st, o);
    ScanInRegion(lines[1..], r, o.state);
  }

  /** Records grouped by region, the regions in ascending order. */
  predicate RegionOrdered(items: seq<Item<Number>>) {
    forall i, j :: 0 <= i < j < |items| ==> items[i].region == items[j].region || LexLess(items[i].region, items[j].region)
  }

  /** Every region of the index points at a header line for that region, as
      `index` records them. */
  predicate IndexAgrees(lines: seq<string>, idx: map<string, nat>) {
    forall r :: r in idx ==> idx[r] < |lines| && HeaderRegion(lines[idx[r]]) == Some(r)
  }

  /** Records of one region followed by ordered records of later regions are
      ordered. */
  lemma OrderedConcat(a: seq<Item<Number>>, b: seq<Item<Number>>, r0: string)
    requires forall k :: 0 <= k < |a| ==> a[k].region == r0
    requires forall k :: 0 <= k < |b| ==> LexLess(r0, b[k].region)
    requires RegionOrdered(b)
    ensures RegionOrdered(a + b)
  {
    var all := a + b;
    forall i, j | 0 <= i < j < |all| ensures all[i].region == all[j].region || LexLess(all[i].region, all[j].region) {
      if j < |a| {
        assert all[i] == a[i] && all[j] == a[j];
      } else if i < |a| {
        assert all[i] == a[i] && all[j] == b[j - |a|];
      } else {
        assert all[i] == b[i - |a|] && all[j] == b[j - |a|];
      }
    }
  }

  lemma {:induction false} WalkRegionsOrdered(lines: seq<string>, idx: map<string, nat>, regions: seq<string>, st: WalkState)
    requires StrictlySorted(regions) && (forall i :: 0 <= i < |regions| ==> regions[i] in idx) && IndexAgrees(lines, idx)
    ensures RegionOrdered(WalkRegions(lines, idx, regions, st).items)
    ensures forall k :: 0 <= k < |WalkRegions(lines, idx, regions, st).items| ==> WalkRegions(lines, idx, regions, st).items[k].region in regions
    decreases |regions|
  {
    if regions != [] {
      var r0 := regions[0];
      var part := Seek(lines, idx[r0]);
      var r := Scan(part, Some(r0), st);
      assert part[0] == lines[idx[r0]];
      ScanFromHeader(part, r0, st);
      if r.error.None? {
        var tail := regions[1..];
        assert StrictlySorted(tail);
        assert forall i :: 0 <= i < |tail| ==> tail[i] in idx by {
          forall i | 0 <= i < |tail| ensures tail[i] in idx {
            assert tail[i] == regions[i + 1];
          }
        }
        WalkRegionsOrdered(lines, idx, tail, r.state);
        var rest := WalkRegions(lines, idx, tail, r.state);
        var all := r.items + rest.items;
        assert forall k :: 0 <= k < |rest.items| ==> LexLess(r0, rest.items[k].region) by {
          forall k | 0 <= k < |rest.items| ensures LexLess(r0, rest.items[k].region) {
            var q :| 0 <= q < |tail| && tail[q] == rest.items[k].region;
            assert tail[q] == regions[q + 1];
          }
        }
        OrderedConcat(r.items, rest.items, r0);
        forall k | 0 <= k < |all| ensures all[k].region in regions {
          if k < |r.items| {
            assert all[k] == r.items[k];
          } else {
            assert all[k] == rest.items[k - |r.items|];
            assert rest.items[k - |r.items|].region in tail;
          }
        }
      }
    }
  }

  /** With an index that agrees with the track, the indexed walk yields the
      records grouped by region, the regions in `sorted(idx)` order. */
  lemma IndexedWalkOrdered(lines: seq<string>, m: map<string, nat>)
    requires IndexAgrees(lines, m)
    ensures RegionOrdered(WalkSpec(lines, Some(m)).items)
    ensures forall k :: 0 <= k < |WalkSpec(lines, Some(m)).items| ==> WalkSpec(lines, Some(m)).items[k].region in m
  {
    var regions := SortedKeys(m.Keys);
    WalkRegionsOrdered(lines, m, regions, Initial);
  }
}
