/** wiggelen/intervals.py: the runs of consecutively defined positions of a
    walk, and their BED rendering. */
module Intervals {
  import opened Text
  import opened WigFormat
  import opened Track

  /** `(region, begin, end)`, one-based and inclusive. */
  datatype Interval = Interval(region: string, begin: int, end: int)

  // -----------------------------------------------------------------------
  // `coverage`
  // -----------------------------------------------------------------------

  /** The next record continues the open interval: same region, and the
      position right after its end. */
  predicate Extends<V>(iv: Interval, it: Item<V>) {
    it.region == iv.region && it.position == iv.end + 1
  }

  /** What is emitted for the interval still open. */
  function Backlog(open: Option<Interval>): (r: seq<Interval>)
    ensures |r| <= 1
  {
    if open.Some? then [open.value] else []
  }

  /** The intervals `coverage` yields from the remaining records when
      `interval` is `open`. */
  function CoverFrom<V>(open: Option<Interval>, items: seq<Item<V>>): seq<Interval>
    decreases |items|
  {
    if items == [] then Backlog(open)
    else
      var it := items[0];
      if open.Some? && Extends(open.value, it) then
        CoverFrom(Some(Interval(open.value.region, open.value.begin, it.position)), items[1..])
      else
        Backlog(open) + CoverFrom(Some(Interval(it.region, it.position, it.position)), items[1..])
  }

  /** `list(coverage(walker))`. */
  function Covered<V>(walker: seq<Item<V>>): seq<Interval> {
    CoverFrom(None, walker)
  }

  /** `coverage(walker)`: one pass with the open interval as accumulator. */
  method Coverage<V>(walker: seq<Item<V>>) returns (intervals: seq<Interval>)
    ensures intervals == Covered(walker)
  {
    var interval: Option<Interval> := None;
    intervals := [];
    for i := 0 to |walker|
      invariant intervals + CoverFrom(interval, walker[i..]) == Covered(walker)
    {
      var it := walker[i];
      assert walker[i..][0] == it && walker[i..][1..] == walker[i + 1..];
      if interval.Some? && !Extends(interval.value, it) {
        assert intervals + CoverFrom(interval, walker[i..])
            == (intervals + [interval.value]) + CoverFrom(Some(Interval(it.region, it.position, it.position)), walker[i + 1..]);
        intervals := intervals + [interval.value];
        interval := None;
      }
      if interval.None? {
        interval := Some(Interval(it.region, it.position, it.position));
      } else {
        interval := Some(Interval(interval.value.region, interval.value.begin, it.position));
      }
    }
    // Backlog.
    if interval.Some? {
      intervals := intervals + [interval.value];
    }
  }

  // -----------------------------------------------------------------------
  // What `coverage` promises
  // -----------------------------------------------------------------------

  /** The `(region, position)` keys of the records. */
  function Keys<V>(items: seq<Item<V>>): (ks: seq<(string, int)>)
    ensures |ks| == |items|
    ensures forall i :: 0 <= i < |items| ==> ks[i] == (items[i].region, items[i].position)
  {
    seq(|items|, i requires 0 <= i < |items| => (items[i].region, items[i].position))
  }

  /** The positions an interval covers, in order. */
  function Span(iv: Interval): (ks: seq<(string, int)>)
    ensures |ks| == if iv.begin <= iv.end then iv.end - iv.begin + 1 else 0
    ensures forall k :: 0 <= k < |ks| ==> ks[k] == (iv.region, iv.begin + k)
  {
    var n := if iv.begin <= iv.end then iv.end - iv.begin + 1 else 0;
    seq(n, k requires 0 <= k < n => (iv.region, iv.begin + k))
  }

  /** The positions a list of intervals covers, in order. */
  function Positions(ivs: seq<Interval>): seq<(string, int)>
    decreases |ivs|
  {
    if ivs == [] then [] else Span(ivs[0]) + Positions(ivs[1..])
  }

  /** `end - begin + 1`, summed. */
  function Length(ivs: seq<Interval>): int
    decreases |ivs|
  {
    if ivs == [] then 0 else (ivs[0].end - ivs[0].begin + 1) + Length(ivs[1..])
  }

  predicate Ordered(ivs: seq<Interval>) {
    forall k :: 0 <= k < |ivs| ==> ivs[k].begin <= ivs[k].end
  }

  /** Interval `b` picks up right where `a` ends. */
  predicate Continues(a: Interval, b: Interval) {
    b.region == a.region && b.begin == a.end + 1
  }

  /** No interval continues the one before it: the runs cannot be joined. */
  predicate Maximal(ivs: seq<Interval>) {
    forall k :: 0 <= k < |ivs| - 1 ==> !Continues(ivs[k], ivs[k + 1])
  }

  lemma SpanExtend(r: string, b: int, e: int)
    requires b <= e
    ensures Span(Interval(r, b, e + 1)) == Span(Interval(r, b, e)) + [(r, e + 1)]
  {
  }

  lemma PositionsCons(iv: Interval, ivs: seq<Interval>)
    ensures Positions([iv] + ivs) == Span(iv) + Positions(ivs)
  {
    assert ([iv] + ivs)[1..] == ivs;
  }

  lemma PositionsOne(iv: Interval)
    ensures Positions([iv]) == Span(iv)
  {
    PositionsCons(iv, []);
    assert [iv] + [] == [iv];
  }

  lemma KeysCons<V>(items: seq<Item<V>>)
    requires items != []
    ensures Keys(items) == [(items[0].region, items[0].position)] + Keys(items[1..])
  {
  }

  /** From an open interval the walk yields that interval's positions
      followed by those of the remaining records. */
  lemma {:induction false} CoverFromPositions<V>(open: Option<Interval>, items: seq<Item<V>>)
    requires open.Some? ==> open.value.begin <= open.value.end
    ensures Positions(CoverFrom(open, items)) == Positions(Backlog(open)) + Keys(items)
    decreases |items|
  {
    if items != [] {
      var it := items[0];
      KeysCons(items);
      if open.Some? && Extends(open.value, it) {
        var o := open.value;
        var o' := Interval(o.region, o.begin, it.position);
        CoverFromPositions(Some(o'), items[1..]);
        ExtendPositions(o, (it.region, it.position), Keys(items[1..]));
      } else {
        var first := Interval(it.region, it.position, it.position);
        CoverFromPositions(Some(first), items[1..]);
        BreakPositions(Backlog(open), first, CoverFrom(Some(first), items[1..]), Keys(items[1..]));
      }
    }
  }

  /** Extending the open interval by one position moves that position from
      the records to the interval. */
  lemma ExtendPositions(o: Interval, key: (string, int), rest: seq<(string, int)>)
    requires o.begin <= o.end && key == (o.region, o.end + 1)
    ensures Positions([Interval(o.region, o.begin, key.1)]) + rest == Positions([o]) + ([key] + rest)
  {
    var o' := Interval(o.region, o.begin, key.1);
    SpanExtend(o.region, o.begin, o.end);
    PositionsOne(o');
    PositionsOne(o);
    ConcatAssoc(Span(o), [key], rest);
  }

  /** Emitting the open interval and opening a new one at a record. */
  lemma BreakPositions(done: seq<Interval>, first: Interval, tail: seq<Interval>, rest: seq<(string, int)>)
    requires |done| <= 1 && first.begin == first.end
    requires Positions(tail) == Positions([first]) + rest
    ensures Positions(done + tail) == Positions(done) + ([(first.region, first.begin)] + rest)
  {
    var key := (first.region, first.begin);
    PositionsOne(first);
    assert Span(first) == [key];
    if done == [] {
      assert done + tail == tail;
    } else {
      assert done == [done[0]];
      PositionsCons(done[0], tail);
      PositionsOne(done[0]);
    }
    ConcatAssoc(Positions(done), [key], rest);
  }

  /** Read back, the intervals cover exactly the positions of the walk, in
      the walk's order. */
  lemma CoveredPositions<V>(walker: seq<Item<V>>)
    ensures Positions(Covered(walker)) == Keys(walker)
  {
    CoverFromPositions(None, walker);
  }

  /** Every interval has begin <= end, and each new interval starts at the
      record that did not extend the old one. */
  lemma {:induction false} CoverFromShape<V>(open: Option<Interval>, items: seq<Item<V>>)
    requires open.Some? ==> open.value.begin <= open.value.end
    ensures var out := CoverFrom(open, items);
            && Ordered(out) && Maximal(out)
            && (open.Some? ==> out != [] && out[0].region == open.value.region && out[0].begin == open.value.begin)
    decreases |items|
  {
    if items != [] {
      var it := items[0];
      var first := Interval(it.region, it.position, it.position);
      if open.Some? && Extends(open.value, it) {
        CoverFromShape(Some(Interval(open.value.region, open.value.begin, it.position)), items[1..]);
      } else {
        CoverFromShape(Some(first), items[1..]);
        var tail := CoverFrom(Some(first), items[1..]);
        if open.Some? {
          OrderedMaximalCons(open.value, tail);
        }
      }
    }
  }

  lemma OrderedMaximalCons(iv: Interval, ivs: seq<Interval>)
    requires iv.begin <= iv.end && Ordered(ivs) && Maximal(ivs)
    requires ivs != [] ==> !Continues(iv, ivs[0])
    ensures Ordered([iv] + ivs) && Maximal([iv] + ivs)
  {
    var all := [iv] + ivs;
    forall k | 1 <= k < |all| ensures all[k] == ivs[k - 1] {
    }
  }

  /** `coverage` yields intervals with begin <= end, none of which the next
      one continues: the maximal runs. */
  lemma CoveredMaximal<V>(walker: seq<Item<V>>)
    ensures Ordered(Covered(walker)) && Maximal(Covered(walker))
  {
    CoverFromShape(None, walker);
  }

  lemma {:induction false} PositionsLength(ivs: seq<Interval>)
    requires Ordered(ivs)
    ensures |Positions(ivs)| == Length(ivs)
    decreases |ivs|
  {
    if ivs != [] {
      assert Ordered(ivs[1..]) by {
        forall k | 0 <= k < |ivs[1..]| ensures ivs[1..][k].begin <= ivs[1..][k].end {
          assert ivs[1..][k] == ivs[k + 1];
        }
      }
      PositionsLength(ivs[1..]);
    }
  }

  /** The lengths of the intervals add up to the number of records. */
  lemma CoveredLength<V>(walker: seq<Item<V>>)
    ensures Length(Covered(walker)) == |walker|
  {
    CoveredPositions(walker);
    CoveredMaximal(walker);
    PositionsLength(Covered(walker));
  }

  /** No records, no intervals. */
  lemma CoveredEmpty<V>(walker: seq<Item<V>>)
    ensures Covered(walker) == [] <==> walker == []
  {
    CoveredPositions(walker);
    if walker != [] {
      assert |Positions(Covered(walker))| > 0;
    }
  }

  // -----------------------------------------------------------------------
  // The maximal runs are unique
  // -----------------------------------------------------------------------

  lemma FirstPosition(a: seq<Interval>)
    requires Ordered(a) && a != []
    ensures Positions(a) == Span(a[0]) + Positions(a[1..])
    ensures |Span(a[0])| == a[0].end - a[0].begin + 1 > 0
    ensures Positions(a)[0] == (a[0].region, a[0].begin)
    ensures Ordered(a[1..])
  {
    assert forall k :: 0 <= k < |a[1..]| ==> a[1..][k] == a[k + 1];
  }

  lemma MaximalTail(a: seq<Interval>)
    requires Maximal(a) && a != []
    ensures Maximal(a[1..])
  {
    assert forall k :: 0 <= k < |a[1..]| ==> a[1..][k] == a[k + 1];
  }

  /** If two lists cover the same positions and the first interval of `a`
      ends before that of `b`, the next interval of `a` continues it. */
  lemma ShortRunContinues(a: seq<Interval>, b: seq<Interval>)
    requires Ordered(a) && Ordered(b) && a != [] && b != []
    requires Positions(a) == Positions(b)
    requires a[0].region == b[0].region && a[0].begin == b[0].begin && a[0].end < b[0].end
    ensures |a| > 1 && Continues(a[0], a[1])
  {
    FirstPosition(a);
    FirstPosition(b);
    var n := a[0].end - a[0].begin + 1;
    var tail := Positions(a[1..]);
    assert Positions(a)[n] == Span(b[0])[n];
    assert |tail| > 0;
    FirstPosition(a[1..]);
    assert Positions(a)[n] == tail[0];
    assert a[1..][0] == a[1];
  }

  /** The intervals, begin <= end, that cover given positions without one
      continuing the next, are determined by those positions. */
  lemma {:induction false} RunsUnique(a: seq<Interval>, b: seq<Interval>)
    requires Ordered(a) && Ordered(b) && Maximal(a) && Maximal(b)
    requires Positions(a) == Positions(b)
    ensures a == b
    decreases |a|
  {
    if a == [] {
      if b != [] {
        FirstPosition(b);
      }
    } else if b == [] {
      FirstPosition(a);
    } else {
      FirstPosition(a);
      FirstPosition(b);
      if a[0].end < b[0].end {
        ShortRunContinues(a, b);
        assert false;
      } else if b[0].end < a[0].end {
        ShortRunContinues(b, a);
        assert false;
      } else {
        assert a[0] == b[0];
        var n := |Span(a[0])|;
        assert Positions(a[1..]) == Positions(a)[n..];
        assert Positions(b[1..]) == Positions(b)[n..];
        MaximalTail(a);
        MaximalTail(b);
        RunsUnique(a[1..], b[1..]);
        assert a == [a[0]] + a[1..] && b == [b[0]] + b[1..];
      }
    }
  }

  /** So `coverage` yields the one list of maximal runs that covers exactly
      the positions of the walk. */
  lemma CoveredIsTheRuns<V>(walker: seq<Item<V>>, ivs: seq<Interval>)
    requires Ordered(ivs) && Maximal(ivs) && Positions(ivs) == Keys(walker)
    ensures ivs == Covered(walker)
  {
    CoveredPositions(walker);
    CoveredMaximal(walker);
    RunsUnique(ivs, Covered(walker));
  }

  // -----------------------------------------------------------------------
  // Examples
  // -----------------------------------------------------------------------

  /** Positions 1-5 and 7-10 of one region. */
  lemma CoverageOneRegion()
    ensures var walker := [Item("a", 1, 5), Item("a", 2, 4), Item("a", 3, 4), Item("a", 4, 4), Item("a", 5, 5),
                           Item("a", 7, 3), Item("a", 8, 1), Item("a", 9, 5), Item("a", 10, 6)];
            Covered(walker) == [Interval("a", 1, 5), Interval("a", 7, 10)]
  {
    var walker := [Item("a", 1, 5), Item("a", 2, 4), Item("a", 3, 4), Item("a", 4, 4), Item("a", 5, 5),
                   Item("a", 7, 3), Item("a", 8, 1), Item("a", 9, 5), Item("a", 10, 6)];
    var ivs := [Interval("a", 1, 5), Interval("a", 7, 10)];
    assert Positions(ivs) == Span(ivs[0]) + Span(ivs[1]) by {
      PositionsCons(ivs[0], [ivs[1]]);
      PositionsOne(ivs[1]);
    }
    assert Positions(ivs) == Keys(walker);
    CoveredIsTheRuns(walker, ivs);
  }

  const TwoRegions := [Item("a", 1, 5), Item("a", 2, 4), Item("a", 4, 4), Item("a", 5, 5),
                        Item("b", 6, 5), Item("b", 7, 4), Item("b", 8, 4), Item("b", 12, 4)]

  lemma PositionsOfFour(i0: Interval, i1: Interval, i2: Interval, i3: Interval)
    ensures Positions([i0, i1, i2, i3]) == Span(i0) + (Span(i1) + (Span(i2) + Span(i3)))
  {
    PositionsCons(i0, [i1, i2, i3]);
    PositionsCons(i1, [i2, i3]);
    PositionsCons(i2, [i3]);
    PositionsOne(i3);
    assert [i0, i1, i2, i3] == [i0] + [i1, i2, i3];
    assert [i1, i2, i3] == [i1] + [i2, i3];
    assert [i2, i3] == [i2] + [i3];
  }

  lemma TwoRegionsPositions()
    ensures Positions([Interval("a", 1, 2), Interval("a", 4, 5), Interval("b", 6, 8), Interval("b", 12, 12)])
         == Keys(TwoRegions)
  {
    PositionsOfFour(Interval("a", 1, 2), Interval("a", 4, 5), Interval("b", 6, 8), Interval("b", 12, 12));
    assert Span(Interval("a", 1, 2)) == [("a", 1), ("a", 2)];
    assert Span(Interval("a", 4, 5)) == [("a", 4), ("a", 5)];
    assert Span(Interval("b", 6, 8)) == [("b", 6), ("b", 7), ("b", 8)];
    assert Span(Interval("b", 12, 12)) == [("b", 12)];
    assert Keys(TwoRegions) == [("a", 1), ("a", 2), ("a", 4), ("a", 5), ("b", 6), ("b", 7), ("b", 8), ("b", 12)];
  }

  /** Runs break where the position jumps and where the region changes. */
  lemma CoverageTwoRegions()
    ensures Covered(TwoRegions) == [Interval("a", 1, 2), Interval("a", 4, 5), Interval("b", 6, 8), Interval("b", 12, 12)]
  {
    TwoRegionsPositions();
    CoveredIsTheRuns(TwoRegions, [Interval("a", 1, 2), Interval("a", 4, 5), Interval("b", 6, 8), Interval("b", 12, 12)]);
  }

  // -----------------------------------------------------------------------
  // `write`: BED output
  // -----------------------------------------------------------------------

  /** The `track` line, with the name and description quoted when given. */
  function BedHeader(name: Option<string>, description: Option<string>): string {
    "track"
    + (if name.Some? then " name=\"" + name.value + "\"" else "")
    + (if description.Some? then " description=\"" + description.value + "\"" else "")
    + "\n"
  }

  /** `'%s\t%i\t%i\n' % interval`: begin is written as it is. */
  function BedLine(iv: Interval): string {
    iv.region + "\t" + IntToString(iv.begin) + "\t" + IntToString(iv.end) + "\n"
  }

  function BedLines(ivs: seq<Interval>): (ls: seq<string>)
    ensures |ls| == |ivs|
    ensures forall k :: 0 <= k < |ivs| ==> ls[k] == BedLine(ivs[k])
  {
    seq(|ivs|, k requires 0 <= k < |ivs| => BedLine(ivs[k]))
  }

  /** The lines `write` puts on the track. */
  function Bed(ivs: seq<Interval>, name: Option<string>, description: Option<string>): seq<string> {
    [BedHeader(name, description)] + BedLines(ivs)
  }

  /** `write(intervals, track, name, description)`, the track being the
      returned lines. */
  method Write(intervals: seq<Interval>, name: Option<string>, description: Option<string>)
    returns (lines: seq<string>)
    ensures lines == Bed(intervals, name, description)
  {
    var header := "track";
    if name.Some? {
      header := header + " name=\"" + name.value + "\"";
    }
    if description.Some? {
      header := header + " description=\"" + description.value + "\"";
    }
    header := header + "\n";
    assert header == BedHeader(name, description);
    lines := [header];
    assert BedLines(intervals[..0]) == [];
    for i := 0 to |intervals|
      invariant lines == [BedHeader(name, description)] + BedLines(intervals[..i])
    {
      assert BedLines(intervals[..i + 1]) == BedLines(intervals[..i]) + [BedLine(intervals[i])];
      lines := lines + [BedLine(intervals[i])];
    }
    assert intervals[..|intervals|] == intervals;
  }

  // -----------------------------------------------------------------------
  // Reading the BED text back
  // -----------------------------------------------------------------------

  /** A BED data line: three whitespace-separated fields, the last two
      integers. */
  function ReadBedLine(line: string): Option<Interval> {
    var t := Split(line);
    if |t| != 3 then None
    else
      match (ParseInt(t[1]), ParseInt(t[2]))
      case (Some(b), Some(e)) => Some(Interval(t[0], b, e))
      case _ => None
  }

  /** A region name a BED line can carry. */
  predicate Nameable(region: string) {
    region != [] && NoSpace(region)
  }

  /** A token followed by a blank splits off as the first token. */
  lemma SplitToken(a: string, blank: char, rest: string)
    requires a != [] && NoSpace(a) && IsSpace(blank)
    ensures Split(a + [blank] + rest) == [a] + Split(rest)
  {
    assert a + [blank] + rest == a + ([blank] + rest);
    SplitFromToken(a, [blank] + rest, []);
    assert [] + a == a;
    assert ([blank] + rest)[1..] == rest;
  }

  /** Three tokens separated by single blanks and ended by a line break
      split into those three tokens. */
  lemma SplitTriple(a: string, b: string, c: string, blank: char, eol: char)
    requires a != [] && b != [] && c != [] && NoSpace(a) && NoSpace(b) && NoSpace(c)
    requires IsSpace(blank) && IsSpace(eol)
    ensures Split(a + [blank] + b + [blank] + c + [eol]) == [a, b, c]
  {
    var rest := b + [blank] + c + [eol];
    assert a + [blank] + b + [blank] + c + [eol] == a + [blank] + rest;
    SplitToken(a, blank, rest);
    assert rest == b + [blank] + (c + [eol]);
    SplitToken(b, blank, c + [eol]);
    SplitSingle(c, eol);
  }

  /** A written BED line reads back as its interval. */
  lemma BedLineReads(iv: Interval)
    requires Nameable(iv.region)
    ensures ReadBedLine(BedLine(iv)) == Some(iv)
  {
    var b := IntToString(iv.begin);
    var e := IntToString(iv.end);
    IntToStringNoSpace(iv.begin);
    IntToStringNoSpace(iv.end);
    assert BedLine(iv) == iv.region + ['\t'] + b + ['\t'] + e + ['\n'];
    SplitTriple(iv.region, b, e, '\t', '\n');
    ParseIntOfIntToString(iv.begin);
    ParseIntOfIntToString(iv.end);
  }

  lemma BedLineIsLine(iv: Interval)
    requires Nameable(iv.region)
    ensures IsLine(BedLine(iv))
  {
    var l := BedLine(iv);
    var b := IntToString(iv.begin);
    var e := IntToString(iv.end);
    IntToStringNoSpace(iv.begin);
    IntToStringNoSpace(iv.end);
    NoBreak(iv.region);
    NoBreak(b);
    NoBreak(e);
    assert l[..|l| - 1] == iv.region + "\t" + b + "\t" + e;
  }

  /** The header starts with `track` and is one line when the name and
      description hold no line break; without them it is `track` alone. */
  lemma BedHeaderShape(name: Option<string>, description: Option<string>)
    requires name.Some? ==> '\n' !in name.value
    requires description.Some? ==> '\n' !in description.value
    ensures var h := BedHeader(name, description);
            h[..5] == "track" && IsLine(h)
    ensures name.None? && description.None? ==> BedHeader(name, description) == "track\n"
  {
    var h := BedHeader(name, description);
    var n := if name.Some? then " name=\"" + name.value + "\"" else "";
    var d := if description.Some? then " description=\"" + description.value + "\"" else "";
    assert h == "track" + n + d + "\n";
    assert h[..|h| - 1] == "track" + n + d;
    assert '\n' !in n;
    assert '\n' !in d;
  }

  /** The BED text reads back as the header and one line per interval, each
      of which parses as that interval. */
  lemma BedReadsBack(ivs: seq<Interval>, name: Option<string>, description: Option<string>)
    requires name.Some? ==> '\n' !in name.value
    requires description.Some? ==> '\n' !in description.value
    requires forall k :: 0 <= k < |ivs| ==> Nameable(ivs[k].region)
    ensures var lines := Lines(Join(Bed(ivs, name, description)));
            && |lines| == |ivs| + 1
            && lines[0] == BedHeader(name, description)
            && forall k :: 0 <= k < |ivs| ==> ReadBedLine(lines[k + 1]) == Some(ivs[k])
  {
    var bed := Bed(ivs, name, description);
    forall j | 0 <= j < |bed| ensures IsLine(bed[j]) {
      if j == 0 {
        BedHeaderShape(name, description);
      } else {
        BedLineIsLine(ivs[j - 1]);
      }
    }
    LinesJoin(bed);
    forall k | 0 <= k < |ivs| ensures ReadBedLine(bed[k + 1]) == Some(ivs[k]) {
      BedLineReads(ivs[k]);
    }
  }
}
