/** `write` of wiggelen/wiggle.py: records written as `variableStep` blocks,
    and the index of the byte offset at which each region's header was
    written. A written track is the sequence of strings passed to
    `track.write`, each one line. */
module WiggleWrite {
  import opened Text
  import opened WigFormat
  import opened Track
  import opened Wiggle

  /** The track line written first. */
  const TrackHeader: string := "track type=wiggle_0 name=\"\" description=\"\"\n"

  /** `'variableStep chrom=%s\n' % region`. */
  function ChromLine(region: string): string {
    "variableStep chrom=" + region + "\n"
  }

  /** `'%d %s\n' % (position, value)`, with the value already formatted. */
  function StepLine(position: int, value: string): string {
    IntToString(position) + " " + value + "\n"
  }

  // -----------------------------------------------------------------------
  // The loop of `write`
  // -----------------------------------------------------------------------

  /** The locals of `write`: what was written so far, `size`, `idx` and
      `current_region`. */
  datatype Writer = Writer(lines: seq<string>, size: nat, idx: map<string, nat>, current: Option<string>)

  /** After the track line. */
  const Start: Writer := Writer([TrackHeader], |TrackHeader|, map[], None)

  /** One record: a header first when its region differs from the current
      one, its offset going into the index; then the record line. `show` is
      the `'%s'` formatting of a value. */
  function Record<V>(w: Writer, it: Item<V>, show: V -> string): Writer {
    var chrom := ChromLine(it.region);
    var w' := if Some(it.region) != w.current
              then Writer(w.lines + [chrom], w.size + |chrom|, w.idx[it.region := w.size], Some(it.region))
              else w;
    var step := StepLine(it.position, show(it.value));
    w'.(lines := w'.lines + [step], size := w'.size + |step|)
  }

  /** The loop over the records from `w` on. */
  function WriteAll<V>(w: Writer, items: seq<Item<V>>, show: V -> string): Writer
    decreases |items|
  {
    if items == [] then w else WriteAll(Record(w, items[0], show), items[1..], show)
  }

  lemma WriteAllStep<V>(w: Writer, items: seq<Item<V>>, show: V -> string, i: nat)
    requires i < |items|
    ensures WriteAll(w, items[i..], show) == WriteAll(Record(w, items[i], show), items[i + 1..], show)
  {
    assert items[i..][0] == items[i] && items[i..][1..] == items[i + 1..];
  }

  /** `write(walker, track)`: the lines written and the index passed to
      `write_index`. */
  method Write<V>(items: seq<Item<V>>, show: V -> string) returns (lines: seq<string>, idx: map<string, nat>)
    ensures lines == WriteAll(Start, items, show).lines
    ensures idx == WriteAll(Start, items, show).idx
  {
    var size: nat := 0;
    var header := TrackHeader;
    lines := [header];
    size := size + |header|;
    idx := map[];
    var current: Option<string> := None;
    for i := 0 to |items|
      invariant WriteAll(Start, items, show) == WriteAll(Writer(lines, size, idx, current), items[i..], show)
    {
      WriteAllStep(Writer(lines, size, idx, current), items, show, i);
      lines, size, idx, current := WriteRecord(lines, size, idx, current, items[i], show);
    }
  }

  /** The body of the loop of `write` for one record. */
  method WriteRecord<V>(lines: seq<string>, size: nat, idx: map<string, nat>, current: Option<string>, it: Item<V>, show: V -> string)
    returns (lines': seq<string>, size': nat, idx': map<string, nat>, current': Option<string>)
    ensures Writer(lines', size', idx', current') == Record(Writer(lines, size, idx, current), it, show)
  {
    lines', size', idx', current' := lines, size, idx, current;
    if Some(it.region) != current {
      idx' := idx'[it.region := size'];
      var chrom := ChromLine(it.region);
      lines' := lines' + [chrom];
      size' := size' + |chrom|;
      current' := Some(it.region);
    }
    var step := StepLine(it.position, show(it.value));
    lines' := lines' + [step];
    size' := size' + |step|;
  }

  // -----------------------------------------------------------------------
  // The lines written
  // -----------------------------------------------------------------------

  /** The lines written for `items` when the current region is `current`:
      a header exactly where the region changes, one line per record. */
  function WriteLines<V>(items: seq<Item<V>>, show: V -> string, current: Option<string>): seq<string>
    decreases |items|
  {
    if items == [] then []
    else
      RecordLines(items[0], show, current) + WriteLines(items[1..], show, Some(items[0].region))
  }

  /** Everything `write` writes before the index. */
  function Written<V>(items: seq<Item<V>>, show: V -> string): seq<string> {
    [TrackHeader] + WriteLines(items, show, None)
  }

  lemma {:induction false} WriteAllLines<V>(w: Writer, items: seq<Item<V>>, show: V -> string)
    ensures WriteAll(w, items, show).lines == w.lines + WriteLines(items, show, w.current)
    decreases |items|
  {
    if items != [] {
      var it := items[0];
      var w' := Record(w, it, show);
      WriteAllLines(w', items[1..], show);
      var head := RecordLines(it, show, w.current);
      RecordWrites(w, it, show);
      ConcatAssoc(w.lines, head, WriteLines(items[1..], show, Some(it.region)));
    }
  }

  /** The lines one record adds after the region `current`. */
  function RecordLines<V>(it: Item<V>, show: V -> string, current: Option<string>): seq<string> {
    var step := StepLine(it.position, show(it.value));
    if Some(it.region) != current then [ChromLine(it.region), step] else [step]
  }

  lemma RecordWrites<V>(w: Writer, it: Item<V>, show: V -> string)
    ensures Record(w, it, show).lines == w.lines + RecordLines(it, show, w.current)
    ensures Record(w, it, show).current == Some(it.region)
  {
    if Some(it.region) != w.current {
      ConcatAssoc(w.lines, [ChromLine(it.region)], [StepLine(it.position, show(it.value))]);
      assert [ChromLine(it.region)] + [StepLine(it.position, show(it.value))] == RecordLines(it, show, w.current);
    }
  }

  /** `write` writes the track line, then each record in turn. */
  lemma WriteWritesLines<V>(items: seq<Item<V>>, show: V -> string)
    ensures WriteAll(Start, items, show).lines == Written(items, show)
  {
    WriteAllLines(Start, items, show);
  }

  /** A record line never looks like a header. */
  lemma StepLineIsData(position: int, value: string)
    ensures var l := StepLine(position, value);
            l[0] == IntToString(position)[0] && IsData(l)
  {
    var l := StepLine(position, value);
    assert l[0] == IntToString(position)[0];
    DataByFirstChar(l);
  }

  predicate HasChrom(lines: seq<string>, r: string) {
    exists j :: 0 <= j < |lines| && lines[j] == ChromLine(r)
  }

  /** Headers of different regions differ, and no other line written is a
      header. */
  lemma ChromLineDistinct(r: string)
    ensures forall r' :: ChromLine(r') == ChromLine(r) ==> r' == r
    ensures forall p, v :: StepLine(p, v) != ChromLine(r)
    ensures TrackHeader != ChromLine(r)
  {
    var pre := "variableStep chrom=";
    forall r' | ChromLine(r') == ChromLine(r) ensures r' == r {
      assert r' == ChromLine(r')[|pre|..|ChromLine(r')| - 1];
      assert r == ChromLine(r)[|pre|..|ChromLine(r)| - 1];
    }
    forall p, v ensures StepLine(p, v) != ChromLine(r) {
      StepLineIsData(p, v);
      assert ChromLine(r)[..|"variableStep"|] == "variableStep";
    }
    assert TrackHeader[0] == 't' && ChromLine(r)[0] == 'v';
  }

  lemma HasChromAppend(a: seq<string>, b: seq<string>, r: string)
    ensures HasChrom(a + b, r) <==> HasChrom(a, r) || HasChrom(b, r)
  {
    var all := a + b;
    if HasChrom(all, r) {
      var j :| 0 <= j < |all| && all[j] == ChromLine(r);
      if j >= |a| {
        assert b[j - |a|] == ChromLine(r);
      }
    }
    if HasChrom(a, r) {
      var j :| 0 <= j < |a| && a[j] == ChromLine(r);
      assert all[j] == ChromLine(r);
    }
    if HasChrom(b, r) {
      var j :| 0 <= j < |b| && b[j] == ChromLine(r);
      assert all[|a| + j] == ChromLine(r);
    }
  }

  /** The region of record i differs from the one before it (or from
      `current` for the first). */
  predicate ChangesAt<V>(items: seq<Item<V>>, current: Option<string>, i: nat)
    requires i < |items|
  {
    Some(items[i].region) != if i == 0 then current else Some(items[i - 1].region)
  }

  /** A header for `r` is written exactly where a record of `r` follows a
      different region. */
  lemma {:induction false} HeadersWhereRegionChanges<V>(items: seq<Item<V>>, show: V -> string, current: Option<string>, r: string)
    ensures HasChrom(WriteLines(items, show, current), r) <==>
            exists i :: 0 <= i < |items| && items[i].region == r && ChangesAt(items, current, i)
    decreases |items|
  {
    if items != [] {
      var it := items[0];
      var head := RecordLines(it, show, current);
      var tail := WriteLines(items[1..], show, Some(it.region));
      HeadersWhereRegionChanges(items[1..], show, Some(it.region), r);
      HasChromAppend(head, tail, r);
      RecordHasChrom(it, show, current, r);
      if exists i :: 0 <= i < |items| && items[i].region == r && ChangesAt(items, current, i) {
        var i :| 0 <= i < |items| && items[i].region == r && ChangesAt(items, current, i);
        if i == 0 {
        } else {
          assert items[1..][i - 1] == items[i];
          assert i - 1 > 0 ==> items[1..][i - 2] == items[i - 1];
          assert items[1..][i - 1].region == r && ChangesAt(items[1..], Some(it.region), i - 1);
        }
      }
      if HasChrom(tail, r) {
        var k :| 0 <= k < |items[1..]| && items[1..][k].region == r && ChangesAt(items[1..], Some(it.region), k);
        assert items[k + 1] == items[1..][k];
        assert k > 0 ==> items[k] == items[1..][k - 1];
        assert items[k + 1].region == r && ChangesAt(items, current, k + 1);
      }
      if HasChrom(head, r) {
        assert it.region == r && ChangesAt(items, current, 0);
      }
    }
  }

  /** The lines of one record hold a header for `r` exactly when the record
      opens a block of `r`. */
  lemma RecordHasChrom<V>(it: Item<V>, show: V -> string, current: Option<string>, r: string)
    ensures HasChrom(RecordLines(it, show, current), r) <==> Some(it.region) != current && it.region == r
  {
    var head := RecordLines(it, show, current);
    ChromLineDistinct(r);
    if HasChrom(head, r) {
      var j :| 0 <= j < |head| && head[j] == ChromLine(r);
    }
    if Some(it.region) != current && it.region == r {
      assert head[0] == ChromLine(r);
    }
  }

  /** The first record of region `r`. */
  function FirstOf<V>(items: seq<Item<V>>, r: string): (i: nat)
    requires exists i :: 0 <= i < |items| && items[i].region == r
    ensures i < |items| && items[i].region == r
    ensures forall k :: 0 <= k < i ==> items[k].region != r
    decreases |items|
  {
    if items[0].region == r then 0
    else
      assert exists k :: 0 <= k < |items[1..]| && items[1..][k].region == r by {
        var k :| 0 <= k < |items| && items[k].region == r;
        assert items[1..][k - 1].region == r;
      }
      var j := FirstOf(items[1..], r);
      assert forall k :: 1 <= k <= j ==> items[k] == items[1..][k - 1];
      j + 1
  }

  /** So `write` writes a header for a region exactly when one of the
      records is in it. */
  lemma HeaderPerRegion<V>(items: seq<Item<V>>, show: V -> string, r: string)
    ensures HasChrom(Written(items, show), r) <==> exists i :: 0 <= i < |items| && items[i].region == r
  {
    HeadersWhereRegionChanges(items, show, None, r);
    ChromLineDistinct(r);
    HasChromAppend([TrackHeader], WriteLines(items, show, None), r);
    assert !HasChrom([TrackHeader], r);
    if exists i :: 0 <= i < |items| && items[i].region == r {
      var i := FirstOf(items, r);
      assert ChangesAt(items, None, i);
    }
  }

  // -----------------------------------------------------------------------
  // The index
  // -----------------------------------------------------------------------

  /** Line `j` is the last header written for `r`. */
  predicate LastChromAt(lines: seq<string>, r: string, j: nat) {
    j < |lines| && lines[j] == ChromLine(r) && forall k :: j < k < |lines| ==> lines[k] != ChromLine(r)
  }

  /** `idx[r]` is the byte offset of the last header for `r`. */
  ghost predicate IndexedAt(lines: seq<string>, idx: map<string, nat>, r: string)
    requires r in idx
  {
    exists j :: LastChromAt(lines, r, j) && idx[r] == Offset(lines, j)
  }

  /** What `write` keeps true of its locals: `size` is the number of bytes
      written, the index holds exactly the regions a header was written for,
      each at the offset of its last header. */
  ghost predicate IndexOk(w: Writer) {
    && w.size == |Join(w.lines)|
    && (forall r :: r in w.idx <==> HasChrom(w.lines, r))
    && (forall r :: r in w.idx ==> IndexedAt(w.lines, w.idx, r))
  }

  lemma StartIndexOk()
    ensures IndexOk(Start)
  {
    forall r ensures !HasChrom(Start.lines, r) {
      ChromLineDistinct(r);
    }
    assert Join([TrackHeader]) == TrackHeader + Join([]);
  }

  /** Lines appended after line `j` keep its offset. */
  lemma OffsetPrefix(a: seq<string>, b: seq<string>, j: nat)
    requires j <= |a|
    ensures Offset(a + b, j) == Offset(a, j)
  {
    assert (a + b)[..j] == a[..j];
  }

  /** Appending a line that is no header of `r` keeps what the index says
      about `r`. */
  lemma AppendOther(lines: seq<string>, idx: map<string, nat>, r: string, l: string)
    requires l != ChromLine(r)
    ensures HasChrom(lines + [l], r) <==> HasChrom(lines, r)
    ensures r in idx && IndexedAt(lines, idx, r) ==> IndexedAt(lines + [l], idx, r)
  {
    HasChromAppend(lines, [l], r);
    assert !HasChrom([l], r) by {
      assert [l][0] == l;
    }
    if r in idx && IndexedAt(lines, idx, r) {
      var j :| LastChromAt(lines, r, j) && idx[r] == Offset(lines, j);
      OffsetPrefix(lines, [l], j);
      assert LastChromAt(lines + [l], r, j);
    }
  }

  /** A header appended for `r` is its last one, at the current size. */
  lemma AppendHeader(lines: seq<string>, r: string)
    ensures LastChromAt(lines + [ChromLine(r)], r, |lines|)
    ensures Offset(lines + [ChromLine(r)], |lines|) == |Join(lines)|
    ensures HasChrom(lines + [ChromLine(r)], r)
  {
    assert (lines + [ChromLine(r)])[..|lines|] == lines;
    assert (lines + [ChromLine(r)])[|lines|] == ChromLine(r);
  }

  /** The record's header, if any, keeps the index right. */
  lemma HeaderKeepsIndex(w: Writer, region: string)
    requires IndexOk(w)
    ensures var chrom := ChromLine(region);
            IndexOk(Writer(w.lines + [chrom], w.size + |chrom|, w.idx[region := w.size], Some(region)))
  {
    var chrom := ChromLine(region);
    var w1 := Writer(w.lines + [chrom], w.size + |chrom|, w.idx[region := w.size], Some(region));
    JoinSnoc(w.lines, chrom);
    forall r ensures (r in w1.idx <==> HasChrom(w1.lines, r)) && (r in w1.idx ==> IndexedAt(w1.lines, w1.idx, r)) {
      if r == region {
        AppendHeader(w.lines, r);
      } else {
        ChromLineDistinct(r);
        AppendOther(w.lines, w.idx, r, chrom);
      }
    }
  }

  /** The record line keeps the index right. */
  lemma StepKeepsIndex(w: Writer, step: string)
    requires IndexOk(w)
    requires forall r :: step != ChromLine(r)
    ensures IndexOk(w.(lines := w.lines + [step], size := w.size + |step|))
  {
    var w2 := w.(lines := w.lines + [step], size := w.size + |step|);
    JoinSnoc(w.lines, step);
    forall r ensures (r in w2.idx <==> HasChrom(w2.lines, r)) && (r in w2.idx ==> IndexedAt(w2.lines, w2.idx, r)) {
      AppendOther(w.lines, w.idx, r, step);
    }
  }

  /** Each record keeps the index right. */
  lemma RecordKeepsIndex<V>(w: Writer, it: Item<V>, show: V -> string)
    requires IndexOk(w)
    ensures IndexOk(Record(w, it, show))
  {
    var chrom := ChromLine(it.region);
    var step := StepLine(it.position, show(it.value));
    var w1 := if Some(it.region) != w.current
              then Writer(w.lines + [chrom], w.size + |chrom|, w.idx[it.region := w.size], Some(it.region))
              else w;
    if Some(it.region) != w.current {
      HeaderKeepsIndex(w, it.region);
    }
    forall r ensures step != ChromLine(r) {
      ChromLineDistinct(r);
    }
    StepKeepsIndex(w1, step);
  }

  lemma {:induction false} WriteAllKeepsIndex<V>(w: Writer, items: seq<Item<V>>, show: V -> string)
    requires IndexOk(w)
    ensures IndexOk(WriteAll(w, items, show))
    decreases |items|
  {
    if items != [] {
      RecordKeepsIndex(w, items[0], show);
      WriteAllKeepsIndex(Record(w, items[0], show), items[1..], show);
    }
  }

  /** The index `write` builds maps exactly the regions of the records, each
      to the byte offset of the last header written for it. */
  lemma WriteIndexesRegions<V>(items: seq<Item<V>>, show: V -> string, r: string)
    ensures var w := WriteAll(Start, items, show);
            && (r in w.idx <==> exists i :: 0 <= i < |items| && items[i].region == r)
            && (r in w.idx ==> IndexedAt(w.lines, w.idx, r))
            && w.size == |Join(w.lines)|
  {
    StartIndexOk();
    WriteAllKeepsIndex(Start, items, show);
    WriteWritesLines(items, show);
    HeaderPerRegion(items, show, r);
  }

  // -----------------------------------------------------------------------
  // Reading back what `write` wrote
  // -----------------------------------------------------------------------

  /** `show` writes `v` as one token that reads back as `v`. */
  predicate Shows(show: Number -> string, v: Number) {
    show(v) != [] && NoSpace(show(v)) && ParseValue(show(v)) == Some(v)
  }

  /** The header written for a clean region reads as a `variableStep`
      header for it, with span 1. */
  lemma ChromLineRead(r: string, st: WalkState)
    requires Clean(r)
    ensures WalkLine(ChromLine(r), st) == NewRegion(st.(format := VariableFormat, region := r, span := IntSpan(1)))
  {
    var fs := [("chrom", r)];
    assert Clean("chrom");
    AttributesConsPair("chrom", r, []);
    assert ChromLine(r) == "variableStep" + Attributes(fs) + "\n";
    FieldMapSnoc([], "chrom", r);
    assert [] + [("chrom", r)] == fs;
    VariableStepDefaultSpan(fs, r, st);
  }

  /** A record line reads back as its record in a span-1 variable block. */
  lemma StepLineRead(p: int, v: Number, show: Number -> string, st: WalkState)
    requires st.format == VariableFormat && st.span == IntSpan(1) && Shows(show, v)
    ensures WalkLine(StepLine(p, show(v)), st) == Emit([Item(st.region, p, v)], st)
  {
    VariableDataExpands(p, show(v), v, st);
    assert Repeat(st.region, p, 1, v)[0] == Item(st.region, p, v);
  }

  lemma ScanChromLine(lines: seq<string>, r: string, st: WalkState)
    requires lines != [] && lines[0] == ChromLine(r) && Clean(r)
    ensures Scan(lines, None, st) == Scan(lines[1..], None, st.(format := VariableFormat, region := r, span := IntSpan(1)))
  {
    ChromLineRead(r, st);
    ScanAfterHeader(lines, st, st.(format := VariableFormat, region := r, span := IntSpan(1)));
  }

  lemma ScanStepLine(lines: seq<string>, p: int, v: Number, show: Number -> string, st: WalkState)
    requires lines != [] && lines[0] == StepLine(p, show(v))
    requires st.format == VariableFormat && st.span == IntSpan(1) && Shows(show, v)
    ensures Scan(lines, None, st) == After([Item(st.region, p, v)], Scan(lines[1..], None, st))
  {
    StepLineRead(p, v, show, st);
    ScanStep(lines, None, st, WalkLine(lines[0], st));
  }

  /** The reader is in the block of `current`, if any. */
  predicate ReadingIn(st: WalkState, current: Option<string>) {
    current.Some? ==> st.format == VariableFormat && st.region == current.value && st.span == IntSpan(1)
  }

  predicate Writable(items: seq<Item<Number>>, show: Number -> string) {
    forall i :: 0 <= i < |items| ==> Clean(items[i].region) && Shows(show, items[i].value)
  }

  lemma {:induction false} ReadWriteLines(items: seq<Item<Number>>, show: Number -> string, current: Option<string>, st: WalkState)
    requires Writable(items, show) && ReadingIn(st, current)
    ensures Scan(WriteLines(items, show, current), None, st).items == items
    ensures Scan(WriteLines(items, show, current), None, st).error == None
    decreases |items|
  {
    if items != [] {
      var it := items[0];
      var st1 := ReadRecord(it, show, current, st, WriteLines(items[1..], show, Some(it.region)));
      WritableTail(items, show);
      ReadWriteLines(items[1..], show, Some(it.region), st1);
      assert [it] + items[1..] == items;
    }
  }

  lemma WritableTail(items: seq<Item<Number>>, show: Number -> string)
    requires items != [] && Writable(items, show)
    ensures Clean(items[0].region) && Shows(show, items[0].value) && Writable(items[1..], show)
  {
    assert forall i :: 0 <= i < |items[1..]| ==> items[1..][i] == items[i + 1];
  }

  /** Reading the lines of one record yields the record and leaves the
      reader in its block. */
  lemma ReadRecord(it: Item<Number>, show: Number -> string, current: Option<string>, st: WalkState, tail: seq<string>)
    returns (st1: WalkState)
    requires Clean(it.region) && Shows(show, it.value) && ReadingIn(st, current)
    ensures ReadingIn(st1, Some(it.region))
    ensures Scan(RecordLines(it, show, current) + tail, None, st) == After([it], Scan(tail, None, st1))
  {
    if Some(it.region) != current {
      st1 := st.(format := VariableFormat, region := it.region, span := IntSpan(1));
      ReadOpeningRecord(it, show, current, st, tail);
    } else {
      st1 := st;
      ReadRecordInBlock(it, show, current, st, tail);
    }
  }

  lemma ReadOpeningRecord(it: Item<Number>, show: Number -> string, current: Option<string>, st: WalkState, tail: seq<string>)
    requires Clean(it.region) && Shows(show, it.value) && Some(it.region) != current
    ensures Scan(RecordLines(it, show, current) + tail, None, st) ==
            After([it], Scan(tail, None, st.(format := VariableFormat, region := it.region, span := IntSpan(1))))
  {
    var step := StepLine(it.position, show(it.value));
    assert RecordLines(it, show, current) + tail == [ChromLine(it.region)] + ([step] + tail);
    ReadHeaderThen(ChromLine(it.region), [step] + tail, it.region, st);
    ReadStepThen(tail, it, show, st.(format := VariableFormat, region := it.region, span := IntSpan(1)));
  }

  lemma ReadRecordInBlock(it: Item<Number>, show: Number -> string, current: Option<string>, st: WalkState, tail: seq<string>)
    requires Shows(show, it.value) && ReadingIn(st, current) && Some(it.region) == current
    ensures Scan(RecordLines(it, show, current) + tail, None, st) == After([it], Scan(tail, None, st))
  {
    assert RecordLines(it, show, current) + tail == [StepLine(it.position, show(it.value))] + tail;
    ReadStepThen(tail, it, show, st);
  }

  lemma ReadHeaderThen(chrom: string, rest: seq<string>, r: string, st: WalkState)
    requires chrom == ChromLine(r) && Clean(r)
    ensures Scan([chrom] + rest, None, st) == Scan(rest, None, st.(format := VariableFormat, region := r, span := IntSpan(1)))
  {
    var lines := [chrom] + rest;
    assert lines[0] == chrom && lines[1..] == rest;
    ScanChromLine(lines, r, st);
  }

  lemma ReadStepThen(tail: seq<string>, it: Item<Number>, show: Number -> string, st: WalkState)
    requires Shows(show, it.value) && ReadingIn(st, Some(it.region))
    ensures Scan([StepLine(it.position, show(it.value))] + tail, None, st) == After([it], Scan(tail, None, st))
  {
    var step := StepLine(it.position, show(it.value));
    var rest := [step] + tail;
    assert rest[0] == step && rest[1..] == tail;
    ScanStepLine(rest, it.position, it.value, show, st);
  }

  /** Walking, without an index, a track `write` wrote yields the records it
      was given, when their regions are clean names and `show` writes each
      value as a token that reads back as it. */
  lemma WalkReadsWritten(items: seq<Item<Number>>, show: Number -> string)
    requires Writable(items, show)
    ensures WalkSpec(Written(items, show), None) == Walked(items, None)
  {
    var lines := Written(items, show);
    assert "track" <= TrackHeader;
    SkippedLine(lines, None, Initial);
    assert lines[1..] == WriteLines(items, show, None);
    ReadWriteLines(items, show, None, Initial);
  }

  /** Every string `write` writes is one line, so reading the written text
      line by line yields exactly what was written. */
  lemma WrittenIsLines(items: seq<Item<Number>>, show: Number -> string)
    requires Writable(items, show)
    ensures Lines(Join(Written(items, show))) == Written(items, show)
  {
    var lines := Written(items, show);
    forall j | 0 <= j < |lines| ensures IsLine(lines[j]) {
      if j == 0 {
        TrackHeaderIsLine();
      } else {
        WriteLinesAreLines(items, show, None, j - 1);
      }
    }
    LinesJoin(lines);
  }

  lemma ChromLineIsLine(r: string)
    requires NoSpace(r)
    ensures IsLine(ChromLine(r))
  {
    var l := ChromLine(r);
    var pre := "variableStep chrom=";
    assert l[..|l| - 1] == pre + r;
    NoBreak(r);
    assert '\n' !in pre;
  }

  lemma StepLineIsLine(p: int, s: string)
    requires NoSpace(s)
    ensures IsLine(StepLine(p, s))
  {
    var l := StepLine(p, s);
    var num := IntToString(p);
    assert l[..|l| - 1] == num + " " + s;
    assert NoSpace(num);
    NoBreak(num);
    NoBreak(s);
  }

  lemma TrackHeaderIsLine()
    ensures IsLine(TrackHeader)
  {
    assert TrackHeader[..|TrackHeader| - 1] == "track type=wiggle_0 name=\"\" description=\"\"";
  }

  lemma {:induction false} WriteLinesAreLines(items: seq<Item<Number>>, show: Number -> string, current: Option<string>, j: nat)
    requires Writable(items, show)
    requires j < |WriteLines(items, show, current)|
    ensures IsLine(WriteLines(items, show, current)[j])
    decreases |items|
  {
    var it := items[0];
    var head := RecordLines(it, show, current);
    var tail := WriteLines(items[1..], show, Some(it.region));
    var all := WriteLines(items, show, current);
    assert all == head + tail;
    if j < |head| {
      if Some(it.region) != current && j == 0 {
        ChromLineIsLine(it.region);
      } else {
        StepLineIsLine(it.position, show(it.value));
      }
    } else {
      WritableTail(items, show);
      WriteLinesAreLines(items[1..], show, Some(it.region), j - |head|);
      assert all[j] == tail[j - |head|];
    }
  }
}
