/** wiggelen/index.py: the byte offset at which the last line declaring
    each region starts. The track is read with `readline` until it returns
    the empty string; `tell` is the number of bytes read so far. */
module RegionIndex {
  import opened Text
  import opened Track
  import WiggleWrite

  const ChromKey: string := "chrom="

  /** What one line adds to the index: nothing, a region, or the IndexError
      of a `chrom=` followed by no token. */
  datatype Entry = NoEntry | Entry(region: string) | NoRegion

  /** `line.split('chrom=')[1].split()[0]` for a line holding `chrom=`: the
      first token of the text between the first `chrom=` and the next one. */
  function LineEntry(line: string): (e: Entry)
    ensures e.NoEntry? <==> !Contains(line, ChromKey)
    ensures e.Entry? ==> e.region != [] && NoSpace(e.region)
  {
    if !Contains(line, ChromKey) then NoEntry
    else
      var tokens := Split(SplitOn(line, ChromKey)[1]);
      if tokens == [] then NoRegion
      else
        assert tokens[0] in tokens;
        Entry(tokens[0])
  }

  /** The index built from line `j` on, with `acc` recorded for the lines
      before; None where IndexError is raised. */
  function IndexFrom(ls: seq<string>, j: nat, acc: map<string, nat>): Option<map<string, nat>>
    requires j <= |ls|
    decreases |ls| - j
  {
    if j == |ls| then Some(acc)
    else
      match LineEntry(ls[j])
      case NoEntry => IndexFrom(ls, j + 1, acc)
      case NoRegion => None
      case Entry(r) => IndexFrom(ls, j + 1, acc[r := Offset(ls, j)])
  }

  function Indexed(ls: seq<string>): Option<map<string, nat>> {
    IndexFrom(ls, 0, map[])
  }

  /** `index(track)`. */
  method Index(text: string) returns (regions: Option<map<string, nat>>)
    ensures regions == Indexed(Lines(text))
  {
    var lines := Lines(text);
    var found: map<string, nat> := map[];
    var k := 0;
    var told := 0;
    while true
      invariant k <= |lines| && told == Offset(lines, k)
      invariant Indexed(lines) == IndexFrom(lines, k, found)
      decreases |lines| - k
    {
      // `track.readline()`: the empty string at the end of the track.
      var line := if k < |lines| then lines[k] else "";
      if line == [] {
        break;
      }
      OffsetNext(lines, k);
      k := k + 1;
      told := told + |line|;
      if !Contains(line, ChromKey) {
        continue;
      }
      var tokens := Split(SplitOn(line, ChromKey)[1]);
      if tokens == [] {
        // IndexError.
        return None;
      }
      found := found[tokens[0] := told - |line|];
    }
    regions := Some(found);
  }

  // -----------------------------------------------------------------------
  // What the index holds
  // -----------------------------------------------------------------------

  /** Some line from `j` on declares `r`. */
  predicate Declares(ls: seq<string>, j: nat, r: string) {
    exists k :: j <= k < |ls| && LineEntry(ls[k]) == Entry(r)
  }

  /** Line `k` is the last one declaring `r`. */
  predicate LastDeclares(ls: seq<string>, r: string, k: nat) {
    k < |ls| && LineEntry(ls[k]) == Entry(r) && forall k' :: k < k' < |ls| ==> LineEntry(ls[k']) != Entry(r)
  }

  /** IndexError exactly when some line has `chrom=` and no token after it. */
  lemma {:induction false} IndexFromFails(ls: seq<string>, j: nat, acc: map<string, nat>)
    requires j <= |ls|
    ensures IndexFrom(ls, j, acc).None? <==> exists k :: j <= k < |ls| && LineEntry(ls[k]).NoRegion?
    decreases |ls| - j
  {
    if j < |ls| {
      match LineEntry(ls[j])
      case NoEntry =>
        IndexFromFails(ls, j + 1, acc);
      case NoRegion =>
      case Entry(r) =>
        IndexFromFails(ls, j + 1, acc[r := Offset(ls, j)]);
    }
  }

  /** The keys are the regions recorded before and those declared from `j`
      on. */
  lemma {:induction false} IndexFromKeys(ls: seq<string>, j: nat, acc: map<string, nat>, r: string)
    requires j <= |ls| && IndexFrom(ls, j, acc).Some?
    ensures r in IndexFrom(ls, j, acc).value <==> r in acc || Declares(ls, j, r)
    decreases |ls| - j
  {
    if j < |ls| {
      match LineEntry(ls[j])
      case NoEntry =>
        IndexFromKeys(ls, j + 1, acc, r);
        if Declares(ls, j, r) {
          var k :| j <= k < |ls| && LineEntry(ls[k]) == Entry(r);
          assert k > j;
        }
      case Entry(r0) =>
        IndexFromKeys(ls, j + 1, acc[r0 := Offset(ls, j)], r);
        if Declares(ls, j, r) && r != r0 {
          var k :| j <= k < |ls| && LineEntry(ls[k]) == Entry(r);
          assert k > j;
        }
    }
  }

  /** Each value is the offset of the last line declaring its region from
      `j` on, or the recorded one when no such line comes. */
  lemma {:induction false} IndexFromValues(ls: seq<string>, j: nat, acc: map<string, nat>, r: string)
    requires j <= |ls| && IndexFrom(ls, j, acc).Some? && r in IndexFrom(ls, j, acc).value
    ensures var m := IndexFrom(ls, j, acc).value;
            (exists k: nat :: j <= k && LastDeclares(ls, r, k) && m[r] == Offset(ls, k)) ||
            (!Declares(ls, j, r) && r in acc && m[r] == acc[r])
    decreases |ls| - j
  {
    if j < |ls| {
      var m := IndexFrom(ls, j, acc).value;
      match LineEntry(ls[j])
      case NoEntry =>
        IndexFromValues(ls, j + 1, acc, r);
      case Entry(r0) =>
        var acc' := acc[r0 := Offset(ls, j)];
        IndexFromValues(ls, j + 1, acc', r);
        if !Declares(ls, j + 1, r) {
          if r == r0 {
            assert LastDeclares(ls, r, j);
          }
        }
    }
  }

  /** `index` raises IndexError exactly when a line holds `chrom=` with no
      token after it; otherwise its keys are exactly the regions the lines
      declare, and each maps to the offset at which the last line declaring
      it starts (a later line overwrites an earlier one). */
  lemma IndexedSpec(ls: seq<string>)
    ensures Indexed(ls).None? <==> exists k :: 0 <= k < |ls| && LineEntry(ls[k]).NoRegion?
    ensures Indexed(ls).Some? ==> forall r :: r in Indexed(ls).value <==> Declares(ls, 0, r)
    ensures Indexed(ls).Some? ==> forall r :: r in Indexed(ls).value ==>
              exists k: nat :: LastDeclares(ls, r, k) && Indexed(ls).value[r] == Offset(ls, k)
  {
    IndexFromFails(ls, 0, map[]);
    if Indexed(ls).Some? {
      forall r ensures r in Indexed(ls).value <==> Declares(ls, 0, r) {
        IndexFromKeys(ls, 0, map[], r);
      }
      forall r | r in Indexed(ls).value
        ensures exists k: nat :: LastDeclares(ls, r, k) && Indexed(ls).value[r] == Offset(ls, k)
      {
        IndexFromValues(ls, 0, map[], r);
      }
    }
  }

  /** Seeking to a recorded offset and reading one line yields the line that
      declares the region: every offset lies inside the track, on a line
      boundary. */
  lemma IndexedSeeks(text: string, r: string)
    requires Indexed(Lines(text)).Some? && r in Indexed(Lines(text)).value
    ensures var ls, o := Lines(text), Indexed(Lines(text)).value[r];
            o < |text| &&
            exists k: nat :: LastDeclares(ls, r, k) && o == Offset(ls, k) && o + |ls[k]| <= |text| && text[o..o + |ls[k]|] == ls[k]
  {
    var ls := Lines(text);
    var k := IndexedLine(ls, r);
    var o := Offset(ls, k);
    JoinLines(text);
    ReadLineAt(ls, k);
    assert o + |ls[k]| <= |text| && text[o..o + |ls[k]|] == ls[k];
  }

  /** The line whose offset the index records for `r`. */
  lemma IndexedLine(ls: seq<string>, r: string) returns (k: nat)
    requires Indexed(ls).Some? && r in Indexed(ls).value
    ensures LastDeclares(ls, r, k) && Indexed(ls).value[r] == Offset(ls, k)
  {
    IndexFromValues(ls, 0, map[], r);
    k :| LastDeclares(ls, r, k) && Indexed(ls).value[r] == Offset(ls, k);
  }

  // -----------------------------------------------------------------------
  // Header lines
  // -----------------------------------------------------------------------

  /** A line whose first `chrom=` is followed by a token and whitespace,
      with no later `chrom=`, declares that token. */
  lemma LineEntryToken(line: string, i: nat, r: string, c: char, rest: string)
    requires Find(line, ChromKey) == Some(i)
    requires line[i + |ChromKey|..] == r + [c] + rest
    requires r != [] && NoSpace(r) && IsSpace(c) && !Contains(r + [c] + rest, ChromKey)
    ensures LineEntry(line) == Entry(r)
  {
    var after := line[i + |ChromKey|..];
    assert SplitOn(line, ChromKey) == [line[..i]] + SplitOn(after, ChromKey);
    assert SplitOn(after, ChromKey) == [after];
    assert after == r + ([c] + rest);
    SplitFromToken(r, [c] + rest, []);
    assert [] + r == r;
    assert ([c] + rest)[1..] == rest;
  }

  lemma OccursChar(s: string, pat: string, j: nat, k: nat)
    requires OccursAt(s, pat, j) && k < |pat|
    ensures s[j + k] == pat[k]
  {
    assert s[j..j + |pat|][k] == s[j + k];
  }

  /** No occurrence of `pat` where one of its characters is missing. */
  lemma Missing(s: string, pat: string, k: nat)
    requires k < |pat| && pat[k] !in s
    ensures forall j: nat :: !OccursAt(s, pat, j)
  {
    forall j: nat | OccursAt(s, pat, j) ensures false {
      OccursChar(s, pat, j, k);
    }
  }

  /** `pat` first occurs at `i` when it occurs there and its first character
      does not occur before. */
  lemma FirstAt(s: string, pat: string, i: nat)
    requires pat != [] && OccursAt(s, pat, i) && forall j :: 0 <= j < i ==> s[j] != pat[0]
    ensures Find(s, pat) == Some(i)
  {
    forall j: nat | j < i && OccursAt(s, pat, j) ensures false {
      OccursChar(s, pat, j, 0);
    }
  }

  /** A line `<pre>chrom=<r>` ending in a line break, with no `c` in the
      prefix, declares `r`. */
  lemma HeaderEntry(pre: string, r: string)
    requires 'c' !in pre && r != [] && NoSpace(r) && !Contains(r + "\n", ChromKey)
    ensures LineEntry(pre + ChromKey + r + "\n") == Entry(r)
  {
    var line := pre + ChromKey + r + "\n";
    assert line[|pre|..|pre| + |ChromKey|] == ChromKey;
    forall j | 0 <= j < |pre| ensures line[j] != ChromKey[0] {
      assert line[j] == pre[j];
    }
    FirstAt(line, ChromKey, |pre|);
    assert line[|pre| + |ChromKey|..] == r + ['\n'] + [];
    assert r + ['\n'] + [] == r + "\n";
    LineEntryToken(line, |pre|, r, '\n', []);
  }

  /** A line `<pre>chrom=` ending in a line break, with no `c` in the
      prefix, raises IndexError. */
  lemma EmptyHeaderEntry(pre: string)
    requires 'c' !in pre
    ensures LineEntry(pre + ChromKey + "\n") == NoRegion
  {
    var line := pre + ChromKey + "\n";
    assert line[|pre|..|pre| + |ChromKey|] == ChromKey;
    forall j | 0 <= j < |pre| ensures line[j] != ChromKey[0] {
      assert line[j] == pre[j];
    }
    FirstAt(line, ChromKey, |pre|);
    var after := line[|pre| + |ChromKey|..];
    assert after == "\n";
    Missing(after, ChromKey, 0);
    assert SplitOn(line, ChromKey) == [line[..|pre|]] + SplitOn(after, ChromKey);
    assert SplitOn(after, ChromKey) == [after];
    SplitLeadingSpace('\n', []);
    assert ['\n'] + [] == after;
  }

  /** The header `variableStep chrom=<r>` declares `r`; with no region it
      raises IndexError. */
  lemma VariableHeaderEntry(r: string)
    requires r != [] && NoSpace(r) && !Contains(r + "\n", ChromKey)
    ensures LineEntry("variableStep chrom=" + r + "\n") == Entry(r)
    ensures LineEntry("variableStep chrom=\n") == NoRegion
  {
    var pre := "variableStep ";
    HeaderEntry(pre, r);
    assert pre + ChromKey == "variableStep chrom=";
    EmptyHeaderEntry(pre);
    assert pre + ChromKey + "\n" == "variableStep chrom=\n";
  }

  /** The track definition line adds nothing, in its bare form and as
      `write` emits it, with empty name and description. */
  lemma TrackLineEntry()
    ensures LineEntry("track type=wiggle_0\n") == NoEntry
    ensures LineEntry(WiggleWrite.TrackHeader) == NoEntry
  {
    Missing("track type=wiggle_0\n", ChromKey, 1);
    Missing(WiggleWrite.TrackHeader, ChromKey, 1);
  }
}
