/** A track file as text: the lines `for line in track` and `readline()`
    deliver, the byte offsets `tell()` reports and `seek()` jumps to. */
module Track {
  import opened Text

  /** A line as a file delivers it: ending in its only line break. */
  predicate IsLine(l: string) {
    l != [] && l[|l| - 1] == '\n' && '\n' !in l[..|l| - 1]
  }

  /** The lines of a text, each with its line break; a last line without one
      when the text does not end in a line break. */
  function Lines(text: string): (r: seq<string>)
    ensures forall i :: 0 <= i < |r| ==> r[i] != []
    decreases |text|
  {
    if text == [] then []
    else
      var k := IndexOf(text, '\n');
      if k == |text| then [text] else [text[..k + 1]] + Lines(text[k + 1..])
  }

  /** The text made of a sequence of lines. */
  function Join(ls: seq<string>): string
    decreases |ls|
  {
    if ls == [] then [] else ls[0] + Join(ls[1..])
  }

  /** The byte offset at which line `j` starts. */
  function Offset(ls: seq<string>, j: nat): nat
    requires j <= |ls|
  {
    |Join(ls[..j])|
  }

  lemma {:induction false} JoinAppend(a: seq<string>, b: seq<string>)
    ensures Join(a + b) == Join(a) + Join(b)
    decreases |a|
  {
    if a == [] {
      assert a + b == b;
    } else {
      assert (a + b)[1..] == a[1..] + b;
      JoinAppend(a[1..], b);
    }
  }

  lemma JoinSnoc(ls: seq<string>, l: string)
    ensures Join(ls + [l]) == Join(ls) + l
  {
    JoinAppend(ls, [l]);
    assert [l][1..] == [];
  }

  lemma LineFirstBreak(l: string, rest: string)
    requires IsLine(l)
    ensures IndexOf(l + rest, '\n') == |l| - 1
  {
    var t := l + rest;
    var k := IndexOf(t, '\n');
    assert t[|l| - 1] == '\n';
    forall j | 0 <= j < |l| - 1 ensures t[j] != '\n' {
      assert t[j] == l[..|l| - 1][j];
    }
  }

  /** Reading a text that starts with a line yields that line first. */
  lemma LinesCons(l: string, rest: string)
    requires IsLine(l)
    ensures Lines(l + rest) == [l] + Lines(rest)
  {
    LineFirstBreak(l, rest);
    var t := l + rest;
    assert t[..|l|] == l;
    assert t[|l|..] == rest;
  }

  /** Reading back a text made of lines yields those lines. */
  lemma {:induction false} LinesJoin(ls: seq<string>)
    requires forall i :: 0 <= i < |ls| ==> IsLine(ls[i])
    ensures Lines(Join(ls)) == ls
    decreases |ls|
  {
    if ls != [] {
      LinesCons(ls[0], Join(ls[1..]));
      LinesJoin(ls[1..]);
    }
  }

  /** The lines of a text make up the text. */
  lemma {:induction false} JoinLines(text: string)
    ensures Join(Lines(text)) == text
    decreases |text|
  {
    if text != [] {
      var k := IndexOf(text, '\n');
      if k < |text| {
        var ls := Lines(text);
        assert ls[1..] == Lines(text[k + 1..]);
        JoinLines(text[k + 1..]);
        assert text == text[..k + 1] + text[k + 1..];
      }
    }
  }

  /** Seeking to the offset of line `j` and reading on yields the lines from
      `j` on. */
  lemma SeekLine(ls: seq<string>, j: nat)
    requires j <= |ls|
    ensures Offset(ls, j) <= |Join(ls)|
    ensures Join(ls)[Offset(ls, j)..] == Join(ls[j..])
  {
    assert ls == ls[..j] + ls[j..];
    JoinAppend(ls[..j], ls[j..]);
  }

  /** Offsets grow by the length of each line. */
  lemma OffsetNext(ls: seq<string>, j: nat)
    requires j < |ls|
    ensures Offset(ls, j + 1) == Offset(ls, j) + |ls[j]|
  {
    assert ls[..j + 1] == ls[..j] + [ls[j]];
    JoinSnoc(ls[..j], ls[j]);
  }

  /** Seeking to the offset of line `j` and reading one line yields line
      `j`. */
  lemma ReadLineAt(ls: seq<string>, j: nat)
    requires j < |ls|
    ensures Offset(ls, j) + |ls[j]| <= |Join(ls)|
    ensures Join(ls)[Offset(ls, j)..Offset(ls, j) + |ls[j]|] == ls[j]
  {
    SeekLine(ls, j);
    assert ls[j..][0] == ls[j] && ls[j..][1..] == ls[j + 1..];
    ReadPrefix(Join(ls), Offset(ls, j), ls[j], Join(ls[j + 1..]));
  }

  lemma ReadPrefix(t: string, o: nat, a: string, b: string)
    requires o <= |t| && t[o..] == a + b
    ensures o + |a| <= |t| && t[o..o + |a|] == a
  {
    assert t[o..o + |a|] == t[o..][..|a|];
  }
}
