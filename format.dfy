/** What the wiggle reader, parser and writer share: numeric values, the
    `(region, position, value)` items of a walker, the order on their keys,
    and the `key=value` attributes of a `variableStep`/`fixedStep` header. */
module WigFormat {
  import opened Text

  /** A numeric token's value: `float(tok)` when the token holds a '.',
      `int(tok)` otherwise. Floats are kept exact. */
  datatype Number = IntValue(i: int) | FloatValue(r: real)

  /** `float(tok) if '.' in tok else int(tok)`; None where Python raises
      ValueError. */
  function ParseValue(tok: string): (r: Option<Number>)
    ensures r.Some? && '.' in tok ==> r.value.FloatValue?
    ensures r.Some? && '.' !in tok ==> r.value.IntValue?
  {
    if '.' in tok then
      match ParseFloat(tok)
      case None => None
      case Some(x) => Some(FloatValue(x))
    else
      match ParseInt(tok)
      case None => None
      case Some(n) => Some(IntValue(n))
  }

  /** `float(v)` of a parsed value. */
  function ToReal(v: Number): real {
    match v
    case IntValue(i) => i as real
    case FloatValue(r) => r
  }

  /** One triple yielded by a walker. */
  datatype Item<V> = Item(region: string, position: int, value: V)

  /** Python's `(r1, p1) < (r2, p2)` on `(region, position)` tuples. */
  predicate KeyLess(r1: string, p1: int, r2: string, p2: int) {
    LexLess(r1, r2) || (r1 == r2 && p1 < p2)
  }

  lemma KeyLessIrreflexive(r: string, p: int)
    ensures !KeyLess(r, p, r, p)
  {
    LexIrreflexive(r);
  }

  lemma KeyLessTransitive(r1: string, p1: int, r2: string, p2: int, r3: string, p3: int)
    requires KeyLess(r1, p1, r2, p2) && KeyLess(r2, p2, r3, p3)
    ensures KeyLess(r1, p1, r3, p3)
  {
    if LexLess(r1, r2) && LexLess(r2, r3) {
      LexTransitive(r1, r2, r3);
    }
  }

  lemma KeyLessTotal(r1: string, p1: int, r2: string, p2: int)
    ensures (r1 == r2 && p1 == p2) || KeyLess(r1, p1, r2, p2) || KeyLess(r2, p2, r1, p1)
  {
    LexTotal(r1, r2);
  }

  lemma KeyLessAsymmetric(r1: string, p1: int, r2: string, p2: int)
    requires KeyLess(r1, p1, r2, p2)
    ensures !KeyLess(r2, p2, r1, p1)
  {
    if LexLess(r1, r2) {
      LexAsymmetric(r1, r2);
    } else {
      LexIrreflexive(r1);
    }
  }

  // ---------------------------------------------------------------------
  // Header attributes
  // ---------------------------------------------------------------------

  /** `dict(map(lambda field: field.split('='), tokens))`: None (ValueError)
      as soon as one token does not split into exactly a key and a value;
      a later key overrides an earlier one. */
  function Fields(tokens: seq<string>): Option<map<string, string>>
    decreases |tokens|
  {
    if tokens == [] then Some(map[])
    else
      match Fields(tokens[..|tokens| - 1])
      case None => None
      case Some(m) =>
        var parts := SplitOn(tokens[|tokens| - 1], "=");
        if |parts| == 2 then Some(m[parts[0] := parts[1]]) else None
  }

  /** A token that splits into a key and a value. */
  predicate IsField(t: string) {
    |SplitOn(t, "=")| == 2
  }

  /** The dictionary fails to build exactly when some token is not a
      `key=value` pair. */
  lemma {:induction false} FieldsFailWhen(tokens: seq<string>)
    ensures Fields(tokens).None? <==> exists j :: 0 <= j < |tokens| && !IsField(tokens[j])
    decreases |tokens|
  {
    if tokens != [] {
      var init := tokens[..|tokens| - 1];
      FieldsFailWhen(init);
      if Fields(init).None? {
        var j :| 0 <= j < |init| && !IsField(init[j]);
        assert tokens[j] == init[j];
      } else {
        forall j | 0 <= j < |init| ensures IsField(tokens[j]) {
          assert tokens[j] == init[j];
        }
      }
    }
  }

  /** A syntactically clean attribute key or value. */
  predicate Clean(s: string) {
    s != [] && NoSpace(s) && '=' !in s
  }

  predicate CleanFields(fs: seq<(string, string)>) {
    forall i :: 0 <= i < |fs| ==> Clean(fs[i].0) && Clean(fs[i].1)
  }

  /** The attribute list ` k1=v1 k2=v2 ...` of a header line. */
  function Attributes(fs: seq<(string, string)>): string
    decreases |fs|
  {
    if fs == [] then [] else " " + fs[0].0 + "=" + fs[0].1 + Attributes(fs[1..])
  }

  /** The tokens ` k=v` of an attribute list. */
  function FieldTokens(fs: seq<(string, string)>): seq<string> {
    seq(|fs|, i requires 0 <= i < |fs| => fs[i].0 + "=" + fs[i].1)
  }

  /** The dictionary of an attribute list: a later key overrides. */
  function FieldMap(fs: seq<(string, string)>): map<string, string>
    decreases |fs|
  {
    if fs == [] then map[] else FieldMap(fs[..|fs| - 1])[fs[|fs| - 1].0 := fs[|fs| - 1].1]
  }

  lemma NotContainsChar(s: string, c: char)
    requires c !in s
    ensures !Contains(s, [c])
  {
    forall j: nat | j + 1 <= |s| ensures !OccursAt(s, [c], j) {
      assert s[j..j + 1] == [s[j]];
    }
  }

  /** `(k + '=' + v).split('=') == [k, v]` for keys and values without '='. */
  lemma SplitField(k: string, v: string)
    requires '=' !in k && '=' !in v
    ensures SplitOn(k + "=" + v, "=") == [k, v]
  {
    var s := k + "=" + v;
    assert OccursAt(s, "=", |k|) by {
      assert s[|k|..|k| + 1] == "=";
    }
    forall j: nat | j < |k| ensures !OccursAt(s, "=", j) {
      assert s[j..j + 1] == [k[j]];
    }
    var f := Find(s, "=");
    assert f.Some?;
    assert f.value == |k|;
    assert s[..|k|] == k;
    assert s[|k| + 1..] == v;
    NotContainsChar(v, '=');
  }

  lemma FieldTokenClean(k: string, v: string)
    requires Clean(k) && Clean(v)
    ensures k + "=" + v != [] && NoSpace(k + "=" + v)
  {
    var a := k + "=" + v;
    forall i | 0 <= i < |a| ensures !IsSpace(a[i]) {
      if i < |k| { assert a[i] == k[i]; }
      else if i > |k| { assert a[i] == v[i - |k| - 1]; }
    }
  }

  /** The first byte after an attribute is a blank. */
  lemma AttributesStartBlank(fs: seq<(string, string)>, eol: char)
    requires IsSpace(eol)
    ensures var rest := Attributes(fs) + [eol];
            rest != [] && IsSpace(rest[0])
  {
  }

  lemma AttributesCons(fs: seq<(string, string)>, eol: char)
    requires fs != []
    ensures Attributes(fs) + [eol] == [' '] + ((fs[0].0 + "=" + fs[0].1) + (Attributes(fs[1..]) + [eol]))
  {
  }

  lemma FieldTokensCons(fs: seq<(string, string)>)
    requires fs != []
    ensures FieldTokens(fs) == [fs[0].0 + "=" + fs[0].1] + FieldTokens(fs[1..])
  {
  }

  lemma {:induction false} SplitAttributes(fs: seq<(string, string)>, eol: char)
    requires CleanFields(fs) && IsSpace(eol)
    ensures Split(Attributes(fs) + [eol]) == FieldTokens(fs)
    decreases |fs|
  {
    if fs == [] {
      assert Attributes(fs) + [eol] == [eol];
      assert [eol][1..] == [];
      assert SplitFrom([eol], []) == SplitFrom([], []);
      assert FieldTokens(fs) == [];
    } else {
      var a := fs[0].0 + "=" + fs[0].1;
      var rest := Attributes(fs[1..]) + [eol];
      FieldTokenClean(fs[0].0, fs[0].1);
      AttributesCons(fs, eol);
      AttributesStartBlank(fs[1..], eol);
      assert CleanFields(fs[1..]);
      calc {
        Split(Attributes(fs) + [eol]);
        Split([' '] + (a + rest));
        { SplitLeadingSpace(' ', a + rest); }
        SplitFrom(a + rest, []);
        { SplitFromToken(a, rest, []); assert [] + a == a; }
        SplitFrom(rest, a);
        [a] + SplitFrom(rest[1..], []);
        { assert [rest[0]] + rest[1..] == rest; SplitLeadingSpace(rest[0], rest[1..]); }
        [a] + Split(rest);
        { SplitAttributes(fs[1..], eol); }
        [a] + FieldTokens(fs[1..]);
        { FieldTokensCons(fs); }
        FieldTokens(fs);
      }
    }
  }

  lemma {:induction false} FieldsOfTokens(fs: seq<(string, string)>)
    requires CleanFields(fs)
    ensures Fields(FieldTokens(fs)) == Some(FieldMap(fs))
    decreases |fs|
  {
    if fs != [] {
      var n := |fs|;
      assert FieldTokens(fs)[..n - 1] == FieldTokens(fs[..n - 1]);
      FieldsOfTokens(fs[..n - 1]);
      SplitField(fs[n - 1].0, fs[n - 1].1);
    }
  }

  /** A header line `<keyword> k1=v1 ...<eol>` yields the dictionary of its
      attributes. */
  lemma HeaderFields(keyword: string, fs: seq<(string, string)>, eol: char)
    requires CleanFields(fs) && IsSpace(eol)
    ensures var line := keyword + Attributes(fs) + [eol];
            keyword <= line && Fields(Split(line[|keyword|..])) == Some(FieldMap(fs))
  {
    var line := keyword + Attributes(fs) + [eol];
    assert line[|keyword|..] == Attributes(fs) + [eol];
    SplitAttributes(fs, eol);
    FieldsOfTokens(fs);
  }

  lemma {:induction false} FieldMapLookup(fs: seq<(string, string)>, k: string)
    ensures k in FieldMap(fs) <==> exists i :: 0 <= i < |fs| && fs[i].0 == k
    decreases |fs|
  {
    if fs != [] {
      FieldMapLookup(fs[..|fs| - 1], k);
      if k in FieldMap(fs[..|fs| - 1]) {
        var i :| 0 <= i < |fs| - 1 && fs[..|fs| - 1][i].0 == k;
        assert fs[i].0 == k;
      }
      if exists i :: 0 <= i < |fs| && fs[i].0 == k {
        var i :| 0 <= i < |fs| && fs[i].0 == k;
        if i < |fs| - 1 {
          assert fs[..|fs| - 1][i].0 == k;
        }
      }
    }
  }

  lemma FieldMapSnoc(fs: seq<(string, string)>, k: string, v: string)
    ensures FieldMap(fs + [(k, v)]) == FieldMap(fs)[k := v]
  {
    assert (fs + [(k, v)])[..|fs|] == fs;
  }

  lemma AttributesConsPair(k: string, v: string, fs: seq<(string, string)>)
    ensures Attributes([(k, v)] + fs) == " " + k + "=" + v + Attributes(fs)
  {
    assert ([(k, v)] + fs)[1..] == fs;
  }

  /** A written integer is a clean attribute value. */
  lemma IntToStringClean(i: int)
    ensures Clean(IntToString(i))
  {
    var t := IntToString(i);
    IntToStringNoSpace(i);
    forall k | 0 <= k < |t| ensures t[k] != '=' {
      assert IsDigit(t[k]) || t[k] == '-';
    }
  }

  // ---------------------------------------------------------------------
  // Positions in a fixed-step block
  // ---------------------------------------------------------------------

  /** The position of the i-th record of a fixed-step block: `start` advanced
      i times by `step`. */
  function Advance(start: int, step: int, i: nat): int {
    if i == 0 then start else Advance(start, step, i - 1) + step
  }

  lemma {:induction false} AdvanceIsProduct(start: int, step: int, i: nat)
    ensures Advance(start, step, i) == start + i * step
  {
    if i > 0 {
      AdvanceIsProduct(start, step, i - 1);
    }
  }

  lemma {:induction false} AdvanceShift(start: int, step: int, i: nat)
    ensures Advance(start + step, step, i) == Advance(start, step, i + 1)
  {
    if i > 0 {
      AdvanceShift(start, step, i - 1);
    }
  }
}
