/** The Python 2 string and number built-ins that the wiggle reader, writer
    and indexer rely on, stated on byte strings (`seq<char>` holding bytes). */
module Text {

  datatype Option<+T> = None | Some(value: T)

  // ---------------------------------------------------------------------
  // Whitespace and `str.split()`
  // ---------------------------------------------------------------------

  /** `str.isspace` on one byte of a Python 2 `str`. */
  predicate IsSpace(c: char) {
    c == ' ' || c == '\t' || c == '\n' || c == '\r' || c == '\U{0B}' || c == '\U{0C}'
  }

  predicate NoSpace(s: string) {
    forall i :: 0 <= i < |s| ==> !IsSpace(s[i])
  }

  /** `s.split()` without a separator: the maximal runs of non-whitespace. */
  function Split(s: string): (r: seq<string>)
    ensures forall t :: t in r ==> t != [] && NoSpace(t)
  {
    SplitFrom(s, [])
  }

  /** Splitting `s` when the token `cur` has already been started. */
  function SplitFrom(s: string, cur: string): (r: seq<string>)
    requires NoSpace(cur)
    ensures forall t :: t in r ==> t != [] && NoSpace(t)
    decreases |s|
  {
    if s == [] then (if cur == [] then [] else [cur])
    else if IsSpace(s[0]) then
      (if cur == [] then SplitFrom(s[1..], []) else [cur] + SplitFrom(s[1..], []))
    else SplitFrom(s[1..], cur + [s[0]])
  }

  lemma {:induction false} SplitFromToken(tok: string, rest: string, cur: string)
    requires NoSpace(cur) && NoSpace(tok)
    ensures SplitFrom(tok + rest, cur) == SplitFrom(rest, cur + tok)
    decreases |tok|
  {
    if tok == [] {
      assert tok + rest == rest;
      assert cur + tok == cur;
    } else {
      assert (tok + rest)[1..] == tok[1..] + rest;
      assert (cur + [tok[0]]) + tok[1..] == cur + tok;
      SplitFromToken(tok[1..], rest, cur + [tok[0]]);
    }
  }

  /** Two tokens separated by one blank and followed by a line break split
      into exactly those two tokens. */
  lemma SplitPair(a: string, b: string, blank: char, eol: char)
    requires a != [] && b != [] && NoSpace(a) && NoSpace(b)
    requires IsSpace(blank) && IsSpace(eol)
    ensures Split(a + [blank] + b + [eol]) == [a, b]
  {
    assert a + [blank] + b + [eol] == a + ([blank] + b + [eol]);
    SplitFromToken(a, [blank] + b + [eol], []);
    assert [] + a == a;
    assert ([blank] + b + [eol])[1..] == b + [eol];
    SplitFromToken(b, [eol], []);
    assert [] + b == b;
  }

  /** One token followed by a line break splits into that token. */
  lemma SplitSingle(a: string, eol: char)
    requires a != [] && NoSpace(a) && IsSpace(eol)
    ensures Split(a + [eol]) == [a]
  {
    SplitFromToken(a, [eol], []);
    assert [] + a == a;
  }

  /** Leading whitespace does not change the split. */
  lemma SplitLeadingSpace(c: char, s: string)
    requires IsSpace(c)
    ensures Split([c] + s) == Split(s)
  {
    assert ([c] + s)[1..] == s;
  }

  /** `str.strip()`: drop leading and trailing whitespace. */
  function Strip(s: string): (r: string)
    ensures |r| <= |s|
  {
    TrimRight(TrimLeft(s))
  }

  function TrimLeft(s: string): (r: string)
    ensures |r| <= |s|
    ensures r == [] || !IsSpace(r[0])
    decreases |s|
  {
    if s != [] && IsSpace(s[0]) then TrimLeft(s[1..]) else s
  }

  function TrimRight(s: string): (r: string)
    ensures |r| <= |s| && r <= s
    ensures r == [] || !IsSpace(r[|r| - 1])
    decreases |s|
  {
    if s != [] && IsSpace(s[|s| - 1]) then TrimRight(s[..|s| - 1]) else s
  }

  lemma StripTrailingSpace(s: string, eol: char)
    requires s != [] && !IsSpace(s[0]) && !IsSpace(s[|s| - 1]) && IsSpace(eol)
    ensures Strip(s + [eol]) == s
  {
    assert (s + [eol])[0] == s[0];
    assert TrimLeft(s + [eol]) == s + [eol];
    assert (s + [eol])[..|s + [eol]| - 1] == s;
    assert TrimRight(s + [eol]) == TrimRight(s);
  }

  lemma StripClean(s: string)
    requires s != [] && !IsSpace(s[0]) && !IsSpace(s[|s| - 1])
    ensures Strip(s) == s
  {
  }

  // ---------------------------------------------------------------------
  // Substrings: `pat in s`, `s.split(sep)`
  // ---------------------------------------------------------------------

  predicate OccursAt(s: string, pat: string, j: nat) {
    j + |pat| <= |s| && s[j..j + |pat|] == pat
  }

  /** `s.find(pat)`: the first position at which `pat` occurs. */
  function Find(s: string, pat: string): (r: Option<nat>)
    requires pat != []
    ensures r.Some? ==> OccursAt(s, pat, r.value)
    ensures r.Some? ==> forall j: nat :: j < r.value ==> !OccursAt(s, pat, j)
    ensures r.None? ==> forall j: nat :: !OccursAt(s, pat, j)
    decreases |s|
  {
    if |s| < |pat| then None
    else if s[..|pat|] == pat then Some(0)
    else
      var r := Find(s[1..], pat);
      ShiftOccurs(s, pat);
      assert s[0..|pat|] == s[..|pat|];
      assert forall j: nat :: j >= 1 ==> (OccursAt(s, pat, j) <==> OccursAt(s[1..], pat, j - 1));
      match r
      case None => None
      case Some(i) => Some(i + 1)
  }

  lemma ShiftOccurs(s: string, pat: string)
    requires s != []
    ensures forall j: nat :: OccursAt(s[1..], pat, j) <==> OccursAt(s, pat, j + 1)
  {
    forall j: nat
      ensures OccursAt(s[1..], pat, j) <==> OccursAt(s, pat, j + 1)
    {
      if j + |pat| <= |s[1..]| {
        assert s[1..][j..j + |pat|] == s[j + 1..j + 1 + |pat|];
      }
    }
  }

  /** `pat in s` for a non-empty pattern. */
  predicate Contains(s: string, pat: string)
    requires pat != []
  {
    Find(s, pat).Some?
  }

  /** `s.split(sep)`: the pieces between the occurrences of `sep`. */
  function SplitOn(s: string, sep: string): (r: seq<string>)
    requires sep != []
    ensures |r| >= 1
    ensures |r| == 1 <==> !Contains(s, sep)
    decreases |s|
  {
    match Find(s, sep)
    case None => [s]
    case Some(i) => [s[..i]] + SplitOn(s[i + |sep|..], sep)
  }

  // ---------------------------------------------------------------------
  // `int(s)` and `float(s)`
  // ---------------------------------------------------------------------

  predicate IsDigit(c: char) {
    '0' <= c <= '9'
  }

  predicate AllDigits(s: string) {
    forall i :: 0 <= i < |s| ==> IsDigit(s[i])
  }

  function DigitValue(c: char): (d: nat)
    requires IsDigit(c)
    ensures d < 10
  {
    (c as int) - ('0' as int)
  }

  function DigitChar(d: nat): (c: char)
    requires d < 10
    ensures IsDigit(c) && DigitValue(c) == d
  {
    ('0' as int + d) as char
  }

  /** The value of a decimal digit string, most significant digit first. */
  function DigitsValue(s: string): nat
    requires AllDigits(s)
    decreases |s|
  {
    if s == [] then 0 else DigitsValue(s[..|s| - 1]) * 10 + DigitValue(s[|s| - 1])
  }

  /** `int(s)` in base 10: optional surrounding whitespace, an optional sign,
      one or more digits. */
  function ParseInt(s: string): Option<int> {
    var t := Strip(s);
    if t != [] && (t[0] == '+' || t[0] == '-') then
      (if |t| > 1 && AllDigits(t[1..]) then
         var n: int := DigitsValue(t[1..]);
         Some(if t[0] == '-' then -n else n)
       else None)
    else if t != [] && AllDigits(t) then Some(DigitsValue(t) as int)
    else None
  }

  function Pow10(n: nat): (p: nat)
    ensures p >= 1
  {
    if n == 0 then 1 else 10 * Pow10(n - 1)
  }

  /** The index of the first occurrence of the byte `c`, or `|s|`. */
  function IndexOf(s: string, c: char): (i: nat)
    ensures i <= |s|
    ensures i < |s| ==> s[i] == c
    ensures forall j :: 0 <= j < i ==> s[j] != c
    decreases |s|
  {
    if s == [] then 0 else if s[0] == c then 0 else 1 + IndexOf(s[1..], c)
  }

  /** The index of the first exponent marker `e` or `E`, or `|s|`. */
  function IndexOfExponent(s: string): (i: nat)
    ensures i <= |s|
    ensures i < |s| ==> s[i] == 'e' || s[i] == 'E'
    ensures forall j :: 0 <= j < i ==> s[j] != 'e' && s[j] != 'E'
    decreases |s|
  {
    if s == [] then 0 else if s[0] == 'e' || s[0] == 'E' then 0 else 1 + IndexOfExponent(s[1..])
  }

  /** An unsigned mantissa `digits [. digits]` or `. digits` with at least
      one digit, read exactly. */
  function ParseMantissa(m: string): Option<(nat, nat)> {
    var d := IndexOf(m, '.');
    var whole := m[..d];
    var frac := if d < |m| then m[d + 1..] else [];
    if AllDigits(whole) && AllDigits(frac) && |whole| + |frac| >= 1 then
      Some((DigitsValue(whole + frac), |frac|))
    else None
  }

  /** A signed exponent `[+|-] digits`. */
  function ParseExponent(e: string): Option<int> {
    if e != [] && (e[0] == '+' || e[0] == '-') then
      (if |e| > 1 && AllDigits(e[1..]) then
         var n: int := DigitsValue(e[1..]);
         Some(if e[0] == '-' then -n else n)
       else None)
    else if e != [] && AllDigits(e) then Some(DigitsValue(e) as int)
    else None
  }

  /** `float(s)` for decimal literals, evaluated exactly (no rounding to a
      double): `[+|-] mantissa [(e|E) exponent]`. */
  function ParseFloat(s: string): Option<real> {
    var t := Strip(s);
    var neg := t != [] && t[0] == '-';
    var body := if t != [] && (t[0] == '+' || t[0] == '-') then t[1..] else t;
    var e := IndexOfExponent(body);
    var mantissa := ParseMantissa(body[..e]);
    var exponent := if e < |body| then ParseExponent(body[e + 1..]) else Some(0);
    if mantissa.None? || exponent.None? then None
    else
      var (digits, scale) := mantissa.value;
      var shift := exponent.value - scale;
      var magnitude := if shift >= 0 then (digits * Pow10(shift)) as real
                       else (digits as real) / (Pow10(-shift) as real);
      Some(if neg then -magnitude else magnitude)
  }

  // ---------------------------------------------------------------------
  // `'%d' % n`
  // ---------------------------------------------------------------------

  function NatToString(n: nat): (s: string)
    ensures s != [] && AllDigits(s)
    decreases n
  {
    if n < 10 then [DigitChar(n)] else NatToString(n / 10) + [DigitChar(n % 10)]
  }

  /** `'%d' % i`: an optional minus sign and the decimal digits. */
  function IntToString(i: int): (s: string)
    ensures s != [] && (IsDigit(s[0]) || s[0] == '-')
    ensures forall k :: 0 <= k < |s| ==> IsDigit(s[k]) || (k == 0 && s[k] == '-')
  {
    if i < 0 then "-" + NatToString(-i) else NatToString(i)
  }

  lemma {:induction false} DigitsOfNat(n: nat)
    ensures DigitsValue(NatToString(n)) == n
    decreases n
  {
    var s := NatToString(n);
    if n >= 10 {
      DigitsOfNat(n / 10);
      assert s[..|s| - 1] == NatToString(n / 10);
    }
  }

  lemma ParseIntOfNatToString(n: nat)
    ensures ParseInt(NatToString(n)) == Some(n)
  {
    var s := NatToString(n);
    assert IsDigit(s[0]) && IsDigit(s[|s| - 1]);
    StripClean(s);
    DigitsOfNat(n);
  }

  lemma ParseIntOfMinus(n: nat)
    requires n > 0
    ensures ParseInt("-" + NatToString(n)) == Some(-(n as int))
  {
    var d := NatToString(n);
    var s := "-" + d;
    assert s[0] == '-' && s[|s| - 1] == d[|d| - 1] && IsDigit(d[|d| - 1]);
    StripClean(s);
    assert s[1..] == d;
    DigitsOfNat(n);
  }

  /** `int('%d' % i) == i`. */
  lemma ParseIntOfIntToString(i: int)
    ensures ParseInt(IntToString(i)) == Some(i)
  {
    if i < 0 {
      ParseIntOfMinus(-i);
    } else {
      ParseIntOfNatToString(i);
    }
  }

  /** The same after the line break that ends a written line. */
  lemma ParseIntOfIntToStringLine(i: int, eol: char)
    requires IsSpace(eol)
    ensures ParseInt(IntToString(i) + [eol]) == Some(i)
  {
    var s := IntToString(i);
    assert !IsSpace(s[0]) && !IsSpace(s[|s| - 1]);
    StripTrailingSpace(s, eol);
    ParseIntOfIntToString(i);
  }

  /** A written integer is a single token. */
  lemma IntToStringNoSpace(i: int)
    ensures NoSpace(IntToString(i))
  {
    var t := IntToString(i);
    forall k | 0 <= k < |t| ensures !IsSpace(t[k]) {
      assert IsDigit(t[k]) || t[k] == '-';
    }
  }

  /** A token holds no line break. */
  lemma NoBreak(s: string)
    requires NoSpace(s)
    ensures '\n' !in s
  {
  }

  lemma ConcatAssoc<T>(a: seq<T>, b: seq<T>, c: seq<T>)
    ensures (a + b) + c == a + (b + c)
  {
  }

  // ---------------------------------------------------------------------
  // Python 2 string comparison: lexicographic on bytes
  // ---------------------------------------------------------------------

  /** `a < b` on Python strings. */
  predicate LexLess(a: string, b: string)
    decreases |a|
  {
    if a == [] then b != []
    else b != [] && (a[0] < b[0] || (a[0] == b[0] && LexLess(a[1..], b[1..])))
  }

  lemma {:induction false} LexIrreflexive(a: string)
    ensures !LexLess(a, a)
    decreases |a|
  {
    if a != [] {
      LexIrreflexive(a[1..]);
    }
  }

  lemma {:induction false} LexTransitive(a: string, b: string, c: string)
    requires LexLess(a, b) && LexLess(b, c)
    ensures LexLess(a, c)
    decreases |a|
  {
    if a != [] && a[0] == b[0] && b[0] == c[0] {
      LexTransitive(a[1..], b[1..], c[1..]);
    }
  }

  lemma {:induction false} LexTotal(a: string, b: string)
    ensures a == b || LexLess(a, b) || LexLess(b, a)
    decreases |a|
  {
    if a != [] && b != [] && a[0] == b[0] {
      LexTotal(a[1..], b[1..]);
      if a[1..] == b[1..] {
        assert a == [a[0]] + a[1..];
        assert b == [b[0]] + b[1..];
      }
    }
  }

  lemma {:induction false} LexAsymmetric(a: string, b: string)
    requires LexLess(a, b)
    ensures !LexLess(b, a)
    decreases |a|
  {
    if a != [] && a[0] == b[0] {
      LexAsymmetric(a[1..], b[1..]);
    }
  }
}
