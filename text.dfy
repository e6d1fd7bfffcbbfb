/**
 * The pieces of Python's `str` behaviour that the table compiler's loader relies on:
 * `strip()`, `split('\t')` and `int(...)` on a decimal literal. The functions carry no
 * postconditions of their own; what they compute is stated by the lemmas that follow each.
 */
module Text {
  import opened Wrappers

  /** `str.isspace()` on the ASCII range: space, \t \n \v \f \r, and the separators 0x1C..0x1F. */
  predicate IsSpace(c: char) {
    var n := c as int;
    n == 32 || 9 <= n <= 13 || IsSeparator(c)
  }

  /** The file, group, record and unit separators 0x1C..0x1F. */
  predicate IsSeparator(c: char) {
    28 <= c as int <= 31
  }

  /**
   * The whitespace `int()` skips around an ASCII literal: space and \t \n \v \f \r only.
   * Unlike `str.strip()`, it does not treat the separators 0x1C..0x1F as whitespace.
   */
  predicate IsIntSpace(c: char) {
    var n := c as int;
    n == 32 || 9 <= n <= 13
  }

  /** The two whitespace classes: `str.strip()`'s and `int()`'s. */
  datatype SpaceClass = StrSpace | IntSpace

  /** Whether `c` is whitespace of class `ws`. */
  predicate InClass(c: char, ws: SpaceClass) {
    match ws
    case StrSpace => IsSpace(c)
    case IntSpace => IsIntSpace(c)
  }

  /** Drops the leading characters of class `ws`. */
  function TrimLeft(s: string, ws: SpaceClass): string {
    if s != [] && InClass(s[0], ws) then TrimLeft(s[1..], ws) else s
  }

  /** Drops the trailing characters of class `ws`. */
  function TrimRight(s: string, ws: SpaceClass): string {
    if s != [] && InClass(s[|s| - 1], ws) then TrimRight(s[..|s| - 1], ws) else s
  }

  /** `s.strip()`. */
  function Strip(s: string): string {
    TrimRight(TrimLeft(s, StrSpace), StrSpace)
  }

  /** The trimming `int()` applies before reading the literal. */
  function IntStrip(s: string): string {
    TrimRight(TrimLeft(s, IntSpace), IntSpace)
  }

  /** TrimLeft drops exactly the leading characters of class `ws`. */
  lemma {:induction false} TrimLeftSpec(s: string, ws: SpaceClass)
    ensures var r := TrimLeft(s, ws);
      && |r| <= |s| && r == s[|s| - |r|..]
      && (r == [] || !InClass(r[0], ws))
      && (forall i :: 0 <= i < |s| - |r| ==> InClass(s[i], ws))
  {
    if s != [] && InClass(s[0], ws) {
      var t := s[1..];
      TrimLeftSpec(t, ws);
      var r := TrimLeft(t, ws);
      assert TrimLeft(s, ws) == r;
      assert t[|t| - |r|..] == s[|s| - |r|..];
      forall i | 0 <= i < |s| - |r|
        ensures InClass(s[i], ws)
      {
        if i > 0 {
          assert s[i] == t[i - 1];
        }
      }
    }
  }

  /** TrimRight drops exactly the trailing characters of class `ws`. */
  lemma {:induction false} TrimRightSpec(s: string, ws: SpaceClass)
    ensures var r := TrimRight(s, ws);
      && |r| <= |s| && r == s[..|r|]
      && (r == [] || !InClass(r[|r| - 1], ws))
      && (forall i :: |r| <= i < |s| ==> InClass(s[i], ws))
  {
    if s != [] && InClass(s[|s| - 1], ws) {
      var t := s[..|s| - 1];
      TrimRightSpec(t, ws);
      var r := TrimRight(t, ws);
      assert TrimRight(s, ws) == r;
      assert t[..|r|] == s[..|r|];
      forall i | |r| <= i < |s|
        ensures InClass(s[i], ws)
      {
        if i < |s| - 1 {
          assert s[i] == t[i];
        }
      }
    }
  }

  /** A left cut `t` of `s` followed by a right cut `r` of `t` is the slice `s[k..k + |r|]`. */
  lemma CutBothEnds(s: string, t: string, r: string, ws: SpaceClass)
    requires |t| <= |s| && t == s[|s| - |t|..] && (t == [] || !InClass(t[0], ws))
    requires forall i :: 0 <= i < |s| - |t| ==> InClass(s[i], ws)
    requires |r| <= |t| && r == t[..|r|]
    requires forall i :: |r| <= i < |t| ==> InClass(t[i], ws)
    ensures var k := |s| - |t|;
      && k + |r| <= |s| && r == s[k..k + |r|]
      && (r == [] || !InClass(r[0], ws))
      && (forall i :: k + |r| <= i < |s| ==> InClass(s[i], ws))
  {
    var k := |s| - |t|;
    if r != [] {
      assert r[0] == t[0];
    }
    forall i | k + |r| <= i < |s|
      ensures InClass(s[i], ws)
    {
      assert s[i] == t[i - k];
    }
  }

  /**
   * Trimming both ends with class `ws` keeps the slice `s[k..k + |r|]` that neither starts nor
   * ends with `ws`; everything cut off on either side is of class `ws`.
   */
  lemma TrimSpec(s: string, ws: SpaceClass)
    ensures var r := TrimRight(TrimLeft(s, ws), ws);
      var k := |s| - |TrimLeft(s, ws)|;
      && 0 <= k && k + |r| <= |s| && r == s[k..k + |r|]
      && (r == [] || (!InClass(r[0], ws) && !InClass(r[|r| - 1], ws)))
      && (forall i :: 0 <= i < k ==> InClass(s[i], ws))
      && (forall i :: k + |r| <= i < |s| ==> InClass(s[i], ws))
  {
    var t := TrimLeft(s, ws);
    TrimLeftSpec(s, ws);
    TrimRightSpec(t, ws);
    CutBothEnds(s, t, TrimRight(t, ws), ws);
  }

  /**
   * `s.strip()` is the slice of `s` that starts at the first non-space character and neither
   * starts nor ends with whitespace; everything cut off on either side is whitespace.
   */
  lemma StripSpec(s: string)
    ensures var r := Strip(s);
      var k := |s| - |TrimLeft(s, StrSpace)|;
      && 0 <= k && k + |r| <= |s| && r == s[k..k + |r|]
      && (r == [] || (!IsSpace(r[0]) && !IsSpace(r[|r| - 1])))
      && (forall i :: 0 <= i < k ==> IsSpace(s[i]))
      && (forall i :: k + |r| <= i < |s| ==> IsSpace(s[i]))
  {
    TrimSpec(s, StrSpace);
  }

  /** Trimming a string that holds no `int()` whitespace at all leaves it as it is. */
  lemma IntStripNoSpace(s: string)
    requires forall i :: 0 <= i < |s| ==> !IsIntSpace(s[i])
    ensures IntStrip(s) == s
  {
  }

  /** `sep.join(fields)`. */
  function Join(fields: seq<string>, sep: char): string
    requires |fields| >= 1
  {
    if |fields| == 1 then fields[0] else fields[0] + [sep] + Join(fields[1..], sep)
  }

  /** `s.split(sep)`. */
  function Split(s: string, sep: char): seq<string> {
    if s == [] then [""]
    else
      var rest := Split(s[1..], sep);
      if s[0] == sep then [""] + rest
      else [[s[0]] + rest[0]] + rest[1..]
  }

  /** Splitting gives at least one field, no field holds the separator, and joining gives `s` back. */
  lemma {:induction false} SplitJoin(s: string, sep: char)
    ensures |Split(s, sep)| >= 1
    ensures forall i :: 0 <= i < |Split(s, sep)| ==> sep !in Split(s, sep)[i]
    ensures Join(Split(s, sep), sep) == s
  {
    if s != [] {
      var rest := Split(s[1..], sep);
      SplitJoin(s[1..], sep);
      var r := Split(s, sep);
      if s[0] == sep {
        assert r[1..] == rest;
      } else {
        assert r[1..] == rest[1..];
        assert r[0] == [s[0]] + rest[0];
      }
    }
  }

  predicate IsDigit(c: char) {
    '0' <= c <= '9'
  }

  predicate AllDigits(s: string) {
    forall i :: 0 <= i < |s| ==> IsDigit(s[i])
  }

  /** The value of a string of decimal digits, most significant first. */
  function DigitsValue(ds: string): nat
    requires AllDigits(ds)
  {
    if ds == [] then 0 else DigitsValue(ds[..|ds| - 1]) * 10 + (ds[|ds| - 1] as int - '0' as int)
  }

  /** The default limit on the digits of an integer converted from or to a decimal string. */
  const MaxStrDigits: nat := 4300

  /**
   * Python's `int(s)` on a decimal literal: surrounding `IsIntSpace` whitespace is ignored, an optional
   * sign, then one to `MaxStrDigits` ASCII digits; anything else raises ValueError (here `None`).
   */
  function ParseInt(s: string): Option<int> {
    var t := IntStrip(s);
    var signed := |t| > 0 && (t[0] == '+' || t[0] == '-');
    var body := if signed then t[1..] else t;
    if body != [] && AllDigits(body) && |body| <= MaxStrDigits then
      var magnitude: int := DigitsValue(body);
      Some(if signed && t[0] == '-' then -magnitude else magnitude)
    else
      None
  }

  /** The shortest decimal rendering of a natural number. */
  function Decimal(n: nat): (s: string)
    ensures s != [] && AllDigits(s)
  {
    var d := ['0' + (n % 10) as char];
    if n < 10 then d else Decimal(n / 10) + d
  }

  /** `str(i)` for an integer. */
  function Render(i: int): string {
    if i < 0 then "-" + Decimal(-i) else Decimal(i)
  }

  lemma {:induction false} DecimalValue(n: nat)
    ensures DigitsValue(Decimal(n)) == n
  {
    var s := Decimal(n);
    if n >= 10 {
      DecimalValue(n / 10);
      assert s[..|s| - 1] == Decimal(n / 10);
    }
  }

  /**
   * `int(str(i)) == i`: every integer whose decimal form is within the digit limit (beyond it
   * `str(i)` itself raises ValueError) is read back exactly.
   */
  lemma ParseRender(i: int)
    requires |Decimal(if i < 0 then -i else i)| <= MaxStrDigits
    ensures ParseInt(Render(i)) == Some(i)
  {
    var s := Render(i);
    var ds := Decimal(if i < 0 then -i else i);
    forall k | 0 <= k < |s| ensures !IsIntSpace(s[k]) {
      if i < 0 && k == 0 {
      } else {
        assert s[k] == ds[if i < 0 then k - 1 else k];
      }
    }
    IntStripNoSpace(s);
    DecimalValue(if i < 0 then -i else i);
    if i < 0 {
      assert s[1..] == ds;
    }
  }

  /**
   * A value text with a separator 0x1C..0x1F at either end is rejected: `int()` does not skip
   * it, and it is neither a sign nor a digit.
   */
  lemma SeparatorRejected(s: string)
    requires s != [] && (IsSeparator(s[0]) || IsSeparator(s[|s| - 1]))
    ensures ParseInt(s) == None
  {
    TrimSpec(s, IntSpace);
    var t := IntStrip(s);
    if IsSeparator(s[0]) {
      assert !IsIntSpace(s[0]);
      if t != [] {
        assert t[0] == s[0];
      }
    } else {
      assert !IsIntSpace(s[|s| - 1]);
      assert t != [] && t[|t| - 1] == s[|s| - 1];
      var body := if t[0] == '+' || t[0] == '-' then t[1..] else t;
      if body != [] {
        assert body[|body| - 1] == s[|s| - 1];
      }
    }
  }

  /**
   * A literal whose digit run, after the surrounding whitespace and an optional sign, is longer
   * than the limit is rejected, however well-formed.
   */
  lemma LongLiteralRejected(s: string)
    requires var t := IntStrip(s);
      var body := if |t| > 0 && (t[0] == '+' || t[0] == '-') then t[1..] else t;
      |body| > MaxStrDigits
    ensures ParseInt(s) == None
  {
  }
}
