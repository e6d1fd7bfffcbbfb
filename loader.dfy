/**
 * The rule loader of the FSM table compiler (firmware/fsm/make_fsm.py, lines 15-25).
 * Each input line is `code<TAB>v0<TAB>v1`; the i-th accepted line (0-based) gets slot i + 1.
 */
module FsmLoader {
  import opened Wrappers
  import opened Text

  /** One value of the `states` dictionary: the rule's slot and its stored output pair. */
  datatype Entry = Entry(slot: nat, v0: int, v1: int)

  /** The `states` dictionary: its keys in insertion order, and the entries themselves. */
  datatype Rules = Rules(order: seq<string>, states: map<string, Entry>)

  /** Why a run aborts; `line` is the 0-based index of the offending input line. */
  datatype LoadError =
    | FieldCount(line: nat, fields: nat)          // tuple unpacking raised ValueError
    | DuplicateCode(line: nat, code: string)      // `assert code not in states`
    | NotAnInteger(line: nat, text: string)       // `int(...)` raised ValueError
    | ScaleNotMultiple(line: nat, v1: int)        // `assert v1 % 64 == 0`
  {
    function Line(): nat {
      match this
      case FieldCount(n, _) => n
      case DuplicateCode(n, _) => n
      case NotAnInteger(n, _) => n
      case ScaleNotMultiple(n, _) => n
    }
  }

  /**
   * The value escape: with `v0 == 254` and `v1 >= 64`, `v1` must be a multiple of 64 and is
   * stored divided by 64, so that stored * 64 gives the original back; every other `v1` is
   * stored as it is.
   */
  function Scale(v0: int, v1: int): (r: Option<int>)
    ensures r.None? <==> v0 == 254 && v1 >= 64 && v1 % 64 != 0
    ensures r.Some? && v0 == 254 && v1 >= 64 ==> r.value * 64 == v1 && r.value >= 1
    ensures r.Some? && !(v0 == 254 && v1 >= 64) ==> r.value == v1
  {
    if v0 == 254 && v1 >= 64 then
      if v1 % 64 == 0 then Some(v1 / 64) else None
    else
      Some(v1)
  }

  /**
   * The escape is not injective: an unscaled `v1` below 64 and the scaled 64 * `v1` are stored
   * alike, so the stored pair cannot tell them apart.
   */
  lemma EscapeAmbiguity(s: int)
    requires 1 <= s < 64
    ensures Scale(254, s) == Scale(254, s * 64) == Some(s)
  {
  }

  /**
   * What `line.strip().split('\t')` and the two `int(...)` calls make of one line: the number of
   * fields, and for exactly three fields the code, the two value texts and their integer values.
   */
  datatype Parsed = Parsed(fieldCount: nat, code: string, text0: string, text1: string, v0: Option<int>, v1: Option<int>)

  function Parse(line: string): Parsed {
    var f := Split(Strip(line), '\t');
    if |f| != 3 then Parsed(|f|, "", "", "", None, None)
    else Parsed(3, f[0], f[1], f[2], ParseInt(f[1]), ParseInt(f[2]))
  }

  function ParseAll(lines: seq<string>): (ps: seq<Parsed>)
    ensures |ps| == |lines|
  {
    seq(|lines|, i requires 0 <= i < |lines| => Parse(lines[i]))
  }

  /** A line read on its own, duplicates aside: its code, `v0` and stored `v1`, if well-formed. */
  function RuleOf(p: Parsed): Option<(string, int, int)> {
    if p.fieldCount != 3 || p.v0.None? || p.v1.None? then None
    else match Scale(p.v0.value, p.v1.value)
      case None => None
      case Some(s) => Some((p.code, p.v0.value, s))
  }

  /**
   * One loop iteration, with the checks in the source's order: field count, duplicate code,
   * `int(v0)`, `int(v1)`, the escape.
   */
  function ParseRule(known: set<string>, n: nat, p: Parsed): (r: Result<(string, int, int), LoadError>)
    ensures r.Err? ==> r.error.Line() == n
    ensures r.Ok? <==> RuleOf(p).Some? && RuleOf(p).value.0 !in known
    ensures r.Ok? ==> r.value == RuleOf(p).value
  {
    if p.fieldCount != 3 then Err(FieldCount(n, p.fieldCount))
    else if p.code in known then Err(DuplicateCode(n, p.code))
    else if p.v0.None? then Err(NotAnInteger(n, p.text0))
    else if p.v1.None? then Err(NotAnInteger(n, p.text1))
    else match Scale(p.v0.value, p.v1.value)
      case None => Err(ScaleNotMultiple(n, p.v1.value))
      case Some(s) => Ok((p.code, p.v0.value, s))
  }

  /**
   * Which error a bad line gets follows the order of the source's checks: a wrong field count
   * first, then a repeated code, then a non-integer `v0` before `v1`, then the escape.
   */
  lemma ParseRuleOrder(known: set<string>, n: nat, p: Parsed)
    ensures var r := ParseRule(known, n, p);
      && (r.Err? ==> (r.error.FieldCount? <==> p.fieldCount != 3))
      && (r.Err? ==> (r.error.DuplicateCode? <==> p.fieldCount == 3 && p.code in known))
      && (r.Err? ==> (r.error.NotAnInteger? <==> p.fieldCount == 3 && p.code !in known && (p.v0.None? || p.v1.None?)))
      && (r.Err? && r.error.NotAnInteger? ==> r.error.text == if p.v0.None? then p.text0 else p.text1)
      && (r.Err? && r.error.ScaleNotMultiple? ==> p.fieldCount == 3 && p.code !in known && p.v0.Some? && p.v1.Some?)
  {
  }

  /** The loader loop over already-parsed lines; the first failing line aborts. */
  function LoadParsed(ps: seq<Parsed>): Result<Rules, LoadError> {
    if ps == [] then Ok(Rules([], map[]))
    else
      var n := |ps| - 1;
      match LoadParsed(ps[..n])
      case Err(e) => Err(e)
      case Ok(rs) =>
        match ParseRule(rs.states.Keys, n, ps[n])
        case Err(e) => Err(e)
        case Ok((code, v0, v1)) =>
          Ok(Rules(rs.order + [code], rs.states[code := Entry(|rs.order| + 1, v0, v1)]))
  }

  /** The whole loader loop as a function of the input lines. */
  function LoadLines(lines: seq<string>): Result<Rules, LoadError> {
    LoadParsed(ParseAll(lines))
  }

  /** The dictionary invariant: distinct keys in `order`, exactly the keys of `states`, slot i + 1 for the i-th. */
  ghost predicate Slotted(r: Rules) {
    && (forall i, j :: 0 <= i < j < |r.order| ==> r.order[i] != r.order[j])
    && (forall c :: c in r.states ==> c in r.order)
    && (forall i :: 0 <= i < |r.order| ==> r.order[i] in r.states && r.states[r.order[i]].slot == i + 1)
  }

  /** The code of a well-formed line. */
  function CodeOf(p: Parsed): string
    requires RuleOf(p).Some?
  {
    RuleOf(p).value.0
  }

  /** Every line before `n` is well-formed and no two of them share a code. */
  ghost predicate GoodPrefix(ps: seq<Parsed>, n: nat)
    requires n <= |ps|
  {
    && (forall i :: 0 <= i < n ==> RuleOf(ps[i]).Some?)
    && (forall i, j :: 0 <= i < j < n ==> CodeOf(ps[i]) != CodeOf(ps[j]))
  }

  /** One more accepted line: its code becomes the next key, with the next slot. */
  lemma LoadStep(ps: seq<Parsed>)
    requires ps != [] && LoadParsed(ps).Ok?
    ensures var n := |ps| - 1;
      && LoadParsed(ps[..n]).Ok?
      && RuleOf(ps[n]).Some?
      && var rs := LoadParsed(ps[..n]).value;
         && CodeOf(ps[n]) !in rs.states
         && LoadParsed(ps).value
            == Rules(rs.order + [CodeOf(ps[n])], rs.states[CodeOf(ps[n]) := Entry(|rs.order| + 1, RuleOf(ps[n]).value.1, RuleOf(ps[n]).value.2)])
  {
  }

  /** Appending a fresh key with the next slot keeps the dictionary invariant. */
  lemma SlottedAppend(rs: Rules, code: string, v0: int, v1: int)
    requires Slotted(rs) && code !in rs.states
    ensures Slotted(Rules(rs.order + [code], rs.states[code := Entry(|rs.order| + 1, v0, v1)]))
  {
    var r := Rules(rs.order + [code], rs.states[code := Entry(|rs.order| + 1, v0, v1)]);
    forall i | 0 <= i < |rs.order| ensures r.order[i] == rs.order[i] && r.order[i] != code {
    }
    forall c | c in r.states ensures c in r.order {
      if c != code {
        assert c in rs.order;
      }
    }
  }

  /** Line `i` (read as `p`) is well-formed and is the i-th key of `r`, with slot i + 1 and its values. */
  ghost predicate HoldsLine(r: Rules, p: Parsed, i: nat) {
    match RuleOf(p)
    case None => false
    case Some((code, v0, v1)) =>
      i < |r.order| && r.order[i] == code && code in r.states && r.states[code] == Entry(i + 1, v0, v1)
  }

  /** Appending a fresh key leaves what the earlier lines hold. */
  lemma HoldsLineAppend(rs: Rules, code: string, e: Entry, p: Parsed, i: nat)
    requires HoldsLine(rs, p, i) && code !in rs.states
    ensures HoldsLine(Rules(rs.order + [code], rs.states[code := e]), p, i)
  {
  }

  /** Accepting the last line keeps what every earlier line holds and adds what the last one holds. */
  lemma HoldsLinesAppend(rs: Rules, ps: seq<Parsed>)
    requires ps != [] && |rs.order| == |ps| - 1
    requires RuleOf(ps[|ps| - 1]).Some? && RuleOf(ps[|ps| - 1]).value.0 !in rs.states
    requires forall i :: 0 <= i < |ps| - 1 ==> HoldsLine(rs, ps[i], i)
    ensures var rule := RuleOf(ps[|ps| - 1]).value;
      var r := Rules(rs.order + [rule.0], rs.states[rule.0 := Entry(|ps|, rule.1, rule.2)]);
      forall i :: 0 <= i < |ps| ==> HoldsLine(r, ps[i], i)
  {
    var n := |ps| - 1;
    var rule := RuleOf(ps[n]).value;
    var r := Rules(rs.order + [rule.0], rs.states[rule.0 := Entry(n + 1, rule.1, rule.2)]);
    forall i | 0 <= i < |ps| ensures HoldsLine(r, ps[i], i) {
      if i < n {
        HoldsLineAppend(rs, rule.0, Entry(n + 1, rule.1, rule.2), ps[i], i);
      } else {
        assert r.order[n] == rule.0;
      }
    }
  }

  /**
   * A successful load: the i-th line is well-formed, its code is the i-th key, with slot i + 1
   * and that line's values, and the keys are distinct.
   */
  lemma {:induction false} LoadedRules(ps: seq<Parsed>)
    requires LoadParsed(ps).Ok?
    ensures var r := LoadParsed(ps).value;
      && Slotted(r)
      && |r.order| == |ps|
      && forall i :: 0 <= i < |ps| ==> HoldsLine(r, ps[i], i)
  {
    if ps != [] {
      var n := |ps| - 1;
      var prefix := ps[..n];
      LoadStep(ps);
      var rs := LoadParsed(prefix).value;
      var rule := RuleOf(ps[n]).value;
      assert Slotted(rs) && |rs.order| == n && forall i :: 0 <= i < n ==> HoldsLine(rs, ps[i], i) by {
        LoadedRules(prefix);
        assert forall i :: 0 <= i < n ==> prefix[i] == ps[i];
      }
      var r := Rules(rs.order + [rule.0], rs.states[rule.0 := Entry(n + 1, rule.1, rule.2)]);
      assert LoadParsed(ps).value == r;
      SlottedAppend(rs, rule.0, rule.1, rule.2);
      HoldsLinesAppend(rs, ps);
    }
  }

  /** A successful load had only well-formed lines with distinct codes. */
  lemma LoadedGood(ps: seq<Parsed>)
    requires LoadParsed(ps).Ok?
    ensures GoodPrefix(ps, |ps|)
  {
    LoadedRules(ps);
  }

  /** After a successful load, a key is the code of one of the lines read. */
  lemma KeyFromLine(ps: seq<Parsed>, c: string) returns (i: nat)
    requires LoadParsed(ps).Ok? && c in LoadParsed(ps).value.states
    ensures i < |ps| && RuleOf(ps[i]).Some? && CodeOf(ps[i]) == c
  {
    LoadedRules(ps);
    var r := LoadParsed(ps).value;
    i :| 0 <= i < |r.order| && r.order[i] == c;
    assert HoldsLine(r, ps[i], i);
  }

  /**
   * A line that splits into three fields has a nonempty code: `strip()` has already removed any
   * tab in front of the first field.
   */
  lemma ThreeFieldsCode(line: string)
    ensures Parse(line).fieldCount == 3 ==> Parse(line).code != ""
  {
    var t := Strip(line);
    var f := Split(t, '\t');
    StripSpec(line);
    SplitJoin(t, '\t');
    if |f| == 3 {
      assert t == f[0] + ['\t'] + Join(f[1..], '\t');
      assert t[|f[0]|] == '\t';
      assert !IsSpace(t[0]);
    }
  }

  /** The loader never yields a rule for the empty code. */
  lemma NoEmptyCode(lines: seq<string>)
    requires LoadLines(lines).Ok?
    ensures "" !in LoadLines(lines).value.states
  {
    var ps := ParseAll(lines);
    forall c | c in LoadParsed(ps).value.states
      ensures c != ""
    {
      var i := KeyFromLine(ps, c);
      ThreeFieldsCode(lines[i]);
    }
  }

  /** Loading succeeds on every input whose lines are well-formed and whose codes are distinct. */
  lemma {:induction false} GoodLinesLoad(ps: seq<Parsed>)
    requires GoodPrefix(ps, |ps|)
    ensures LoadParsed(ps).Ok?
  {
    if ps != [] {
      var n := |ps| - 1;
      var prefix := ps[..n];
      assert forall i :: 0 <= i < n ==> prefix[i] == ps[i];
      assert GoodPrefix(prefix, n);
      GoodLinesLoad(prefix);
      forall c | c in LoadParsed(prefix).value.states ensures c != CodeOf(ps[n]) {
        var i := KeyFromLine(prefix, c);
        assert prefix[i] == ps[i];
      }
    }
  }

  /** A failed load names the first line at which the input stops being well-formed and distinct. */
  lemma {:induction false} LoadFailsAtFirstBadLine(ps: seq<Parsed>)
    requires LoadParsed(ps).Err?
    ensures var n := LoadParsed(ps).error.Line();
      n < |ps| && GoodPrefix(ps, n) && !GoodPrefix(ps, n + 1)
  {
    var n := |ps| - 1;
    var prefix := ps[..n];
    assert forall i :: 0 <= i < n ==> prefix[i] == ps[i];
    if LoadParsed(prefix).Err? {
      LoadFailsAtFirstBadLine(prefix);
    } else {
      LoadedGood(prefix);
      var rs := LoadParsed(prefix).value;
      if RuleOf(ps[n]).Some? {
        assert CodeOf(ps[n]) in rs.states;
        var i := KeyFromLine(prefix, CodeOf(ps[n]));
        assert CodeOf(ps[i]) == CodeOf(ps[n]);
      }
    }
  }

  /** Slots are distinct and cover exactly 1..N. */
  lemma SlotsOneToN(r: Rules)
    requires Slotted(r)
    ensures forall c :: c in r.states ==> 1 <= r.states[c].slot <= |r.order|
    ensures forall c, d :: c in r.states && d in r.states && r.states[c].slot == r.states[d].slot ==> c == d
    ensures forall i :: 0 <= i < |r.order| ==> r.order[i] in r.states && r.states[r.order[i]].slot == i + 1
  {
    forall c | c in r.states ensures exists i :: 0 <= i < |r.order| && r.order[i] == c {
    }
  }

  /** A sequence without repeats has as many distinct elements as positions. */
  lemma {:induction false} DistinctCount(s: seq<string>)
    requires forall i, j :: 0 <= i < j < |s| ==> s[i] != s[j]
    ensures |set c | c in s| == |s|
  {
    if s != [] {
      var n := |s| - 1;
      DistinctCount(s[..n]);
      assert (set c | c in s) == (set c | c in s[..n]) + {s[n]};
      assert s[n] !in (set c | c in s[..n]);
    }
  }

  /** The dictionary holds one entry per line of `order`: `len(states)` is N. */
  lemma SlottedSize(r: Rules)
    requires Slotted(r)
    ensures |r.states| == |r.order|
  {
    DistinctCount(r.order);
    assert r.states.Keys == set c | c in r.order;
  }

  /** Once a prefix of the input fails, the whole input fails with the same error. */
  lemma {:induction false} LoadAborts(ps: seq<Parsed>, k: nat)
    requires k <= |ps| && LoadParsed(ps[..k]).Err?
    ensures LoadParsed(ps) == LoadParsed(ps[..k])
    decreases |ps| - k
  {
    if k < |ps| {
      var n := |ps| - 1;
      assert ps[..n][..k] == ps[..k];
      LoadAborts(ps[..n], k);
    } else {
      assert ps[..k] == ps;
    }
  }

  /** One accepted line extends the loaded rules by its code, at the next slot. */
  lemma LoadStepOk(ps: seq<Parsed>, i: nat, order: seq<string>, states: map<string, Entry>, code: string, v0: int, v1: int)
    requires i < |ps| && LoadParsed(ps[..i]) == Ok(Rules(order, states)) && |states| == |order|
    requires ParseRule(states.Keys, i, ps[i]) == Ok((code, v0, v1))
    ensures LoadParsed(ps[..i + 1]) == Ok(Rules(order + [code], states[code := Entry(|states| + 1, v0, v1)]))
  {
    assert ps[..i + 1][..i] == ps[..i];
  }

  /** A rejected line ends the whole load with its error. */
  lemma LoadStepErr(ps: seq<Parsed>, i: nat, rs: Rules, e: LoadError)
    requires i < |ps| && LoadParsed(ps[..i]) == Ok(rs)
    requires ParseRule(rs.states.Keys, i, ps[i]) == Err(e)
    ensures LoadParsed(ps) == Err(e)
  {
    assert ps[..i + 1][..i] == ps[..i];
    LoadAborts(ps, i + 1);
  }

  /** The loader loop itself: fills `states` line by line and aborts at the first bad line. */
  method Load(lines: seq<string>) returns (r: Result<Rules, LoadError>)
    ensures r == LoadLines(lines)
  {
    ghost var ps := ParseAll(lines);
    var order: seq<string> := [];
    var states: map<string, Entry> := map[];
    var i := 0;
    while i < |lines|
      invariant 0 <= i <= |lines|
      invariant LoadParsed(ps[..i]) == Ok(Rules(order, states))
      invariant |states| == |order|
    {
      assert ps[i] == Parse(lines[i]);
      var fields := Split(Strip(lines[i]), '\t');
      if |fields| != 3 {
        LoadStepErr(ps, i, Rules(order, states), FieldCount(i, |fields|));
        return Err(FieldCount(i, |fields|));
      }
      var code := fields[0];
      if code in states {
        LoadStepErr(ps, i, Rules(order, states), DuplicateCode(i, code));
        return Err(DuplicateCode(i, code));
      }
      var v0 := ParseInt(fields[1]);
      if v0.None? {
        LoadStepErr(ps, i, Rules(order, states), NotAnInteger(i, fields[1]));
        return Err(NotAnInteger(i, fields[1]));
      }
      var v1 := ParseInt(fields[2]);
      if v1.None? {
        LoadStepErr(ps, i, Rules(order, states), NotAnInteger(i, fields[2]));
        return Err(NotAnInteger(i, fields[2]));
      }
      var stored := v1.value;
      if v0.value == 254 && stored >= 64 {
        if stored % 64 != 0 {
          LoadStepErr(ps, i, Rules(order, states), ScaleNotMultiple(i, v1.value));
          return Err(ScaleNotMultiple(i, v1.value));
        }
        stored := stored / 64;
      }
      LoadStepOk(ps, i, order, states, code, v0.value, stored);
      var index := |states| + 1;
      states := states[code := Entry(index, v0.value, stored)];
      order := order + [code];
      i := i + 1;
    }
    assert ps[..i] == ps;
    r := Ok(Rules(order, states));
  }
}
