/**
 * The whole script firmware/fsm/make_fsm.py: load the rules (lines 15-25), build and relocate
 * the table (lines 27-31), and print it (lines 33-38).
 */
module FsmCompiler {
  import opened Wrappers
  import opened FsmLoader
  import opened FsmTrie
  import opened FsmTable
  import opened FsmEmit

  /**
   * The script from input lines to the printed listing. A rejected line aborts with its error;
   * the IndexError that a rule for `''` would cause at line 29 cannot happen here, because the
   * loader never yields that rule (`NoEmptyCode`).
   */
  method MakeFsm(lines: seq<string>, ghost fuel: nat) returns (r: Result<seq<Token>, LoadError>)
    requires LoadLines(lines).Ok? ==> Covered(LoadLines(lines).value.states, "", fuel)
    ensures LoadLines(lines).Err? ==> r == Err(LoadLines(lines).error)
    ensures LoadLines(lines).Ok? ==>
      && "" !in LoadLines(lines).value.states
      && Compilable(LoadLines(lines).value, fuel)
      && (forall j :: 0 <= j < |FinalTable(LoadLines(lines).value, fuel)| ==> FinalTable(LoadLines(lines).value, fuel)[j].Pair?)
      && r == Ok(Listing(FinalTable(LoadLines(lines).value, fuel)))
  {
    var loaded := Load(lines);
    if loaded.Err? {
      return Err(loaded.error);
    }
    var rules := loaded.value;
    LoadedRules(ParseAll(lines));
    NoEmptyCode(lines);
    var table := Compile(rules, fuel);
    FinalTableLayout(rules, fuel);
    var out := Emit(table.value);
    return Ok(out);
  }

  /** Entry `i` of a table is printed as the word at `1 + Position(i)`, after the header. */
  lemma ListedEntry(table: seq<Cell>, i: nat)
    requires i < |table| && forall j :: 0 <= j < |table| ==> table[j].Pair?
    ensures 1 + Position(i) < |Listing(table)| && Listing(table)[1 + Position(i)] == Word(Pack(table[i]))
  {
    EntriesLayout(table, |table|);
    assert Position(i) <= Position(|table| - 1);
    assert Listing(table)[1 + Position(i)] == Entries(table, |table|)[Position(i)];
  }

  /** In the printed listing, the word at `1 + Position(slot)` is each rule's packed value pair. */
  lemma ListedLeaf(rules: Rules, fuel: nat, code: string)
    requires Compilable(rules, fuel) && code in rules.states
    ensures forall j :: 0 <= j < |FinalTable(rules, fuel)| ==> FinalTable(rules, fuel)[j].Pair?
    ensures 1 + Position(rules.states[code].slot) < |Listing(FinalTable(rules, fuel))|
    ensures Listing(FinalTable(rules, fuel))[1 + Position(rules.states[code].slot)]
        == Word(rules.states[code].v1 * 256 + rules.states[code].v0)
  {
    FinalTableLayout(rules, fuel);
    SlotsOneToN(rules);
    ListedEntry(FinalTable(rules, fuel), rules.states[code].slot);
  }
}
