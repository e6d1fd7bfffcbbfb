/**
 * The table stage of the FSM compiler (firmware/fsm/make_fsm.py, lines 27-31): `tree` is pre-sized
 * with one placeholder per rule, `build` expands the trie from the empty code, the root node
 * (allocated at index N) is copied to index 0, and the rules' value pairs are written to their
 * slots 1..N, overwriting the root's construction cell with leaf N.
 */
module FsmTable {
  import opened Wrappers
  import opened FsmLoader
  import opened FsmTrie

  /** The value pair `(v0, v1)` that line 31 stores for a rule. */
  function LeafCell(e: Entry): Cell {
    Pair(e.v0, e.v1)
  }

  /** What the table stage needs to finish: the loader's invariant, a complete code set, and no rule for `''`. */
  ghost predicate Compilable(rules: Rules, fuel: nat) {
    Slotted(rules) && Covered(rules.states, "", fuel) && "" !in rules.states
  }

  /** `tree` after the leaf loop has written the first `i` rules (lines 30-31). */
  ghost function Filled(cells: seq<Cell>, rules: Rules, i: nat): seq<Cell>
    requires Slotted(rules) && i <= |rules.order|
  {
    seq(|cells|, k requires 0 <= k < |cells| => if 1 <= k <= i then LeafCell(rules.states[rules.order[k - 1]]) else cells[k])
  }

  /** The final table for a trie expansion `e` appended after N placeholders. */
  ghost function Layout(rules: Rules, e: Expansion): seq<Cell>
    requires Slotted(rules) && e.nodes != []
  {
    var n := |rules.order|;
    var built := seq(n, _ => Unset) + e.nodes;
    Filled(built[0 := built[n]], rules, n)
  }

  /** The final table of the compiler. */
  ghost function FinalTable(rules: Rules, fuel: nat): seq<Cell>
    requires Compilable(rules, fuel)
  {
    var e := Trie(rules.states, "", |rules.order|, fuel);
    TrieUnfold(rules.states, "", |rules.order|, fuel);
    Layout(rules, e)
  }

  /**
   * Lines 27-31, on any dictionary the loader invariant holds of. With a key `''` the source fails
   * with an IndexError at line 29; the loader never yields that key (`NoEmptyCode`), so only a
   * dictionary built by other means reaches that failure.
   */
  method Compile(rules: Rules, ghost fuel: nat) returns (r: Option<seq<Cell>>)
    requires Slotted(rules) && Covered(rules.states, "", fuel)
    ensures "" in rules.states <==> r.None?
    ensures r.Some? ==> Compilable(rules, fuel) && r.value == FinalTable(rules, fuel)
  {
    SlottedSize(rules);
    var n := |rules.states|;
    var tree := new NodeList(n);
    var _ := tree.Build(rules.states, "", fuel);
    if n >= |tree.cells| {
      return None;
    }
    tree.cells := tree.cells[0 := tree.cells[n]];
    ghost var relocated := tree.cells;
    WriteLeaves(tree, rules);
    FinalTableIs(rules, fuel, relocated);
    return Some(tree.cells);
  }

  /** Lines 30-31: each rule's value pair is written at its slot, in dictionary order. */
  method WriteLeaves(tree: NodeList, rules: Rules)
    requires Slotted(rules) && |rules.order| < |tree.cells|
    modifies tree
    ensures tree.cells == Filled(old(tree.cells), rules, |rules.order|)
  {
    ghost var start := tree.cells;
    var i := 0;
    while i < |rules.order|
      invariant 0 <= i <= |rules.order|
      invariant tree.cells == Filled(start, rules, i)
    {
      var entry := rules.states[rules.order[i]];
      FilledStep(start, rules, i);
      tree.cells := tree.cells[entry.slot := LeafCell(entry)];
      i := i + 1;
    }
  }

  /** Writing the leaf of the next rule in `order` extends the filled prefix by one slot. */
  lemma FilledStep(cells: seq<Cell>, rules: Rules, i: nat)
    requires Slotted(rules) && i < |rules.order| < |cells|
    ensures rules.states[rules.order[i]].slot == i + 1
    ensures Filled(cells, rules, i + 1) == Filled(cells, rules, i)[i + 1 := LeafCell(rules.states[rules.order[i]])]
  {
  }

  /** Filling all N leaves of the relocated list gives the final table. */
  lemma FinalTableIs(rules: Rules, fuel: nat, relocated: seq<Cell>)
    requires Compilable(rules, fuel)
    requires var n, e := |rules.order|, Trie(rules.states, "", |rules.order|, fuel);
      |e.nodes| > 0 && relocated == (seq(n, _ => Unset) + e.nodes)[0 := (seq(n, _ => Unset) + e.nodes)[n]]
    ensures Filled(relocated, rules, |rules.order|) == FinalTable(rules, fuel)
  {
  }

  /** The root is not a rule, so `build('')` expands both one-bit codes. */
  lemma CoveredRoot(states: map<string, Entry>, fuel: nat)
    requires Covered(states, "", fuel) && "" !in states
    ensures fuel > 0 && Covered(states, "0", fuel - 1) && Covered(states, "1", fuel - 1)
  {
    assert "" + "0" == "0" && "" + "1" == "1";
  }

  /** The layout of the final table, on a well-indexed expansion whose root was allocated at N. */
  lemma LayoutShape(rules: Rules, e: Expansion)
    requires Slotted(rules) && WellIndexed(e, false, |rules.order|, |rules.order|)
    ensures var n, t := |rules.order|, Layout(rules, e);
      && |t| == n + |e.nodes|
      && t[0] == e.nodes[0]
      && (forall c :: c in rules.states ==> t[rules.states[c].slot] == LeafCell(rules.states[c]))
      && (forall k :: n < k < |t| ==> t[k] == e.nodes[k - n])
      && (forall k :: 0 <= k < |t| ==> t[k].Pair?)
      && (forall k :: (k == 0 || n < k < |t|) ==> 1 <= t[k].first < |t| && 1 <= t[k].second < |t|)
  {
    var n, t := |rules.order|, Layout(rules, e);
    SlotsOneToN(rules);
    forall k | k == 0 || n < k < |t| ensures 1 <= t[k].first < |t| && 1 <= t[k].second < |t| {
      var j := if k == 0 then 0 else k - n;
      assert t[k] == e.nodes[j];
    }
  }

  /**
   * In the final table each rule's slot holds its value pair; every entry is a pair, and
   * every branch entry (0 and above N) points into 1..len-1, never at 0.
   */
  lemma FinalTableLayout(rules: Rules, fuel: nat)
    requires Compilable(rules, fuel)
    ensures |rules.order| < |FinalTable(rules, fuel)|
    ensures forall c :: c in rules.states ==> FinalTable(rules, fuel)[rules.states[c].slot] == LeafCell(rules.states[c])
    ensures forall k :: 0 <= k < |FinalTable(rules, fuel)| ==> FinalTable(rules, fuel)[k].Pair?
    ensures forall k :: (k == 0 || |rules.order| < k < |FinalTable(rules, fuel)|) ==>
      1 <= FinalTable(rules, fuel)[k].first < |FinalTable(rules, fuel)| &&
      1 <= FinalTable(rules, fuel)[k].second < |FinalTable(rules, fuel)|
  {
    var n, e := |rules.order|, Trie(rules.states, "", |rules.order|, fuel);
    SlotsOneToN(rules);
    TrieIndices(rules.states, "", n, fuel, n);
    LayoutShape(rules, e);
    assert FinalTable(rules, fuel) == Layout(rules, e);
  }

  /** The final table has N + B entries, B the number of expanded non-rule codes. */
  lemma FinalTableSize(rules: Rules, fuel: nat)
    requires Compilable(rules, fuel)
    ensures |FinalTable(rules, fuel)| == |rules.order| + |Expanded(rules.states, "", fuel)|
  {
    var n, e := |rules.order|, Trie(rules.states, "", |rules.order|, fuel);
    TrieSize(rules.states, "", n, fuel);
    assert |FinalTable(rules, fuel)| == n + |e.nodes|;
  }

  /**
   * The decoder's walk: from state `s`, each bit selects the first or second index of the current
   * pair. It is stuck (`None`) on a bit other than 0/1, on an index out of range, and on a leaf
   * entry 1..n before the bits run out.
   */
  function Follow(table: seq<Cell>, n: nat, s: int, bits: string): Option<int>
    decreases |bits|
  {
    if bits == [] then Some(s)
    else if !(0 <= s < |table|) || 1 <= s <= n || !table[s].Pair? then None
    else if bits[0] == '0' then Follow(table, n, table[s].first, bits[1..])
    else if bits[0] == '1' then Follow(table, n, table[s].second, bits[1..])
    else None
  }

  /** One step of the walk from a branch entry. */
  lemma FollowNode(table: seq<Cell>, n: nat, s: int, bits: string)
    requires bits != [] && (bits[0] == '0' || bits[0] == '1')
    requires 0 <= s < |table| && !(1 <= s <= n) && table[s].Pair?
    ensures Follow(table, n, s, bits) == Follow(table, n, if bits[0] == '0' then table[s].first else table[s].second, bits[1..])
  {
  }

  /** Walking `a + b` is walking `a`, then `b` from where `a` stopped. */
  lemma {:induction false} FollowAppend(table: seq<Cell>, n: nat, s: int, a: string, b: string)
    ensures Follow(table, n, s, a + b) == match Follow(table, n, s, a) {
      case Some(t) => Follow(table, n, t, b)
      case None => None
    }
    decreases |a|
  {
    if a != [] {
      assert (a + b)[0] == a[0] && (a + b)[1..] == a[1..] + b;
      if 0 <= s < |table| && table[s].Pair? {
        FollowAppend(table, n, table[s].first, a[1..], b);
        FollowAppend(table, n, table[s].second, a[1..], b);
      }
    } else {
      assert a + b == b;
    }
  }

  /** A code with a character other than 0/1 is never decoded. */
  lemma {:induction false} FollowNonBinary(table: seq<Cell>, n: nat, s: int, bits: string)
    requires !IsBinary(bits)
    ensures Follow(table, n, s, bits) == None
    decreases |bits|
  {
    if bits[0] == '0' || bits[0] == '1' {
      assert !IsBinary(bits[1..]) by {
        var i :| 0 <= i < |bits| && bits[i] != '0' && bits[i] != '1';
        assert bits[1..][i - 1] == bits[i];
      }
      if 0 <= s < |table| && table[s].Pair? {
        FollowNonBinary(table, n, table[s].first, bits[1..]);
        FollowNonBinary(table, n, table[s].second, bits[1..]);
      }
    }
  }

  /** The cells of the expansion `e` sit in `table` from index `next` on. */
  ghost predicate Placed(table: seq<Cell>, e: Expansion, next: nat) {
    next + |e.nodes| <= |table| && forall j :: 0 <= j < |e.nodes| ==> table[next + j] == e.nodes[j]
  }

  /** Two expansions placed back to back. */
  lemma PlacedSplit(table: seq<Cell>, e0: Expansion, e1: Expansion, root: nat, next: nat)
    requires Placed(table, Expansion(root, e0.nodes + e1.nodes), next)
    ensures Placed(table, e0, next) && Placed(table, e1, next + |e0.nodes|)
  {
    var both := e0.nodes + e1.nodes;
    forall j | 0 <= j < |e0.nodes| ensures table[next + j] == e0.nodes[j] {
      assert both[j] == e0.nodes[j];
    }
    forall j | 0 <= j < |e1.nodes| ensures table[next + |e0.nodes| + j] == e1.nodes[j] {
      assert both[|e0.nodes| + j] == e1.nodes[j];
    }
  }

  /** Where the two subtries of a placed node sit. */
  lemma PlacedChildren(table: seq<Cell>, e0: Expansion, e1: Expansion, next: nat, root: nat)
    requires Placed(table, Expansion(root, [Pair(e0.root, e1.root)] + e0.nodes + e1.nodes), next)
    ensures table[next] == Pair(e0.root, e1.root)
    ensures Placed(table, e0, next + 1) && Placed(table, e1, next + 1 + |e0.nodes|)
  {
    var nodes := [Pair(e0.root, e1.root)] + e0.nodes + e1.nodes;
    assert table[next + 0] == nodes[0];
    forall j | 0 <= j < |e0.nodes + e1.nodes| ensures table[next + 1 + j] == (e0.nodes + e1.nodes)[j] {
      assert table[next + (1 + j)] == nodes[1 + j];
    }
    PlacedSplit(table, e0, e1, root, next + 1);
  }

  /**
   * Inside a placed subtrie for `code`, walking the bits `w` of a rule `code + w` that no shorter
   * extension of `code` shadows reaches that rule's slot, through branch entries only.
   */
  lemma {:induction false} WalkSubtrie(rules: Rules, table: seq<Cell>, code: string, next: nat, fuel: nat, w: string)
    requires Covered(rules.states, code, fuel) && |rules.order| < next
    requires Placed(table, Trie(rules.states, code, next, fuel), next)
    requires IsBinary(w) && code + w in rules.states
    requires forall k :: 0 <= k < |w| ==> code + w[..k] !in rules.states
    ensures Follow(table, |rules.order|, Trie(rules.states, code, next, fuel).root, w) == Some(rules.states[code + w].slot)
    decreases |w|
  {
    var states, n := rules.states, |rules.order|;
    if w == [] {
      assert code + w == code;
    } else {
      var c := code + [w[0]];
      ShiftPrefixes(states, code, w);
      TrieUnfold(states, code, next, fuel);
      var e0 := Trie(states, code + "0", next + 1, fuel - 1);
      var e1 := Trie(states, code + "1", next + 1 + |e0.nodes|, fuel - 1);
      PlacedChildren(table, e0, e1, next, next);
      FollowNode(table, n, next, w);
      if w[0] == '0' {
        assert c == code + "0";
        WalkSubtrie(rules, table, c, next + 1, fuel - 1, w[1..]);
      } else {
        assert c == code + "1";
        WalkSubtrie(rules, table, c, next + 1 + |e0.nodes|, fuel - 1, w[1..]);
      }
    }
  }

  /** Moving the first bit of `w` onto `code` keeps the no-shorter-rule condition. */
  lemma ShiftPrefixes(states: map<string, Entry>, code: string, w: string)
    requires w != [] && IsBinary(w)
    requires forall k :: 0 <= k < |w| ==> code + w[..k] !in states
    ensures code !in states && IsBinary(w[1..]) && (code + [w[0]]) + w[1..] == code + w
    ensures forall k :: 0 <= k < |w[1..]| ==> (code + [w[0]]) + w[1..][..k] !in states
  {
    assert code + w[..0] == code;
    forall k | 0 <= k < |w[1..]| ensures (code + [w[0]]) + w[1..][..k] !in states {
      assert (code + [w[0]]) + w[1..][..k] == code + w[..k + 1];
    }
    assert IsBinary(w[1..]) by {
      forall i | 0 <= i < |w[1..]| ensures w[1..][i] == '0' || w[1..][i] == '1' {
        assert w[1..][i] == w[i + 1];
      }
    }
  }

  /**
   * Inside a placed subtrie for `code`, a walk that stops on a leaf index 1..N spelled a rule
   * `code + w`, and the leaf is that rule's slot.
   */
  lemma {:induction false} WalkSubtrieSound(rules: Rules, table: seq<Cell>, code: string, next: nat, fuel: nat, w: string)
    requires Slotted(rules) && Covered(rules.states, code, fuel) && |rules.order| < next
    requires Placed(table, Trie(rules.states, code, next, fuel), next)
    ensures (Follow(table, |rules.order|, Trie(rules.states, code, next, fuel).root, w).Some? &&
             1 <= Follow(table, |rules.order|, Trie(rules.states, code, next, fuel).root, w).value <= |rules.order|) ==>
        code + w in rules.states &&
        rules.states[code + w].slot == Follow(table, |rules.order|, Trie(rules.states, code, next, fuel).root, w).value
    decreases |w|, 2
  {
    var states := rules.states;
    if w == [] {
      if code !in states {
        TrieUnfold(states, code, next, fuel);
      }
      assert code + w == code;
    } else if code !in states && (w[0] == '0' || w[0] == '1') {
      SoundChild(rules, table, code, next, fuel, w);
    } else if code !in states {
      TrieUnfold(states, code, next, fuel);
      var e0 := Trie(states, code + "0", next + 1, fuel - 1);
      PlacedChildren(table, e0, Trie(states, code + "1", next + 1 + |e0.nodes|, fuel - 1), next, next);
    } else {
      SlotsOneToN(rules);
    }
  }

  /** `WalkSubtrieSound` below a branch node, by the first bit. */
  lemma {:induction false} SoundChild(rules: Rules, table: seq<Cell>, code: string, next: nat, fuel: nat, w: string)
    requires Slotted(rules) && Covered(rules.states, code, fuel) && |rules.order| < next
    requires Placed(table, Trie(rules.states, code, next, fuel), next)
    requires code !in rules.states && w != [] && (w[0] == '0' || w[0] == '1')
    ensures (Follow(table, |rules.order|, Trie(rules.states, code, next, fuel).root, w).Some? &&
             1 <= Follow(table, |rules.order|, Trie(rules.states, code, next, fuel).root, w).value <= |rules.order|) ==>
        code + w in rules.states &&
        rules.states[code + w].slot == Follow(table, |rules.order|, Trie(rules.states, code, next, fuel).root, w).value
    decreases |w|, 1
  {
    var states, n := rules.states, |rules.order|;
    TrieUnfold(states, code, next, fuel);
    var e0 := Trie(states, code + "0", next + 1, fuel - 1);
    var e1 := Trie(states, code + "1", next + 1 + |e0.nodes|, fuel - 1);
    PlacedChildren(table, e0, e1, next, next);
    FollowNode(table, n, next, w);
    if w[0] == '0' {
      SoundBranch(rules, table, code, code + "0", next + 1, fuel - 1, next, w);
    } else {
      SoundBranch(rules, table, code, code + "1", next + 1 + |e0.nodes|, fuel - 1, next, w);
    }
  }

  /**
   * A walk from `s` whose first bit leads to the placed subtrie of `c = code + w[0]` and ends on a
   * leaf 1..N spelled the rule `code + w`.
   */
  lemma {:induction false} SoundBranch(rules: Rules, table: seq<Cell>, code: string, c: string, next: nat, fuel: nat, s: int, w: string)
    requires Slotted(rules) && Covered(rules.states, c, fuel) && |rules.order| < next
    requires Placed(table, Trie(rules.states, c, next, fuel), next)
    requires w != [] && c == code + [w[0]]
    requires Follow(table, |rules.order|, s, w) == Follow(table, |rules.order|, Trie(rules.states, c, next, fuel).root, w[1..])
    ensures (Follow(table, |rules.order|, s, w).Some? && 1 <= Follow(table, |rules.order|, s, w).value <= |rules.order|) ==>
        code + w in rules.states && rules.states[code + w].slot == Follow(table, |rules.order|, s, w).value
    decreases |w|, 0
  {
    var root := Trie(rules.states, c, next, fuel).root;
    WalkSubtrieSound(rules, table, c, next, fuel, w[1..]);
    SoundStep(rules.states, table, |rules.order|, s, root, code, c, w);
  }

  /** The inductive step of `WalkSubtrieSound`: a leaf reached below child `c` spells `c` + the remaining bits. */
  lemma SoundStep(states: map<string, Entry>, table: seq<Cell>, n: nat, s: int, child: int, code: string, c: string, w: string)
    requires w != [] && c == code + [w[0]]
    requires Follow(table, n, s, w) == Follow(table, n, child, w[1..])
    requires Follow(table, n, child, w[1..]).Some? && 1 <= Follow(table, n, child, w[1..]).value <= n ==>
      c + w[1..] in states && states[c + w[1..]].slot == Follow(table, n, child, w[1..]).value
    ensures Follow(table, n, s, w).Some? && 1 <= Follow(table, n, s, w).value <= n ==>
      code + w in states && states[code + w].slot == Follow(table, n, s, w).value
  {
    assert c + w[1..] == code + w;
  }

  /** The final table holds the root's expansion from index N + 1 on, shifted by N. */
  lemma FinalTablePlaced(rules: Rules, fuel: nat)
    requires Compilable(rules, fuel)
    ensures var n, t, e := |rules.order|, FinalTable(rules, fuel), Trie(rules.states, "", |rules.order|, fuel);
      && e.nodes != [] && e.nodes[0] == t[0] && e.root == n
      && Placed(t, Expansion(n + 1, e.nodes[1..]), n + 1)
  {
    var n, t, e := |rules.order|, FinalTable(rules, fuel), Trie(rules.states, "", |rules.order|, fuel);
    SlotsOneToN(rules);
    TrieIndices(rules.states, "", n, fuel, n);
    LayoutShape(rules, e);
    forall j | 0 <= j < |e.nodes[1..]| ensures t[n + 1 + j] == e.nodes[1..][j] {
      assert t[n + 1 + j] == e.nodes[n + 1 + j - n];
    }
  }

  /** The children of the root node, placed in the final table. */
  lemma RootChildren(rules: Rules, fuel: nat)
    requires Compilable(rules, fuel)
    ensures RootLaid(rules, fuel, FinalTable(rules, fuel))
  {
    var n, t := |rules.order|, FinalTable(rules, fuel);
    CoveredRoot(rules.states, fuel);
    FinalTablePlaced(rules, fuel);
    RootUnfold(rules.states, n, fuel);
    RootLaidOf(rules, fuel, t, Trie(rules.states, "", n, fuel));
  }

  /**
   * Entry 0 of a table holds the root's child pair and the two subtries lie back to back from
   * index N + 1: `t[0]` is the pair, and each subtrie sits where `build` appended it.
   */
  ghost predicate RootLaid(rules: Rules, fuel: nat, t: seq<Cell>) {
    && fuel > 0 && Covered(rules.states, "0", fuel - 1) && Covered(rules.states, "1", fuel - 1)
    && var n := |rules.order|;
       var e0 := Trie(rules.states, "0", n + 1, fuel - 1);
       var e1 := Trie(rules.states, "1", n + 1 + |e0.nodes|, fuel - 1);
       && |t| > 0 && t[0] == Pair(e0.root, e1.root)
       && Placed(t, e0, n + 1) && Placed(t, e1, n + 1 + |e0.nodes|)
  }

  lemma RootLaidOf(rules: Rules, fuel: nat, t: seq<Cell>, e: Expansion)
    requires fuel > 0 && Covered(rules.states, "0", fuel - 1) && Covered(rules.states, "1", fuel - 1)
    requires var n := |rules.order|;
      var e0 := Trie(rules.states, "0", n + 1, fuel - 1);
      var e1 := Trie(rules.states, "1", n + 1 + |e0.nodes|, fuel - 1);
      && e.nodes == [Pair(e0.root, e1.root)] + e0.nodes + e1.nodes
      && |t| > 0 && e.nodes[0] == t[0]
      && Placed(t, Expansion(n + 1, e.nodes[1..]), n + 1)
    ensures RootLaid(rules, fuel, t)
  {
    var n := |rules.order|;
    var e0 := Trie(rules.states, "0", n + 1, fuel - 1);
    var e1 := Trie(rules.states, "1", n + 1 + |e0.nodes|, fuel - 1);
    PlacedTail(t, e, e0, e1, n + 1);
  }

  /** The cells after a node, placed from `next`, are its two subtries back to back. */
  lemma PlacedTail(table: seq<Cell>, e: Expansion, e0: Expansion, e1: Expansion, next: nat)
    requires e.nodes == [Pair(e0.root, e1.root)] + e0.nodes + e1.nodes
    requires Placed(table, Expansion(next, e.nodes[1..]), next)
    ensures Placed(table, e0, next) && Placed(table, e1, next + |e0.nodes|)
  {
    assert e.nodes[1..] == e0.nodes + e1.nodes;
    PlacedSplit(table, e0, e1, next, next);
  }

  /** `Trie` at the root, with the one-bit codes written out. */
  lemma RootUnfold(states: map<string, Entry>, n: nat, fuel: nat)
    requires Covered(states, "", fuel) && "" !in states
    ensures fuel > 0 && Covered(states, "0", fuel - 1) && Covered(states, "1", fuel - 1)
    ensures var e0 := Trie(states, "0", n + 1, fuel - 1);
      var e1 := Trie(states, "1", n + 1 + |e0.nodes|, fuel - 1);
      Trie(states, "", n, fuel) == Expansion(n, [Pair(e0.root, e1.root)] + e0.nodes + e1.nodes)
  {
    CoveredRoot(states, fuel);
    TrieUnfold(states, "", n, fuel);
    assert "" + "0" == "0" && "" + "1" == "1";
  }

  /** With no rules at all, `build` never stops: no recursion bound covers the empty set. */
  lemma {:induction false} EmptyNotCovered(states: map<string, Entry>, code: string, fuel: nat)
    requires states == map[]
    ensures !Covered(states, code, fuel)
    decreases fuel
  {
    if fuel > 0 {
      EmptyNotCovered(states, code + "0", fuel - 1);
    }
  }

  /** The walk from state 0 over the bits of a code. */
  function Decode(table: seq<Cell>, n: nat, code: string): Option<int> {
    Follow(table, n, 0, code)
  }

  /**
   * A binary rule that no shorter rule shadows decodes to its slot: the walk from state 0 over its
   * bits passes only through branch entries and stops at the rule's leaf.
   */
  lemma DecodeReachesSlot(rules: Rules, fuel: nat, code: string)
    requires Compilable(rules, fuel)
    requires code in rules.states && IsBinary(code)
    requires forall k :: 0 <= k < |code| ==> code[..k] !in rules.states
    ensures Decode(FinalTable(rules, fuel), |rules.order|, code) == Some(rules.states[code].slot)
  {
    RootChildren(rules, fuel);
    WalkFromRoot(rules, fuel, FinalTable(rules, fuel), code);
  }

  /** `DecodeReachesSlot` for any table laid out below its root as `RootLaid` says. */
  lemma WalkFromRoot(rules: Rules, fuel: nat, t: seq<Cell>, code: string)
    requires Slotted(rules) && RootLaid(rules, fuel, t) && "" !in rules.states
    requires code in rules.states && IsBinary(code)
    requires forall k :: 0 <= k < |code| ==> code[..k] !in rules.states
    ensures Decode(t, |rules.order|, code) == Some(rules.states[code].slot)
  {
    var states, n := rules.states, |rules.order|;
    var e0 := Trie(states, "0", n + 1, fuel - 1);
    var e1 := Trie(states, "1", n + 1 + |e0.nodes|, fuel - 1);
    assert code != "";
    var c, rest := [code[0]], code[1..];
    FollowNode(t, n, 0, code);
    forall k | 0 <= k < |rest| ensures c + rest[..k] !in states {
      assert c + rest[..k] == code[..k + 1];
    }
    assert IsBinary(rest) && c + rest == code;
    if code[0] == '0' {
      WalkSubtrie(rules, t, "0", n + 1, fuel - 1, rest);
    } else {
      WalkSubtrie(rules, t, "1", n + 1 + |e0.nodes|, fuel - 1, rest);
    }
  }

  /** The shortest prefix of `code` that is a rule, given one that is. */
  lemma ShortestRulePrefix(states: map<string, Entry>, code: string, bound: nat) returns (k: nat)
    requires bound <= |code| && code[..bound] in states
    ensures k <= bound && code[..k] in states
    ensures forall j :: 0 <= j < k ==> code[..j] !in states
    decreases bound
  {
    if j :| 0 <= j < bound && code[..j] in states {
      k := ShortestRulePrefix(states, code, j);
    } else {
      k := bound;
    }
  }

  /**
   * A code that extends a shorter rule is never decoded: the walk stops at the shorter rule's leaf
   * (or earlier, on a character other than 0/1) before its bits run out.
   */
  lemma ShadowedCodeUnreachable(rules: Rules, fuel: nat, code: string, k0: nat)
    requires Compilable(rules, fuel)
    requires k0 < |code| && code[..k0] in rules.states
    ensures Decode(FinalTable(rules, fuel), |rules.order|, code) == None
  {
    var states, n, t := rules.states, |rules.order|, FinalTable(rules, fuel);
    var k := ShortestRulePrefix(states, code, k0);
    var p, rest := code[..k], code[k..];
    assert code == p + rest;
    FollowAppend(t, n, 0, p, rest);
    if IsBinary(p) {
      forall j | 0 <= j < |p| ensures p[..j] !in states {
        assert p[..j] == code[..j];
      }
      DecodeReachesSlot(rules, fuel, p);
      SlotsOneToN(rules);
    } else {
      FollowNonBinary(t, n, 0, p);
    }
  }

  /** Every walk from state 0 that ends on a leaf 1..N spelled the rule of that slot. */
  lemma DecodeSound(rules: Rules, fuel: nat, w: string)
    requires Compilable(rules, fuel)
    ensures (Decode(FinalTable(rules, fuel), |rules.order|, w).Some? &&
             1 <= Decode(FinalTable(rules, fuel), |rules.order|, w).value <= |rules.order|) ==>
      w in rules.states && rules.states[w].slot == Decode(FinalTable(rules, fuel), |rules.order|, w).value
  {
    RootChildren(rules, fuel);
    SoundFromRoot(rules, fuel, FinalTable(rules, fuel), w);
  }

  /** `DecodeSound` for any table laid out below its root as `RootLaid` says. */
  lemma SoundFromRoot(rules: Rules, fuel: nat, t: seq<Cell>, w: string)
    requires Slotted(rules) && RootLaid(rules, fuel, t)
    ensures (Decode(t, |rules.order|, w).Some? && 1 <= Decode(t, |rules.order|, w).value <= |rules.order|) ==>
      w in rules.states && rules.states[w].slot == Decode(t, |rules.order|, w).value
  {
    var states, n := rules.states, |rules.order|;
    var e0 := Trie(states, "0", n + 1, fuel - 1);
    var e1 := Trie(states, "1", n + 1 + |e0.nodes|, fuel - 1);
    if w != [] && (w[0] == '0' || w[0] == '1') {
      FollowNode(t, n, 0, w);
      if w[0] == '0' {
        SoundBranch(rules, t, "", "0", n + 1, fuel - 1, 0, w);
      } else {
        SoundBranch(rules, t, "", "1", n + 1 + |e0.nodes|, fuel - 1, 0, w);
      }
      assert "" + w == w;
    }
  }

  /** A rule decodes to its slot exactly when it is binary and no shorter rule is a prefix of it. */
  lemma RuleDecodes(rules: Rules, fuel: nat, code: string)
    requires Compilable(rules, fuel) && code in rules.states
    ensures Decode(FinalTable(rules, fuel), |rules.order|, code) == Some(rules.states[code].slot)
      <==> IsBinary(code) && forall k :: 0 <= k < |code| ==> code[..k] !in rules.states
  {
    if !IsBinary(code) {
      FollowNonBinary(FinalTable(rules, fuel), |rules.order|, 0, code);
    } else if k :| 0 <= k < |code| && code[..k] in rules.states {
      ShadowedCodeUnreachable(rules, fuel, code, k);
    } else {
      DecodeReachesSlot(rules, fuel, code);
    }
  }
}
