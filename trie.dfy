/**
 * The trie builder of the FSM table compiler (firmware/fsm/make_fsm.py, lines 5-13).
 * `build(tree, states, code)` returns the slot of `code` when it is a rule; otherwise it
 * reserves a node at the end of the shared list `tree`, expands `code + '0'` and `code + '1'`,
 * and stores the two results at the reserved index.
 */
module FsmTrie {
  import opened FsmLoader

  /** An element of the list `tree`: `None` (pre-sized), `''` (reserved), or a pair of ints. */
  datatype Cell = Unset | Reserved | Pair(first: int, second: int)

  predicate IsBinary(s: string) {
    forall i :: 0 <= i < |s| ==> s[i] == '0' || s[i] == '1'
  }

  /**
   * `build` from `code` stops within `fuel` levels of recursion: `code` is a rule, or both of its
   * one-bit extensions stop within one level less.
   */
  ghost predicate Covered(states: map<string, Entry>, code: string, fuel: nat)
    decreases fuel
  {
    code in states || (fuel > 0 && Covered(states, code + "0", fuel - 1) && Covered(states, code + "1", fuel - 1))
  }

  /** Every 0/1 path of length `depth` below `code` meets a rule: the code is complete there. */
  ghost predicate PathsCovered(states: map<string, Entry>, code: string, depth: nat) {
    forall w :: IsBinary(w) && |w| == depth ==> exists k :: 0 <= k <= depth && code + w[..k] in states
  }

  /** The recursion bound is exactly completeness of the code set: every long enough path hits a rule. */
  lemma {:induction false} CoveredIffPaths(states: map<string, Entry>, code: string, depth: nat)
    ensures Covered(states, code, depth) <==> PathsCovered(states, code, depth)
    decreases depth
  {
    if code !in states && depth > 0 {
      CoveredIffPaths(states, code + "0", depth - 1);
      CoveredIffPaths(states, code + "1", depth - 1);
      if Covered(states, code, depth) {
        forall w | IsBinary(w) && |w| == depth
          ensures exists k :: 0 <= k <= depth && code + w[..k] in states
        {
          var b := [w[0]];
          var rest := w[1..];
          assert IsBinary(rest);
          var k :| 0 <= k <= depth - 1 && (code + b) + rest[..k] in states;
          assert (code + b) + rest[..k] == code + w[..k + 1];
        }
      }
      if PathsCovered(states, code, depth) {
        forall bit | bit == '0' || bit == '1' ensures PathsCovered(states, code + [bit], depth - 1) {
          forall rest | IsBinary(rest) && |rest| == depth - 1
            ensures exists k :: 0 <= k <= depth - 1 && (code + [bit]) + rest[..k] in states
          {
            var w := [bit] + rest;
            assert IsBinary(w);
            assert code + w[..0] == code;
            var k :| 0 <= k <= depth && code + w[..k] in states;
            assert code + w[..k] == (code + [bit]) + rest[..k - 1];
          }
        }
        assert code + "0" == code + ['0'] && code + "1" == code + ['1'];
      }
    } else if code !in states {
      assert IsBinary("") && code + ""[..0] == code;
    } else {
      forall w | IsBinary(w) && |w| == depth
        ensures exists k :: 0 <= k <= depth && code + w[..k] in states
      {
        assert code + w[..0] == code;
      }
    }
  }

  /** What `build` does from `code` when the list has `next` elements: the index it returns and the cells it appends. */
  datatype Expansion = Expansion(root: nat, nodes: seq<Cell>)

  /** The specification of `build`, as a function of the list's length on entry. */
  ghost function Trie(states: map<string, Entry>, code: string, next: nat, fuel: nat): Expansion
    requires Covered(states, code, fuel)
    decreases fuel
  {
    if code in states then Expansion(states[code].slot, [])
    else
      var e0 := Trie(states, code + "0", next + 1, fuel - 1);
      var e1 := Trie(states, code + "1", next + 1 + |e0.nodes|, fuel - 1);
      Expansion(next, [Pair(e0.root, e1.root)] + e0.nodes + e1.nodes)
  }

  /** One step of `Trie` below a code that is not a rule. */
  lemma TrieUnfold(states: map<string, Entry>, code: string, next: nat, fuel: nat)
    requires Covered(states, code, fuel) && code !in states
    ensures var e0 := Trie(states, code + "0", next + 1, fuel - 1);
      var e1 := Trie(states, code + "1", next + 1 + |e0.nodes|, fuel - 1);
      Trie(states, code, next, fuel) == Expansion(next, [Pair(e0.root, e1.root)] + e0.nodes + e1.nodes)
  {
  }

  /** The codes `build` expands from `code`: each prefix that is not a rule, reached before a rule. */
  ghost function Expanded(states: map<string, Entry>, code: string, fuel: nat): set<string>
    requires Covered(states, code, fuel)
    decreases fuel
  {
    if code in states then {}
    else {code} + Expanded(states, code + "0", fuel - 1) + Expanded(states, code + "1", fuel - 1)
  }

  /** `p` is reached from `code` by 0/1 steps without passing a rule first (`p` itself may be one). */
  ghost predicate Reached(states: map<string, Entry>, code: string, p: string) {
    && |code| <= |p| && p[..|code|] == code
    && IsBinary(p[|code|..])
    && forall k :: |code| <= k < |p| ==> p[..k] !in states
  }

  /** The expanded codes are exactly the non-rule codes reached from `code`. */
  lemma {:induction false} ExpandedIsReached(states: map<string, Entry>, code: string, fuel: nat, p: string)
    requires Covered(states, code, fuel)
    ensures p in Expanded(states, code, fuel) <==> Reached(states, code, p) && p !in states
    decreases fuel
  {
    if code !in states {
      var c0, c1 := code + "0", code + "1";
      ExpandedIsReached(states, c0, fuel - 1, p);
      ExpandedIsReached(states, c1, fuel - 1, p);
      if p != code && Reached(states, code, p) && p !in states {
        var c := p[..|code| + 1];
        assert p[..|code|] == code;
        assert p[|code|..][0] == p[|code|];
        assert c == code + [p[|code|]];
        assert c == c0 || c == c1;
        assert p[|c|..] == p[|code|..][1..];
        assert Reached(states, c, p);
      }
      if p in Expanded(states, c0, fuel - 1) || p in Expanded(states, c1, fuel - 1) {
        var c := if p in Expanded(states, c0, fuel - 1) then c0 else c1;
        assert Reached(states, c, p);
        assert p[..|c|] == c && p[..|code|] == c[..|code|] == code;
        assert p[|code|..] == [c[|code|]] + p[|c|..];
        assert forall k :: |code| <= k < |p| ==> p[..k] !in states by {
          forall k | |code| <= k < |p| ensures p[..k] !in states {
            if k == |code| {
              assert p[..k] == code;
            }
          }
        }
      }
      if p == code {
        assert p[..|code|] == code && p[|code|..] == [];
      }
    } else {
      assert Reached(states, code, p) ==> p == code;
    }
  }

  /** Every expanded code extends the code it was expanded from. */
  lemma {:induction false} ExpandedExtends(states: map<string, Entry>, code: string, fuel: nat, p: string)
    requires Covered(states, code, fuel) && p in Expanded(states, code, fuel)
    ensures |code| <= |p| && p[..|code|] == code
    decreases fuel
  {
    if p != code {
      var c := if p in Expanded(states, code + "0", fuel - 1) then code + "0" else code + "1";
      ExpandedExtends(states, c, fuel - 1, p);
      assert p[..|code|] == p[..|c|][..|code|];
    }
  }

  /** The two subtries below a non-rule code expand disjoint sets, neither holding the code itself. */
  lemma ExpandedSplit(states: map<string, Entry>, code: string, fuel: nat)
    requires Covered(states, code, fuel) && code !in states
    ensures var x0, x1 := Expanded(states, code + "0", fuel - 1), Expanded(states, code + "1", fuel - 1);
      x0 !! x1 && code !in x0 && code !in x1
  {
    var c0, c1 := code + "0", code + "1";
    var x0, x1 := Expanded(states, c0, fuel - 1), Expanded(states, c1, fuel - 1);
    forall p | p in x0 ensures |c0| <= |p| && p[|code|] == '0' {
      ExpandedExtends(states, c0, fuel - 1, p);
      assert p[|code|] == p[..|c0|][|code|];
    }
    forall p | p in x1 ensures |c1| <= |p| && p[|code|] == '1' {
      ExpandedExtends(states, c1, fuel - 1, p);
      assert p[|code|] == p[..|c1|][|code|];
    }
  }

  lemma DisjointCount(c: string, x0: set<string>, x1: set<string>)
    requires x0 !! x1 && c !in x0 && c !in x1
    ensures |{c} + x0 + x1| == 1 + |x0| + |x1|
  {
    assert {c} !! x0;
    assert ({c} + x0) !! x1;
  }

  lemma ExpandedCount(states: map<string, Entry>, code: string, fuel: nat)
    requires Covered(states, code, fuel) && code !in states
    ensures |Expanded(states, code, fuel)| == 1 + |Expanded(states, code + "0", fuel - 1)| + |Expanded(states, code + "1", fuel - 1)|
  {
    ExpandedSplit(states, code, fuel);
    DisjointCount(code, Expanded(states, code + "0", fuel - 1), Expanded(states, code + "1", fuel - 1));
  }

  /** `build` appends one node per expanded code: B = |Expanded|. */
  lemma {:induction false} TrieSize(states: map<string, Entry>, code: string, next: nat, fuel: nat)
    requires Covered(states, code, fuel)
    ensures |Trie(states, code, next, fuel).nodes| == |Expanded(states, code, fuel)|
    decreases fuel
  {
    if code !in states {
      var e0 := Trie(states, code + "0", next + 1, fuel - 1);
      TrieSize(states, code + "0", next + 1, fuel - 1);
      TrieSize(states, code + "1", next + 1 + |e0.nodes|, fuel - 1);
      TrieSizeStep(states, code, next, fuel);
    }
  }

  /** The inductive step of `TrieSize`: both subtries have as many nodes as expanded codes. */
  lemma TrieSizeStep(states: map<string, Entry>, code: string, next: nat, fuel: nat)
    requires Covered(states, code, fuel) && code !in states
    requires var e0 := Trie(states, code + "0", next + 1, fuel - 1);
      && |e0.nodes| == |Expanded(states, code + "0", fuel - 1)|
      && |Trie(states, code + "1", next + 1 + |e0.nodes|, fuel - 1).nodes| == |Expanded(states, code + "1", fuel - 1)|
    ensures |Trie(states, code, next, fuel).nodes| == |Expanded(states, code, fuel)|
  {
    ExpandedCount(states, code, fuel);
    TrieUnfold(states, code, next, fuel);
  }

  /** Every slot lies in 1..n. */
  ghost predicate SlotsWithin(states: map<string, Entry>, n: nat) {
    forall c :: c in states ==> 1 <= states[c].slot <= n
  }

  /** A child index is a leaf slot, or a node appended after `next` (never `next` itself). */
  ghost predicate ChildIndex(x: int, n: nat, next: nat, size: nat) {
    1 <= x <= n || next < x < next + size
  }

  /** Every cell appended from index `next` is a pair of child indices. */
  ghost predicate PairsWithin(e: Expansion, n: nat, next: nat) {
    forall j :: 0 <= j < |e.nodes| ==>
      e.nodes[j].Pair? && ChildIndex(e.nodes[j].first, n, next, |e.nodes|) && ChildIndex(e.nodes[j].second, n, next, |e.nodes|)
  }

  /** An expansion is a leaf slot with no cells, or a fresh node at `next` followed by pairs within range. */
  ghost predicate WellIndexed(e: Expansion, leaf: bool, n: nat, next: nat) {
    && (leaf ==> 1 <= e.root <= n && e.nodes == [])
    && (!leaf ==> e.root == next && |e.nodes| >= 1)
    && PairsWithin(e, n, next)
  }

  /** Joining two well-indexed subtries under a fresh node at `next` keeps every index in range. */
  lemma JoinWellIndexed(e0: Expansion, leaf0: bool, e1: Expansion, leaf1: bool, n: nat, next: nat)
    requires WellIndexed(e0, leaf0, n, next + 1) && WellIndexed(e1, leaf1, n, next + 1 + |e0.nodes|)
    ensures WellIndexed(Expansion(next, [Pair(e0.root, e1.root)] + e0.nodes + e1.nodes), false, n, next)
  {
    var e := Expansion(next, [Pair(e0.root, e1.root)] + e0.nodes + e1.nodes);
    forall j | 0 <= j < |e.nodes|
      ensures e.nodes[j].Pair? && ChildIndex(e.nodes[j].first, n, next, |e.nodes|) && ChildIndex(e.nodes[j].second, n, next, |e.nodes|)
    {
      if j == 0 {
      } else if j <= |e0.nodes| {
        assert e.nodes[j] == e0.nodes[j - 1];
      } else {
        assert e.nodes[j] == e1.nodes[j - 1 - |e0.nodes|];
      }
    }
  }

  /**
   * With all slots in 1..n and the list longer than n, every appended cell is a pair whose two
   * indices are leaf slots or later nodes: no placeholder is left, and the node at `next`
   * (in particular the root) is nobody's child.
   */
  lemma {:induction false} TrieIndices(states: map<string, Entry>, code: string, next: nat, fuel: nat, n: nat)
    requires Covered(states, code, fuel) && SlotsWithin(states, n) && n <= next
    ensures WellIndexed(Trie(states, code, next, fuel), code in states, n, next)
    decreases fuel
  {
    if code !in states {
      var e0 := Trie(states, code + "0", next + 1, fuel - 1);
      var e1 := Trie(states, code + "1", next + 1 + |e0.nodes|, fuel - 1);
      TrieIndices(states, code + "0", next + 1, fuel - 1, n);
      TrieIndices(states, code + "1", next + 1 + |e0.nodes|, fuel - 1, n);
      JoinWellIndexed(e0, code + "0" in states, e1, code + "1" in states, n, next);
      TrieUnfold(states, code, next, fuel);
    }
  }

  /** Patching the reserved cell at the old end of the list yields the node followed by both subtries. */
  lemma PatchReserved(start: seq<Cell>, left: seq<Cell>, right: seq<Cell>, node: Cell)
    ensures (start + [Reserved] + left + right)[|start| := node] == start + ([node] + left + right)
  {
  }

  /** The list `tree` that `build` appends to and patches. */
  class NodeList {
    var cells: seq<Cell>

    /** `[None] * n`. */
    constructor (n: nat)
      ensures cells == seq(n, _ => Unset)
    {
      cells := seq(n, _ => Unset);
    }

    /**
     * `build(tree, states, code)`. On a rule it returns the slot and leaves the list alone;
     * otherwise it returns the old length, leaves every earlier cell alone, and the cells it
     * appends are those of the specification `Trie`.
     */
    method Build(states: map<string, Entry>, code: string, ghost fuel: nat) returns (index: nat)
      requires Covered(states, code, fuel)
      modifies this
      ensures var e := Trie(states, code, old(|cells|), fuel);
        index == e.root && cells == old(cells) + e.nodes
      ensures code in states ==> index == states[code].slot && cells == old(cells)
      ensures code !in states ==> index == old(|cells|) && |cells| > index && cells[..index] == old(cells)
      decreases fuel
    {
      if code in states {
        return states[code].slot;
      }
      ghost var start := cells;
      ghost var e0 := Trie(states, code + "0", |start| + 1, fuel - 1);
      ghost var e1 := Trie(states, code + "1", |start| + 1 + |e0.nodes|, fuel - 1);
      index := |cells|;
      cells := cells + [Reserved];
      var n0 := Build(states, code + "0", fuel - 1);
      var n1 := Build(states, code + "1", fuel - 1);
      PatchReserved(start, e0.nodes, e1.nodes, Pair(n0, n1));
      cells := cells[index := Pair(n0, n1)];
    }
  }
}
