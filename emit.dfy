/**
 * The emitter of the FSM compiler (firmware/fsm/make_fsm.py, lines 33-38): each pair of the table
 * is packed as `second * 256 + first` and printed as one word of a C `uint16_t` array, eight
 * words to a line. The text itself is abstracted to a token stream: the array header with its
 * length, a line break, a word, and the closing brace.
 */
module FsmEmit {
  import opened Wrappers
  import opened FsmLoader
  import opened FsmTrie
  import opened FsmTable

  /** Line 37: `v1 * 256 + v0`, with no check that it fits in 16 bits. */
  function Pack(c: Cell): int
    requires c.Pair?
  {
    c.second * 256 + c.first
  }

  /** Two bytes pack into a 16-bit word, and the word gives both bytes back. */
  lemma PackBytes(c: Cell)
    requires c.Pair? && 0 <= c.first < 256 && 0 <= c.second < 256
    ensures 0 <= Pack(c) < 0x1_0000
    ensures Pack(c) % 256 == c.first && Pack(c) / 256 == c.second
  {
  }

  /** Pairs of bytes pack to equal words exactly when they are equal. */
  lemma PackInjectiveOnBytes(c: Cell, d: Cell)
    requires c.Pair? && 0 <= c.first < 256 && 0 <= c.second < 256
    requires d.Pair? && 0 <= d.first < 256 && 0 <= d.second < 256
    ensures Pack(c) == Pack(d) <==> c == d
  {
    PackBytes(c);
    PackBytes(d);
  }

  /** Without the range check, a node index of 256 or more runs into the other half of the word. */
  lemma PackOverflow()
    ensures Pack(Pair(256, 0)) == Pack(Pair(0, 1))
    ensures Pack(Pair(0, 256)) == 0x1_0000
  {
  }

  /** The printed text, as tokens: `const uint16_t fsm_[len] = {`, `\n `, ` 0x....,` and `\n};`. */
  datatype Token = Open(count: nat) | Break | Word(value: int) | Close

  /** Line 35: a line break precedes entry `i` when `i` is a positive multiple of 8. */
  function Separator(i: nat): seq<Token> {
    if i != 0 && i % 8 == 0 then [Break] else []
  }

  /** The tokens printed for the first `k` entries (lines 34-37). */
  function Entries(table: seq<Cell>, k: nat): seq<Token>
    requires k <= |table| && forall j :: 0 <= j < |table| ==> table[j].Pair?
  {
    if k == 0 then [] else Entries(table, k - 1) + Separator(k - 1) + [Word(Pack(table[k - 1]))]
  }

  /** The whole listing (lines 33-38). */
  function Listing(table: seq<Cell>): seq<Token>
    requires forall j :: 0 <= j < |table| ==> table[j].Pair?
  {
    [Open(|table|)] + Entries(table, |table|) + [Close]
  }

  /** Lines 33-38: print the header, each packed word with a break before every eighth, and the footer. */
  method Emit(table: seq<Cell>) returns (out: seq<Token>)
    requires forall j :: 0 <= j < |table| ==> table[j].Pair?
    ensures out == Listing(table)
  {
    out := [Open(|table|)];
    var i := 0;
    while i < |table|
      invariant 0 <= i <= |table|
      invariant out == [Open(|table|)] + Entries(table, i)
    {
      var word := Pack(table[i]);
      if i != 0 && i % 8 == 0 {
        out := out + [Break];
      }
      out := out + [Word(word)];
      i := i + 1;
    }
    out := out + [Close];
  }

  /** The values of the words among `tokens`, in order. */
  function Words(tokens: seq<Token>): seq<int> {
    if tokens == [] then []
    else Words(tokens[..|tokens| - 1]) + (if tokens[|tokens| - 1].Word? then [tokens[|tokens| - 1].value] else [])
  }

  lemma {:induction false} WordsAppend(a: seq<Token>, b: seq<Token>)
    ensures Words(a + b) == Words(a) + Words(b)
    decreases |b|
  {
    if b == [] {
      assert a + b == a;
    } else {
      var n := |b| - 1;
      assert (a + b)[..|a + b| - 1] == a + b[..n];
      WordsAppend(a, b[..n]);
    }
  }

  /** The words of the listing are the packed entries of the table, one per entry, in order. */
  lemma {:induction false} EntriesWords(table: seq<Cell>, k: nat)
    requires k <= |table| && forall j :: 0 <= j < |table| ==> table[j].Pair?
    ensures Words(Entries(table, k)) == seq(k, i requires 0 <= i < k => Pack(table[i]))
  {
    if k > 0 {
      EntriesWords(table, k - 1);
      WordsAppend(Entries(table, k - 1) + Separator(k - 1), [Word(Pack(table[k - 1]))]);
      WordsAppend(Entries(table, k - 1), Separator(k - 1));
      assert Words([Word(Pack(table[k - 1]))]) == [Pack(table[k - 1])];
      assert Words(Separator(k - 1)) == [];
    }
  }

  /** Where entry `i` sits in the token stream: after `i` earlier words and `i / 8` breaks. */
  function Position(i: nat): nat {
    i + i / 8
  }

  /** From entry `i - 1` to entry `i` the position grows by one word, and by a break before every eighth. */
  lemma PositionNext(i: nat)
    requires i > 0
    ensures Position(i) == Position(i - 1) + 1 + |Separator(i)|
  {
  }

  /**
   * The token stream `s` of `k` entries is laid out as line 35 prints it: entry `i` is the word at
   * `Position(i) = i + i / 8`, a break sits just before it exactly when `i` is a positive multiple
   * of 8, and the stream ends with entry `k - 1`; so `k` entries take `(k - 1) / 8` breaks.
   */
  ghost predicate LaidOut(s: seq<Token>, table: seq<Cell>, k: nat)
    requires k <= |table| && forall j :: 0 <= j < |table| ==> table[j].Pair?
  {
    && |s| == (if k == 0 then 0 else Position(k - 1) + 1)
    && (forall i :: 0 <= i < k ==> s[Position(i)] == Word(Pack(table[i])))
    && (forall i :: 0 < i < k ==> (s[Position(i) - 1] == Break <==> i % 8 == 0))
  }

  /** Printing entry `k` after a laid-out stream of `k` entries gives a laid-out stream of `k + 1`. */
  lemma LaidOutStep(s: seq<Token>, table: seq<Cell>, k: nat)
    requires k < |table| && forall j :: 0 <= j < |table| ==> table[j].Pair?
    requires LaidOut(s, table, k)
    ensures LaidOut(s + Separator(k) + [Word(Pack(table[k]))], table, k + 1)
  {
    var cur := s + Separator(k) + [Word(Pack(table[k]))];
    if k > 0 {
      PositionNext(k);
    }
    assert |s| + |Separator(k)| == Position(k);
    forall i | 0 <= i < k ensures cur[Position(i)] == Word(Pack(table[i])) {
      assert cur[Position(i)] == s[Position(i)];
    }
    forall i | 0 < i < k ensures cur[Position(i) - 1] == Break <==> i % 8 == 0 {
      assert cur[Position(i) - 1] == s[Position(i) - 1];
    }
    if 0 < k {
      if k % 8 == 0 {
        assert cur[Position(k) - 1] == Break;
      } else {
        assert cur[Position(k) - 1] == s[Position(k - 1)];
      }
    }
  }

  /** The entries of the listing are laid out eight to a line. */
  lemma {:induction false} EntriesLayout(table: seq<Cell>, k: nat)
    requires k <= |table| && forall j :: 0 <= j < |table| ==> table[j].Pair?
    ensures LaidOut(Entries(table, k), table, k)
  {
    if k > 0 {
      EntriesLayout(table, k - 1);
      LaidOutStep(Entries(table, k - 1), table, k - 1);
    }
  }

  /** The listing declares `len(tree)` words and holds exactly the packed entries, in order. */
  lemma ListingWords(table: seq<Cell>)
    requires forall j :: 0 <= j < |table| ==> table[j].Pair?
    ensures Listing(table)[0] == Open(|table|) && Listing(table)[|Listing(table)| - 1] == Close
    ensures Words(Listing(table)) == seq(|table|, i requires 0 <= i < |table| => Pack(table[i]))
  {
    EntriesWords(table, |table|);
    WordsAppend([Open(|table|)] + Entries(table, |table|), [Close]);
    WordsAppend([Open(|table|)], Entries(table, |table|));
    assert Words([Open(|table|)]) == [] && Words([Close]) == [];
  }
}
