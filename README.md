# FSM table compiler and e-paper pixel packing, in Dafny

This project models two pieces of the e-paper firmware repository.

**The FSM table compiler `firmware/fsm/make_fsm.py`.**

- It reads tab-separated rules `code v0 v1`. The i-th accepted line gets slot i + 1.
- It applies the value escape: when `v0 == 254 && v1 >= 64`, it demands `v1 % 64 == 0` and stores `v1 // 64`.
- `build` expands a binary trie from the empty code into the list `tree`. That list is pre-sized to N entries, so the root branch lands at index N.
- The root is copied to index 0, and the rules' value pairs are written to indices 1..N.
- A key `''` would make line 29 raise IndexError. The loader never yields that key: line 17 strips any leading tab, so a line with three fields has a nonempty code. Only a hand-built dictionary given to lines 27-31 reaches that failure.
- Every pair is printed as the 16-bit word `v1*256 + v0`, eight words to a line.

**The pixel packing and GPIO byte writes of `firmware/EPDClass.h`.**

- `transfer` turns four 1-pixel-per-byte inputs into one byte of four 2-bit fields, through a 16-entry palette and an erase mask.
- That byte is merged into `GPIO_OUT_REG` by `digitalWriteByte`.
- `pinModeByte` configures the eight data pins and writes their mask to a GPIO enable register.

Modules:

| module | file | what it holds |
|---|---|---|
| `Wrappers` | wrappers.dfy | `Option` and `Result` |
| `Text` | text.dfy | the parts of Python's `str.strip`, `str.split` and `int` that the loader uses |
| `FsmLoader` | loader.dfy | the loader loop (lines 15-25) |
| `FsmTrie` | trie.dfy | `build` (lines 5-13), as the class `NodeList` around the `tree` list |
| `FsmTable` | table.dfy | pre-sizing, root relocation and leaf fill (lines 27-31), plus decoding walks over the result |
| `FsmEmit` | emit.dfy | packing and printing (lines 33-38), as a token stream |
| `FsmCompiler` | pipeline.dfy | the whole script |
| `EpdPixels` | epd.dfy | `transfer`'s pixel conversion, `digitalWriteByte`, `pinModeByte` |

`build` only terminates on some rule sets. The model adds a ghost bound `fuel` and a predicate `Covered(states, code, fuel)`, meaning "`build` from `code` returns within `fuel` levels". `CoveredIffPaths` proves this is the same as "every 0/1 path of length `fuel` below `code` has a prefix among the rules". This is the completeness condition under which the script ends.

The functional specification of `build` is `Trie(states, code, next, fuel)`. It gives the index returned and the cells appended, starting at index `next`.

`Follow` and `Decode` are a reference walk over the table: each bit selects the first or second index of the current pair. They state what the table means. They are not a model of firmware code.

## Model

| member | source | states |
|---|---|---|
| FsmLoader.Scale | firmware/fsm/make_fsm.py:21-23 | fails exactly when `v0 == 254`, `v1 >= 64` and `v1` is not a multiple of 64; when the escape applies, stored × 64 is the original `v1` (and at least 1); otherwise `v1` is kept |
| FsmLoader.EscapeAmbiguity | firmware/fsm/make_fsm.py:21-23 | an unscaled `v1` in 1..63 and the scaled `64*v1` are stored as the same value |
| FsmLoader.Parse | firmware/fsm/make_fsm.py:17-20 | computes what `line.strip().split('\t')` and the two `int()` calls give: the field count, and for three fields the code, both value texts and their integer values |
| FsmLoader.ThreeFieldsCode | firmware/fsm/make_fsm.py:17 | a line that splits into three fields has a nonempty code, since `strip()` has removed any leading tab |
| FsmLoader.ParseRule | firmware/fsm/make_fsm.py:17-23 | one iteration's checks; it succeeds exactly on a well-formed line with a new code, yields that line's code and values, and its error names the line |
| FsmLoader.ParseRuleOrder | firmware/fsm/make_fsm.py:17-23 | a bad line's error follows the order of the checks: a wrong field count first, then a repeated code, then a non-integer `v0` before `v1`, then the escape |
| FsmLoader.LoadParsed | firmware/fsm/make_fsm.py:16-25 | computes the loader loop over parsed lines: the error of the first failing line, or the ordered dictionary with slot i + 1 for the i-th line |
| FsmLoader.LoadLines | firmware/fsm/make_fsm.py:15-25 | computes the loader on the raw input lines: `LoadParsed` of their parses |
| FsmLoader.LoadedRules | firmware/fsm/make_fsm.py:15-25 | after a successful load, keys are distinct and `states` has exactly the keys of `order`; line i is well-formed and its code is key i, with slot i + 1 and that line's (scaled) values |
| FsmLoader.GoodLinesLoad | firmware/fsm/make_fsm.py:16-25 | every input whose lines are all well-formed, with distinct codes, loads |
| FsmLoader.LoadFailsAtFirstBadLine | firmware/fsm/make_fsm.py:17-22 | a failed load names the first line that breaks well-formedness or repeats a code: every line before it is good |
| FsmLoader.LoadAborts | firmware/fsm/make_fsm.py:17-22 | once a prefix of the input fails, the whole input fails with the same error |
| FsmLoader.SlotsOneToN | firmware/fsm/make_fsm.py:24-25 | slots lie in 1..N, distinct codes have distinct slots, and the i-th key has slot i + 1 |
| FsmLoader.SlottedSize | firmware/fsm/make_fsm.py:24 | `len(states)` equals the number of accepted lines |
| FsmLoader.NoEmptyCode | firmware/fsm/make_fsm.py:15-25 | a successful load never has a rule for `''` |
| FsmLoader.Load | firmware/fsm/make_fsm.py:15-25 | the loop computes exactly the functional loader `LoadLines` |
| Text.Strip | firmware/fsm/make_fsm.py:17 | computes `str.strip()`: drops leading and trailing characters of `IsSpace` (ASCII whitespace including 0x1C..0x1F) |
| Text.StripSpec | firmware/fsm/make_fsm.py:17 | `strip()` yields the slice of the line between leading and trailing whitespace; that slice neither starts nor ends with whitespace |
| Text.Split | firmware/fsm/make_fsm.py:17 | computes `str.split(sep)`: the fields between separators, empty ones included |
| Text.SplitJoin | firmware/fsm/make_fsm.py:17 | `split('\t')` yields at least one field, no field holds a tab, and joining the fields with tabs gives the text back |
| Text.ParseInt | firmware/fsm/make_fsm.py:19-20 | computes `int()` on a decimal literal: skips space and \t \n \v \f \r at both ends, then an optional sign and 1 to 4300 digits (the default digit limit); anything else is `None` (ValueError) |
| Text.SeparatorRejected | firmware/fsm/make_fsm.py:19-20 | a value text with a separator 0x1C..0x1F at either end is rejected, because `int()` does not skip it |
| Text.ParseRender | firmware/fsm/make_fsm.py:19-20 | `int(str(i)) == i` for every integer of at most 4300 digits (beyond that `str(i)` itself raises ValueError) |
| Text.LongLiteralRejected | firmware/fsm/make_fsm.py:19-20 | a literal whose digit run, after surrounding whitespace and an optional sign, is longer than 4300 characters is rejected (ValueError), however well-formed; signed and padded literals included |
| FsmTrie.Trie | firmware/fsm/make_fsm.py:5-13 | computes what `build` from `code` does when the list has `next` entries: a rule gives its slot and appends nothing; any other code gives `next` and appends its child pair, then the subtrie of `code + '0'`, then that of `code + '1'` |
| FsmTrie.CoveredIffPaths | firmware/fsm/make_fsm.py:5-13 | `build` from `code` ends within `fuel` levels exactly when every 0/1 path of length `fuel` below `code` has a prefix among the rules |
| FsmTrie.ExpandedIsReached | firmware/fsm/make_fsm.py:6-11 | the codes `build` expands are exactly the codes reachable from the start code without passing through a rule, minus the rules themselves |
| FsmTrie.TrieSize | firmware/fsm/make_fsm.py:8-9 | the number of cells `build` appends equals the number of codes it expands |
| FsmTrie.TrieIndices | firmware/fsm/make_fsm.py:6-12 | when all slots lie in 1..N: `build` returns a rule's slot (appending nothing) or the index where it started appending; every appended cell is a pair (no placeholder is left), and each child index is a leaf slot or a node appended after that index, so the node at the start, the root in particular, is nobody's child |
| FsmTrie.NodeList.constructor | firmware/fsm/make_fsm.py:27 | the list starts as N placeholders |
| FsmTrie.NodeList.Build | firmware/fsm/make_fsm.py:5-13 | on a rule, returns its slot and leaves `tree` unchanged; otherwise returns the old length and leaves every entry below it unchanged; in both cases the result and the appended cells are exactly the specification `Trie` (the child pair of both recursive results, then both subtries) |
| FsmTable.Filled | firmware/fsm/make_fsm.py:30-31 | computes `tree` after the leaf loop has written the first i rules: entry k in 1..i is the value pair of key k - 1; every other entry is unchanged |
| FsmTable.Layout | firmware/fsm/make_fsm.py:27-31 | computes the final table for a root expansion: N placeholders, then the expansion, then entry N copied to 0, then the leaves written |
| FsmTable.FinalTable | firmware/fsm/make_fsm.py:27-31 | computes the final table: `Layout` of the expansion `build` makes from `''` after N placeholders |
| FsmTable.Compile | firmware/fsm/make_fsm.py:27-31 | fails (the IndexError at line 29) exactly when `''` is a key, which only a hand-built dictionary can hold; otherwise yields the final table `FinalTable` |
| FsmTable.WriteLeaves | firmware/fsm/make_fsm.py:30-31 | writes each rule's value pair at its slot and leaves every other entry as it was |
| FsmTable.FinalTableLayout | firmware/fsm/make_fsm.py:29-31 | the table is longer than N; entry `slot` of each rule holds its value pair; every entry is a pair; every branch entry (index 0 and above N) points into 1..len-1, never at 0 |
| FsmTable.FinalTableSize | firmware/fsm/make_fsm.py:27-31 | the table length is N + B, where B is the number of non-rule codes expanded |
| FsmTable.RootChildren | firmware/fsm/make_fsm.py:28-29 | entry 0 holds the root's child pair, and the subtries of `0` and `1` sit back to back from index N + 1 |
| FsmTable.FollowNonBinary | firmware/fsm/make_fsm.py:6-12 | a property of the reference walk `Follow` (it holds for every table, by how `Follow` reads a bit): a code with a character other than 0/1 leads nowhere; `RuleDecodes` states what the built table does with such a rule |
| FsmTable.DecodeReachesSlot | firmware/fsm/make_fsm.py:6-12 | walking the bits of a binary rule that no shorter rule shadows, from state 0, reaches exactly that rule's slot |
| FsmTable.ShadowedCodeUnreachable | firmware/fsm/make_fsm.py:6-7 | a code that extends a shorter rule is never decoded |
| FsmTable.DecodeSound | firmware/fsm/make_fsm.py:6-12 | every walk from state 0 that ends on a leaf 1..N spells the rule whose slot it is |
| FsmTable.RuleDecodes | firmware/fsm/make_fsm.py:6-12 | a rule decodes to its slot if and only if it is binary and no shorter rule is a prefix of it |
| FsmTable.EmptyNotCovered | firmware/fsm/make_fsm.py:5-13 | with no rules at all, `build` does not end for any bound |
| FsmEmit.Pack | firmware/fsm/make_fsm.py:37 | computes the printed word of a pair `(v0, v1)`: `v1*256 + v0`, with no range check |
| FsmEmit.PackBytes | firmware/fsm/make_fsm.py:37 | two bytes pack into a word in 0..65535, from which `% 256` and `/ 256` give them back |
| FsmEmit.PackInjectiveOnBytes | firmware/fsm/make_fsm.py:37 | pairs of bytes pack to the same word if and only if they are equal |
| FsmEmit.PackOverflow | firmware/fsm/make_fsm.py:37 | with no range check, an index of 256 collides with the other byte, and a second component of 256 leaves 16 bits |
| FsmEmit.Emit | firmware/fsm/make_fsm.py:33-38 | the loop prints exactly `Listing(table)` |
| FsmEmit.Entries | firmware/fsm/make_fsm.py:34-37 | computes the tokens printed for the first k entries: each packed word, with a line break before every positive multiple of 8 |
| FsmEmit.Listing | firmware/fsm/make_fsm.py:33-38 | computes the whole listing: the header with the table length, the entries, the closing brace |
| FsmEmit.EntriesLayout | firmware/fsm/make_fsm.py:34-37 | word i is at position i + i/8, and a line break precedes it exactly when i is a positive multiple of 8 |
| FsmEmit.ListingWords | firmware/fsm/make_fsm.py:33-38 | the listing opens with the table length, closes last, and its words are the packed entries in order |
| FsmCompiler.MakeFsm | firmware/fsm/make_fsm.py:15-38 | a rejected line aborts with its error; otherwise there is no rule for `''`, the table stage completes, every entry is a pair, and the output is the listing of the final table |
| FsmCompiler.ListedLeaf | firmware/fsm/make_fsm.py:30-37 | in the printed listing, each rule's slot holds the word `v1*256 + v0` of its stored values |
| EpdPixels.GroupIndex | firmware/EPDClass.h:113 | computes the palette index `(d0<<3)|(d1<<2)|(d2<<1)|d3` of four input bytes, cut to the 8 bits of `uint8_t` |
| EpdPixels.GroupIndexOfPixels | firmware/EPDClass.h:113 | with 0/1 pixels the index is `8*d0 + 4*d1 + 2*d2 + d3`, in 0..15 |
| EpdPixels.GroupIndexPastPalette | firmware/EPDClass.h:113-115 | a pixel byte of 2 already yields index 16, past the palette |
| EpdPixels.PaletteClosedForm | firmware/EPDClass.h:115-132 | pixel k's field of `palette[i]` is `01` when bit 3-k of i is set, and `10` otherwise |
| EpdPixels.OutByte | firmware/EPDClass.h:115-133 | computes the byte sent for a group: entry `index` of the 16-byte `Palette` (lines 115-132), masked with `0xFF` when erasing and `0x55` otherwise |
| EpdPixels.MaskField | firmware/EPDClass.h:133 | the `0x55` mask keeps only the low bit of each field; `0xFF` keeps both bits |
| EpdPixels.OutBytePixels | firmware/EPDClass.h:113-133 | for 0/1 pixels, field k of the sent byte is `01` for a set pixel; a clear pixel gives `10` when erasing and `00` otherwise |
| EpdPixels.RowBytes | firmware/EPDClass.h:111-133 | computes the 256 bytes of one row: byte i is `OutByte` of the group index of input bytes 4i..4i+3 |
| EpdPixels.RowBytePixels | firmware/EPDClass.h:111-133 | for a 0/1 row, field k of byte i encodes input pixel 4i + k |
| EpdPixels.Transfer | firmware/EPDClass.h:109-136 | runs `WIDTH/4 = 256` times; write i is the register value read in iteration i, with the data pins replaced by the byte computed from input bytes 4i..4i+3 |
| EpdPixels.ByteMaskPins | firmware/EPDClass.h:156 | for `pin0 + 8 <= 32`, the mask `0xff << pin0` selects exactly pins pin0..pin0+7 |
| EpdPixels.DigitalWriteByte | firmware/EPDClass.h:166-168 | computes the register after the write: the old value with `0xff << pin0` cleared, or-ed with `value << pin0` |
| EpdPixels.DigitalWriteByteField | firmware/EPDClass.h:167 | bit k of `value` lands on pin `pin0 + k` |
| EpdPixels.DigitalWriteByteKeeps | firmware/EPDClass.h:167 | every bit outside pin0..pin0+7 keeps the old register's value |
| EpdPixels.DigitalWriteByteTwice | firmware/EPDClass.h:167 | a second write to the same pins overrides the first entirely |
| EpdPixels.PinModeByte | firmware/EPDClass.h:153-160 | `pinMode` is called on pins pin0..pin0+7 in order; INPUT writes the mask to the clear register, OUTPUT to the set register, any other mode writes nothing |
| EpdPixels.PinModeBytePins | firmware/EPDClass.h:154-158 | the pins configured are exactly the pins the enable mask selects |

## Left out

- Reading standard input and the exact text of the output (`'0x%04x'`, spaces, commas) are left out. The listing is a token stream of header, line break, word and footer.
- Text.ParseInt: modelled on ASCII only: optional whitespace (space and \t \n \v \f \r), an optional sign, then decimal digits. Underscores between digits, and non-ASCII digits or whitespace, are not modelled.
- Text.ParseInt: the digit limit is fixed at its default of 4300. Changing it (`sys.set_int_max_str_digits`, `PYTHONINTMAXSTRDIGITS`) and Python versions without the limit are not modelled.
- Assertions are assumed enabled, as the script's `#!/usr/bin/python3` line runs it. Under `python3 -O` or `PYTHONOPTIMIZE` the `assert` statements of lines 18 and 22 are removed: a repeated code then overwrites the earlier entry instead of failing with `DuplicateCode`, and a `v1` that is not a multiple of 64 is floor-divided instead of failing with `ScaleNotMultiple`. That mode is not modelled.
- Text.Strip: modelled on ASCII whitespace only. Non-ASCII whitespace such as U+0085, U+00A0 and U+2000..U+200A, which `str.strip()` also removes, is kept.
- FsmTrie.NodeList.Build: requires that the recursion from `code` ends within the ghost bound `fuel`. On an incomplete or empty code set the script recurses until Python's recursion limit; that behaviour is not modelled. `EmptyNotCovered` only shows that no bound exists for the empty rule set.
- FsmTrie.NodeList.Build: has no recursion limit. The script stops with RecursionError once `build` nests deeper than Python's limit (about 1000 calls by default), even on a complete code set; `Build` with enough fuel finishes on such a set.
- FsmCompiler.MakeFsm: requires the same termination bound for the loaded rules.
- How the firmware interprets the table at decode time is not part of this model. This covers leaf against branch, the meaning of 254, and the escape. `Follow` is a reference walk that states what the table encodes.
- The script makes none of these checks, and neither does the model: prefix conflicts between codes, `v0 == 254` with `v1 < 64`, more than 256 nodes or values that overflow a byte, characters other than 0/1 in a code. A shadowed rule's leaf is still written but no walk reaches it (`ShadowedCodeUnreachable`).
- firmware/TIFFG4.h, daemon/e_monitor.py and the rest of the repository are not part of this model.
- EpdPixels.Transfer: models only the data path. These are left out:
  - the STL/CL/LE/CKV strobes, because they are hardware calls whose effect on `GPIO_OUT_REG` is outside the model;
  - `delayMicroseconds`.

  The value `REG_READ` returns in each iteration is therefore a parameter.
- EpdPixels.Transfer: requires that every group index is below 16. The C code reads past the palette otherwise, which is undefined behaviour. It also requires at least `WIDTH` input bytes.
- The per-bit lemmas for `digitalWriteByte` and `pinModeByte` assume `pin0 + 8 <= 32`. `DigitalWriteByte`, `Transfer` and `PinModeByte` themselves require `pin0 < 32`, because the C++ shift `0xff << pin0` is undefined for a shift count of 32 or more.
- `0xff << pin0` is modelled as a 32-bit shift. For `pin0 >= 24` the C expression overflows a signed `int`.
- `pinMode` and `REG_WRITE` themselves are not modelled; `PinModeByte` returns the calls and the register write it makes.
- `digitalReadByte`, the constructor, `enable`, `disable`, `begin`, `end` and the I2C power-rail functions are hardware plumbing and are not part of this model.
