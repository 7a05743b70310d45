# ident_gen in Dafny

A model of `IdentGen`, the identifier generator of the `ident_gen` crate. A
generator holds a table of symbols (by default the `snake_case` alphabet
`DEFAULT_TABLE`) and a current identifier. `advance(i)` moves the identifier
`i` combinations forward and `regress(i)` moves it `i` combinations back.
`advance` counts on the LEFTMOST symbol. A symbol pushed past the end of
the table does not wrap around: it becomes the table's last symbol and passes
`n - |table| + 1` to the symbol on its right, and past the right end the
table's first symbol is appended. The identifier is therefore not a number in
the table's base. The helpers `next_char_boundary`,
`prev_char_boundary` and `char_boundary` walk byte offsets of UTF-8 text, and
`replace_char` overwrites one symbol in place.

Files:

- `wrappers.dfy`: `Option` and `Result`.
- `text.dfy` (module `Text`): ASCII text and its UTF-8 bytes, the character
  boundary scan, and `replace_char` as symbol replacement.
- `tables.dfy` (module `Tables`): the two built-in tables and
  `position(..).unwrap_or(0)` as `SymbolIndex`.
- `enumeration.dfy` (module `Enumeration`): what the two operations compute,
  as functions. `Advanced`/`Carry` give the result of `advance` and
  `Regressed`/`Borrow` the outcome of `regress`. `Successor` is an
  independent, loop-free description of `next()`. Lemmas state the
  properties of these functions.
- `ident_gen.dfy` (module `Generator`): the class `IdentGen` with `ident` and
  `table` fields. Its methods follow the source step by step: the same
  `index`/`n`/`len`/`next_char` (or `prev_char`) variables, the same `while`
  loops, and the same `continue`, `break` and recursive call. Each method is
  proved against the function above.

The class invariant `Valid()` asks for a non-empty table whose symbols, like
the identifier's, are single UTF-8 bytes. Byte offsets are then symbol
positions, so the scans give `index + 1` and `index - 1`
(`AsciiNextBoundary`, `AsciiPrevBoundary`).

Where the code and its documentation disagree, the model follows the code:

- **`regress` past the first combination.** The documentation of `regress`
  says `regress(1)` on "a" gives "". In the code, every run of the borrow loop
  ends in a panic, and the model returns it as an `Err(Panic)` outcome:
  - `TableIndexOutOfRange` when the loop breaks with a negative `n`, which is
    then used to index the table;
  - `ReplaceSpanUnderflow` when the loop ends normally and hands
    `replace_char` a span whose start is one past its end.

  On an abort the identifier keeps only what the pops left (a proper prefix).
  `RegressDocExamples` proves both the working example and the abort.
- **The borrow loop's lookup.** After a pop, the loop looks up the symbol two
  places before the popped one, not the one just before it.
- **Enumeration order.** The crate is documented to generate all combinations
  in order. The code does not: from "c" on the table a, b, c, `next()` gives
  "ca", then "cb", "cc", "cca" (`NextWalkOnAbc`, `NextWalkOnAbcLonger`).
  With a repeat-free table, every identifier reached from "" with two or more
  symbols starts with the last symbol, so "aa" is never reached
  (`AdvanceFromEmptyLeadsWithLast`).

## Model

| member | source | states |
|---|---|---|
| Tables.BuiltinTablesAscii | src/lib.rs:16-25 | both built-in tables have 26 symbols, each a single UTF-8 byte |
| Tables.BuiltinTablesDistinct | src/lib.rs:16-25 | no symbol repeats in either built-in table |
| Tables.UpperSnakeMirrorsDefault | src/lib.rs:16-25 | 'y' and 'Y' are missing; the upper table is the lower one in upper case, position by position ('f' before 'e'); both end in '_' |
| Tables.Position | src/lib.rs:118 | `position` is `None` exactly when the symbol is absent; otherwise it is the index of its first occurrence |
| Tables.SymbolIndex | src/lib.rs:118 | `position(..).unwrap_or(0)`: the first occurrence of a present symbol, 0 for an absent one, always inside a non-empty table |
| Tables.SymbolIndexOfDistinct | src/lib.rs:118 | in a table without repeats, every symbol's index is its own position |
| Text.CharBoundary | src/lib.rs:253-267 | forward: `None` iff `index >= len`, otherwise the first boundary after `index`; backward: `None` iff `index == 0` or `index - 1 > len`, otherwise the last boundary before `index` |
| Text.NextCharBoundary | src/lib.rs:243-246 | the forward half of `CharBoundary` |
| Text.PrevCharBoundary | src/lib.rs:248-251 | the backward half of `CharBoundary` |
| Text.AsciiBytes | src/lib.rs:253-264 | an ASCII text's UTF-8 bytes: one per symbol, and every offset from 0 to the length is a character boundary |
| Text.AsciiNextBoundary | src/lib.rs:119 | in single-byte text the forward scan from `index` stops at `index + 1` |
| Text.AsciiPrevBoundary | src/lib.rs:180 | in single-byte text the backward scan from `index <= len + 1` stops at `index - 1` |
| Text.ReplaceChar | src/lib.rs:287-297 | a start past the end underflows (`None`); an empty span leaves the text unchanged; a one-symbol span is overwritten by the new symbol |
| Enumeration.AdvanceLength | src/lib.rs:104-150 | `advance(i)` never shortens the identifier and grows it by at most `i` symbols; for `i >= 1` the result is not empty |
| Enumeration.CarryLength | src/lib.rs:122-145 | one carry run keeps the length or appends, by at most the carried amount |
| Enumeration.AdvanceSymbols | src/lib.rs:104-150 | every symbol of the result is either the old symbol at that position or a table symbol |
| Enumeration.CarrySymbols | src/lib.rs:122-145 | the carry run writes and appends table symbols only |
| Enumeration.AdvanceWithoutCarry | src/lib.rs:118-147 | when the leftmost symbol's index plus `i` fits in the table, only the leftmost symbol changes, to `table[x + i]` |
| Enumeration.AdvanceFromEmpty | src/lib.rs:111-114 | from "", `advance(i)` gives `[table[i - 1]]` for `i <= len` and `[last, first]` for `i == len + 1` |
| Enumeration.AdvanceKeepsLastPrefix | src/lib.rs:104-150 | with a repeat-free table, a prefix of last symbols survives any `advance` |
| Enumeration.CarryKeepsLastPrefix | src/lib.rs:122-145 | a carry keeps a prefix of last symbols, and a position it passes becomes the last symbol |
| Enumeration.AdvanceSingle | src/lib.rs:104-150 | `advance` on a one-symbol identifier keeps one symbol or leads with the table's last symbol |
| Enumeration.AdvanceFromEmptyLeadsWithLast | src/lib.rs:104-150 | with a repeat-free table, every identifier `advance` reaches from "" with two or more symbols starts with the last symbol; with two or more table symbols it never reaches two first symbols ("aa") |
| Enumeration.FirstNotLast | src/lib.rs:122-145 | the first position whose symbol is not at the table's top index: every position before it is at the top |
| Enumeration.NextIsSuccessor | src/lib.rs:67-69 | `next()` equals `Successor`: leading top symbols become the last symbol and the first other symbol moves up one; when there is no other, the first symbol is appended |
| Enumeration.CarryOne | src/lib.rs:122-145 | the carry run with count 1 from any position, in closed form |
| Enumeration.NextStepAt | src/lib.rs:67-69 | `next()` in closed form once the first non-top position is known |
| Enumeration.RegressWithoutBorrow | src/lib.rs:179-182 | when the rightmost symbol's index is at least `i > 0`, only the rightmost symbol changes, to `table[x - i]` |
| Enumeration.RegressFailsIffBorrow | src/lib.rs:167-209 | `regress` aborts exactly when `i > 0`, the identifier is not empty, and the rightmost symbol's index is below `i` |
| Enumeration.RegressKeepsLength | src/lib.rs:167-209 | a completed `regress` keeps the length, so it never turns a non-empty identifier into "" |
| Enumeration.AdvanceDocExamples | src/lib.rs:87-103 | the documented examples: `advance(1)` from "" is "a", then `advance(2)` is "c"; `advance(3)` from "" is "c" |
| Enumeration.NextWalkOnAbc | src/lib.rs:104-150 | on the table a, b, c: "" → a → b → c → ca |
| Enumeration.NextWalkOnAbcLonger | src/lib.rs:122-145 | on the table a, b, c: ca → cb → cc → cca → ccb |
| Enumeration.RegressDocExamples | src/lib.rs:152-166 | "b" regressed by 1 is "a"; "a" regressed by 1 aborts with `TableIndexOutOfRange` and does not give the documented "" |
| Enumeration.RegressOnAb | src/lib.rs:167-209 | the same two outcomes for any table starting with a, b |
| Enumeration.RegressSpanUnderflowExample | src/lib.rs:184-206 | on the table a, b, c, regressing "cca" by 1 leaves the borrow loop normally and aborts in `replace_char` |
| Generator.IdentGen.constructor | src/lib.rs:30-39 | an empty identifier over the given table, or over `DEFAULT_TABLE` when it is empty |
| Generator.IdentGen.Default | src/lib.rs:235-240 | an empty identifier over `DEFAULT_TABLE` |
| Generator.IdentGen.SetTable | src/lib.rs:50-57 | an empty table is refused and nothing changes; otherwise the table is replaced and the identifier kept |
| Generator.IdentGen.Table | src/lib.rs:61-63 | the current table, never empty |
| Generator.IdentGen.Next | src/lib.rs:67-69 | `advance(1)` |
| Generator.IdentGen.Prev | src/lib.rs:73-75 | `regress(1)`: its outcome, the new identifier on `Ok`, the popped proper prefix on an abort |
| Generator.IdentGen.LetterBy | src/lib.rs:79-85 | `advance(i)` for positive `i`, otherwise `regress(-i)`; the new identifier on `Ok`, the popped proper prefix on an abort |
| Generator.IdentGen.Advance | src/lib.rs:104-150 | the new identifier is `Advanced(table, old ident, i)` and is returned; the table is unchanged |
| Generator.CarryLoop | src/lib.rs:122-145 | the `while n >= table.len()` loop ends either with `n` inside the table, where one write completes `Advanced`, or with the `diff` from which `advance` restarts after appending the first symbol |
| Generator.IdentGen.Regress | src/lib.rs:167-209 | the outcome is `Regressed(table, old ident, i)`: on `Ok` it is the new identifier; on an abort the identifier is a proper prefix of the old one |
| Generator.BorrowLoop | src/lib.rs:184-204 | the `while n < 0` loop: when entered, it pops at least one symbol and ends with the outcome `Borrow` names; a negative `n` means `TableIndexOutOfRange`, and otherwise the span starts one past its end |
| Generator.IdentGen.Clear | src/lib.rs:213-215 | the identifier becomes empty; the table is kept |

## Left out

- The public `ident` field and `Deref`/`DerefMut` to `String`, which let
  callers edit the identifier directly. In the model the identifier changes
  only through the listed operations.
- `Display` and `Debug`: formatting only.
- Lifetimes and the borrowed `&'a [char]` table: the table is a value.
- Generator.IdentGen.constructor: requires a table of single-byte symbols,
  because the byte-level scans are modelled for one-byte symbols only.
  Multi-byte tables are outside the model.
- Generator.IdentGen.SetTable: requires a table of single-byte symbols, for
  the same reason.
- Text.ReplaceChar: models only a span of at most one symbol, the only kind
  `advance` and `regress` pass. The drain of an over-long span and the copy of
  `ch`'s in-memory bytes (`bytes`, which depends on byte order) are not
  modelled: for a one-byte symbol on a little-endian target the copied byte
  is the symbol itself.
- Generator.IdentGen.Advance: `usize` overflow of `position + i` is not
  modelled; counts are unbounded naturals.
- Generator.IdentGen.LetterBy: requires `isize::MIN < i`, because
  `isize::MIN.abs()` overflows.
- Generator.IdentGen.Regress: the `i as isize` cast is not modelled; for
  `i > isize::MAX` it would wrap to a negative step.
- Generator.IdentGen.Regress: a panic is modelled as an `Err` outcome. The
  unwinding itself and what a caller could observe after catching it are not
  modelled beyond the identifier's popped state.
- Generator.CarryLoop and Generator.BorrowLoop: they work on the identifier's
  value, and the calling method writes the result back to `ident`. The
  source updates `ident` in place inside the loop; the difference cannot be
  observed because nothing else can see the identifier while the loop runs.
- A complete, bijective enumeration of all combinations: the code does not
  produce one, and no corrected version is modelled.
