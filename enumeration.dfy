/** What `advance` and `regress` compute, stated as functions of the table, the
    identifier and the count, with the properties proved about them.

    The identifier is a sequence of symbols. `advance` reads the LEFTMOST symbol
    as the least significant one and carries to the right; `regress` works on the
    RIGHTMOST symbol and aborts whenever it has to borrow. */
module Enumeration {
  import opened Wrappers
  import opened Tables

  /** Why `regress` aborts when it has to borrow. */
  datatype Panic =
    | TableIndexOutOfRange  // `table[n as usize]` with a negative `n`
    | ReplaceSpanUnderflow  // `replace_char` with `start > end`: `end - start` overflows
                            // (a debug build), or it wraps and `drain` rejects the
                            // backwards range it is then given (a release build)

  /** `advance(i)`: nothing for 0; from the empty identifier, the table's first
      symbol and `i - 1` more steps; otherwise a carry run from the leftmost symbol. */
  function Advanced(table: seq<char>, s: seq<char>, i: nat): seq<char>
    requires |table| > 0
    decreases i, 1, 0
  {
    if i == 0 then s
    else if s == [] then Advanced(table, [table[0]], i - 1)
    else Carry(table, s, 0, i)
  }

  /** One step of the carry run of `advance`: symbol `k` moves up by `c` positions.
      On overflow it becomes the table's last symbol and `n - |table| + 1` moves on
      to symbol `k + 1`; past the right end the table's first symbol is appended and
      `advance` starts over with one less. */
  function Carry(table: seq<char>, s: seq<char>, k: nat, c: nat): seq<char>
    requires |table| > 0 && k < |s|
    decreases c, 0, |s| - k
  {
    var n := SymbolIndex(table, s[k]) + c;
    if n < |table| then s[k := table[n]]
    else
      var diff := n - |table| + 1;
      var passed := s[k := Last(table)];
      if k + 1 < |s| then Carry(table, passed, k + 1, diff)
      else Advanced(table, passed + [table[0]], diff - 1)
  }

  /** `regress(i)`: nothing for 0 or for the empty identifier; the rightmost symbol
      moves down by `i` when it can; otherwise the borrow loop, which always aborts. */
  function Regressed(table: seq<char>, s: seq<char>, i: nat): Result<seq<char>, Panic>
    requires |table| > 0
  {
    if i == 0 || s == [] then Ok(s)
    else
      var x := SymbolIndex(table, s[|s| - 1]);
      if x >= i then Ok(s[|s| - 1 := table[x - i]])
      else Err(Borrow(table, s, x - i))
  }

  /** One pass of the borrow loop of `regress` with `n < 0`: the last symbol is
      popped; when at most one symbol is left before the new end the loop breaks
      with `n` still negative; otherwise the symbol two places before the popped
      one is added to `n`, and the loop goes on while `n` stays negative and then
      hands `replace_char` a span that starts one past its end. */
  function Borrow(table: seq<char>, s: seq<char>, n: int): Panic
    requires |table| > 0 && |s| > 0 && n < 0
    decreases |s|
  {
    if |s| <= 2 then TableIndexOutOfRange
    else
      var n' := SymbolIndex(table, s[|s| - 3]) + n;
      if n' < 0 then Borrow(table, s[..|s| - 1], n') else ReplaceSpanUnderflow
  }

  /** One pass of the borrow loop when more than two symbols are left. */
  lemma BorrowStep(table: seq<char>, s: seq<char>, n: int)
    requires |table| > 0 && |s| > 2 && n < 0
    ensures var n' := SymbolIndex(table, s[|s| - 3]) + n;
      Borrow(table, s, n) == if n' < 0 then Borrow(table, s[..|s| - 1], n') else ReplaceSpanUnderflow
  {
  }

  /** `seq` of `m` copies of `c`. */
  function Repeat(c: char, m: nat): seq<char> {
    seq(m, _ => c)
  }

  /** The index of the first symbol that is not at the table's top position
      (`|s|` when there is none). */
  function FirstNotLast(table: seq<char>, s: seq<char>): (k: nat)
    requires |table| > 0
    ensures k <= |s|
    ensures forall j :: 0 <= j < k ==> SymbolIndex(table, s[j]) == |table| - 1
    ensures k < |s| ==> SymbolIndex(table, s[k]) < |table| - 1
  {
    if s == [] || SymbolIndex(table, s[0]) < |table| - 1 then 0
    else 1 + FirstNotLast(table, s[1..])
  }

  /** The successor that `next()` produces, stated without the carry loop: the
      leading symbols at the top position all become the last symbol, and the first
      symbol that is not there moves one position up; when every symbol is at the
      top, the table's first symbol is appended on the right. */
  function Successor(table: seq<char>, s: seq<char>): seq<char>
    requires |table| > 0
  {
    var k := FirstNotLast(table, s);
    if k < |s| then Repeat(Last(table), k) + [table[SymbolIndex(table, s[k]) + 1]] + s[k + 1..]
    else Repeat(Last(table), |s|) + [table[0]]
  }

  // ---------------------------------------------------------------------------
  // advance
  // ---------------------------------------------------------------------------

  /** `advance` never shortens the identifier and grows it by at most one symbol
      per unit of the count; after `advance(i)` with `i >= 1` it is not empty. */
  lemma {:induction false} AdvanceLength(table: seq<char>, s: seq<char>, i: nat)
    requires |table| > 0
    ensures |s| <= |Advanced(table, s, i)| <= |s| + i
    ensures i > 0 ==> |Advanced(table, s, i)| > 0
    decreases i, 1, 0
  {
    if i == 0 {
    } else if s == [] {
      AdvanceLength(table, [table[0]], i - 1);
    } else {
      CarryLength(table, s, 0, i);
    }
  }

  /** The carry run keeps the length, or appends and continues with a smaller count. */
  lemma {:induction false} CarryLength(table: seq<char>, s: seq<char>, k: nat, c: nat)
    requires |table| > 0 && k < |s|
    ensures |s| <= |Carry(table, s, k, c)| <= |s| + c
    decreases c, 0, |s| - k
  {
    var n := SymbolIndex(table, s[k]) + c;
    if n >= |table| {
      var diff := n - |table| + 1;
      var passed := s[k := Last(table)];
      if k + 1 < |s| {
        CarryLength(table, passed, k + 1, diff);
      } else {
        AdvanceLength(table, passed + [table[0]], diff - 1);
      }
    }
  }

  /** Every symbol of `r` either is the symbol `s` already had at that position or
      is a table symbol. */
  predicate WritesTableSymbols(table: seq<char>, s: seq<char>, r: seq<char>) {
    forall j :: 0 <= j < |r| ==> (j < |s| && r[j] == s[j]) || r[j] in table
  }

  /** Writing table symbols twice writes table symbols. */
  lemma WritesTableSymbolsTrans(table: seq<char>, s: seq<char>, t: seq<char>, r: seq<char>)
    requires WritesTableSymbols(table, s, t) && WritesTableSymbols(table, t, r)
    ensures WritesTableSymbols(table, s, r)
  {
    forall j | 0 <= j < |r| ensures (j < |s| && r[j] == s[j]) || r[j] in table {
      if j < |t| && r[j] == t[j] {
        assert (j < |s| && t[j] == s[j]) || t[j] in table;
      }
    }
  }

  /** `advance` writes and appends table symbols only. */
  lemma {:induction false} AdvanceSymbols(table: seq<char>, s: seq<char>, i: nat)
    requires |table| > 0
    ensures WritesTableSymbols(table, s, Advanced(table, s, i))
    decreases i, 1, 0
  {
    if i == 0 {
    } else if s == [] {
      var t := [table[0]];
      assert WritesTableSymbols(table, s, t) by {
        assert t[0] in table;
      }
      AdvanceSymbols(table, t, i - 1);
      WritesTableSymbolsTrans(table, s, t, Advanced(table, t, i - 1));
    } else {
      CarrySymbols(table, s, 0, i);
    }
  }

  /** The carry run writes and appends table symbols only. */
  lemma {:induction false} CarrySymbols(table: seq<char>, s: seq<char>, k: nat, c: nat)
    requires |table| > 0 && k < |s|
    ensures WritesTableSymbols(table, s, Carry(table, s, k, c))
    decreases c, 0, |s| - k
  {
    var n := SymbolIndex(table, s[k]) + c;
    if n >= |table| {
      var diff := n - |table| + 1;
      var passed := s[k := Last(table)];
      if k + 1 < |s| {
        assert WritesTableSymbols(table, s, passed) by {
          assert passed[k] in table;
        }
        CarrySymbols(table, passed, k + 1, diff);
        WritesTableSymbolsTrans(table, s, passed, Carry(table, passed, k + 1, diff));
      } else {
        var t := passed + [table[0]];
        assert WritesTableSymbols(table, s, t) by {
          assert t[k] in table && t[|s|] in table;
        }
        AdvanceSymbols(table, t, diff - 1);
        WritesTableSymbolsTrans(table, s, t, Advanced(table, t, diff - 1));
      }
    } else {
      assert Carry(table, s, k, c)[k] in table;
    }
  }

  /** No carry: when the leftmost symbol's position `x` plus `i` stays inside the
      table, only that symbol changes, to `table[x + i]`. */
  lemma AdvanceWithoutCarry(table: seq<char>, s: seq<char>, i: nat)
    requires |table| > 0 && s != [] && i > 0
    requires SymbolIndex(table, s[0]) + i < |table|
    ensures var r := Advanced(table, s, i);
      |r| == |s| && r[0] == table[SymbolIndex(table, s[0]) + i] && r[1..] == s[1..]
  {
  }

  /** From the empty identifier, `advance(i)` for `1 <= i <= |table|` gives the
      one-symbol identifier `table[i - 1]`, and `advance(|table| + 1)` opens the
      two-symbol identifiers with the last symbol followed by the first. */
  lemma AdvanceFromEmpty(table: seq<char>, i: nat)
    requires |table| > 0 && 1 <= i <= |table| + 1
    ensures Advanced(table, [], i) == if i <= |table| then [table[i - 1]] else [Last(table), table[0]]
  {
    assert SymbolIndex(table, table[0]) == 0;
    assert Advanced(table, [], i) == Advanced(table, [table[0]], i - 1);
    if 1 < i <= |table| {
      assert Advanced(table, [table[0]], i - 1) == Carry(table, [table[0]], 0, i - 1);
    } else if i == |table| + 1 {
      assert Advanced(table, [table[0]], |table|) == Carry(table, [table[0]], 0, |table|);
      assert Carry(table, [table[0]], 0, |table|) == Advanced(table, [Last(table), table[0]], 0);
    }
  }

  /** A carry passes positions left to right and leaves each at the table's last
      symbol: in a table without repeats, a prefix of last symbols survives any
      later `advance`. */
  lemma {:induction false} AdvanceKeepsLastPrefix(table: seq<char>, s: seq<char>, i: nat, m: nat)
    requires |table| > 0 && Distinct(table)
    requires m <= |s| && forall j :: 0 <= j < m ==> s[j] == Last(table)
    ensures var r := Advanced(table, s, i);
      m <= |r| && forall j :: 0 <= j < m ==> r[j] == Last(table)
    decreases i, 1, 0
  {
    AdvanceLength(table, s, i);
    if i == 0 {
    } else if s == [] {
    } else {
      CarryKeepsLastPrefix(table, s, 0, i, m);
    }
  }

  /** Carry at position `k` (every position before `k` already passed): the last
      symbols before `m` stay, and the symbol at `k` becomes the last symbol when
      the carry passes it. */
  lemma {:induction false} CarryKeepsLastPrefix(table: seq<char>, s: seq<char>, k: nat, c: nat, m: nat)
    requires |table| > 0 && Distinct(table)
    requires k < |s| && k <= m <= |s| && c >= 1
    requires forall j :: 0 <= j < m ==> s[j] == Last(table)
    ensures var r := Carry(table, s, k, c);
      |s| <= |r| && m <= |r| && (forall j :: 0 <= j < m ==> r[j] == Last(table)) &&
      (SymbolIndex(table, s[k]) + c >= |table| ==> r[k] == Last(table))
    decreases c, 0, |s| - k
  {
    SymbolIndexOfDistinct(table, |table| - 1);
    CarryLength(table, s, k, c);
    var n := SymbolIndex(table, s[k]) + c;
    if n >= |table| {
      var diff := n - |table| + 1;
      var passed := s[k := Last(table)];
      var m' := if m < k + 1 then k + 1 else m;
      if k + 1 < |s| {
        CarryKeepsLastPrefix(table, passed, k + 1, diff, m');
      } else {
        AdvanceKeepsLastPrefix(table, passed + [table[0]], diff - 1, m');
      }
    }
  }

  /** `advance` on a one-symbol identifier either keeps one symbol or, once the
      carry runs off the right end, leads with the table's last symbol. */
  lemma {:induction false} AdvanceSingle(table: seq<char>, x: char, i: nat)
    requires |table| > 0 && Distinct(table)
    ensures var r := Advanced(table, [x], i);
      |r| <= 1 || r[0] == Last(table)
  {
    if i > 0 {
      var n := SymbolIndex(table, x) + i;
      assert Advanced(table, [x], i) == Carry(table, [x], 0, i);
      if n >= |table| {
        var t := [x][0 := Last(table)] + [table[0]];
        assert Carry(table, [x], 0, i) == Advanced(table, t, n - |table|);
        AdvanceKeepsLastPrefix(table, t, n - |table|, 1);
      }
    }
  }

  /** The enumeration from "" is not the enumeration of all combinations: every
      identifier it reaches with two or more symbols starts with the table's last
      symbol, so with two or more symbols in the table it never reaches the
      identifier made of two first symbols ("aa" on the default table). */
  lemma {:induction false} AdvanceFromEmptyLeadsWithLast(table: seq<char>, i: nat)
    requires |table| > 0 && Distinct(table)
    ensures var r := Advanced(table, [], i);
      |r| >= 2 ==> r[0] == Last(table)
    ensures |table| >= 2 ==> Advanced(table, [], i) != [table[0], table[0]]
  {
    if i > 0 {
      assert Advanced(table, [], i) == Advanced(table, [table[0]], i - 1);
      AdvanceSingle(table, table[0], i - 1);
    }
  }

  /** `next()` is `Successor`: the carry run with count 1 turns every leading
      top-position symbol into the last symbol and moves the first other symbol one
      position up, appending the first symbol when there is no other. */
  lemma {:induction false} NextIsSuccessor(table: seq<char>, s: seq<char>)
    requires |table| > 0
    ensures Advanced(table, s, 1) == Successor(table, s)
  {
    if s != [] {
      CarryOne(table, s, 0, FirstNotLast(table, s));
    }
  }

  /** The carry run with count 1 from position `p`, where the positions before `p`
      already hold the last symbol and the first non-top symbol is at `k`. */
  lemma {:induction false} CarryOne(table: seq<char>, s: seq<char>, p: nat, k: nat)
    requires |table| > 0 && p < |s| && p <= k <= |s|
    requires forall j :: 0 <= j < p ==> s[j] == Last(table)
    requires forall j :: p <= j < k ==> SymbolIndex(table, s[j]) == |table| - 1
    requires k < |s| ==> SymbolIndex(table, s[k]) < |table| - 1
    ensures Carry(table, s, p, 1) ==
      if k < |s| then Repeat(Last(table), k) + [table[SymbolIndex(table, s[k]) + 1]] + s[k + 1..]
      else Repeat(Last(table), |s|) + [table[0]]
    decreases |s| - p
  {
    var passed := s[p := Last(table)];
    if p == k {
      assert s[p := table[SymbolIndex(table, s[p]) + 1]] ==
        Repeat(Last(table), k) + [table[SymbolIndex(table, s[k]) + 1]] + s[k + 1..];
    } else if p + 1 < |s| {
      CarryOne(table, passed, p + 1, k);
      if k < |s| {
        assert passed[k + 1..] == s[k + 1..];
      }
    } else {
      assert passed == Repeat(Last(table), |s|);
    }
  }

  // ---------------------------------------------------------------------------
  // regress
  // ---------------------------------------------------------------------------

  /** No borrow: when the rightmost symbol's position `x` is at least `i`, only that
      symbol changes, to `table[x - i]`. */
  lemma RegressWithoutBorrow(table: seq<char>, s: seq<char>, i: nat)
    requires |table| > 0 && s != [] && 0 < i <= SymbolIndex(table, s[|s| - 1])
    ensures Regressed(table, s, i).Ok?
    ensures var r := Regressed(table, s, i).value;
      |r| == |s| && r[..|s| - 1] == s[..|s| - 1] &&
      r[|s| - 1] == table[SymbolIndex(table, s[|s| - 1]) - i]
  {
    var r := s[|s| - 1 := table[SymbolIndex(table, s[|s| - 1]) - i]];
    assert r[..|s| - 1] == s[..|s| - 1];
  }

  /** `regress` aborts exactly when it has to borrow: a positive count larger than
      the rightmost symbol's position. */
  lemma RegressFailsIffBorrow(table: seq<char>, s: seq<char>, i: nat)
    requires |table| > 0
    ensures Regressed(table, s, i).Err? <==>
      (i > 0 && s != [] && SymbolIndex(table, s[|s| - 1]) < i)
  {
  }

  /** A `regress` that completes keeps the identifier's length, so it never yields
      the empty identifier from a non-empty one. */
  lemma RegressKeepsLength(table: seq<char>, s: seq<char>, i: nat)
    requires |table| > 0
    ensures Regressed(table, s, i).Ok? ==> |Regressed(table, s, i).value| == |s|
    ensures s != [] ==> Regressed(table, s, i) != Ok([])
  {
  }

  // ---------------------------------------------------------------------------
  // the documented examples
  // ---------------------------------------------------------------------------

  /** On the default table, `advance(1)` from "" gives "a", then `advance(2)` gives
      "c"; `advance(3)` from "" gives "c". */
  lemma AdvanceDocExamples()
    ensures Advanced(DEFAULT_TABLE, [], 1) == ['a']
    ensures Advanced(DEFAULT_TABLE, ['a'], 2) == ['c']
    ensures Advanced(DEFAULT_TABLE, [], 3) == ['c']
  {
    AdvanceFromEmpty(DEFAULT_TABLE, 1);
    AdvanceFromEmpty(DEFAULT_TABLE, 3);
    assert DEFAULT_TABLE[0] == 'a';
    SymbolIndexAt(DEFAULT_TABLE, 0);
  }

  /** With a table whose symbols are a, b, c, the first four calls of `next()`
      from "" walk through a, b, c, ca: the carry out of the last symbol
      appends the first one. */
  lemma NextWalkOnAbc(t: seq<char>)
    requires |t| == 3 && t[0] == 'a' && t[1] == 'b' && t[2] == 'c'
    ensures Advanced(t, [], 1) == ['a']
    ensures Advanced(t, ['a'], 1) == ['b']
    ensures Advanced(t, ['b'], 1) == ['c']
    ensures Advanced(t, ['c'], 1) == ['c', 'a']
  {
    SymbolIndexAt(t, 0);
    SymbolIndexAt(t, 1);
    SymbolIndexAt(t, 2);
    AdvanceFromEmpty(t, 1);
    assert Advanced(t, ['a'], 1) == ['b'] by { NextStepAt(t, ['a'], 0); }
    assert Advanced(t, ['b'], 1) == ['c'] by { NextStepAt(t, ['b'], 0); }
    assert Advanced(t, ['c'], 1) == ['c', 'a'] by {
      NextStepAt(t, ['c'], 1);
      assert Repeat('c', 1) == ['c'];
    }
  }

  /** The walk on a, b, c goes on with ca, cb, cc, cca, ccb: the leftmost symbol
      counts and a carry runs over the last symbols to the right. */
  lemma NextWalkOnAbcLonger(t: seq<char>)
    requires |t| == 3 && t[0] == 'a' && t[1] == 'b' && t[2] == 'c'
    ensures Advanced(t, ['c', 'a'], 1) == ['c', 'b']
    ensures Advanced(t, ['c', 'b'], 1) == ['c', 'c']
    ensures Advanced(t, ['c', 'c'], 1) == ['c', 'c', 'a']
    ensures Advanced(t, ['c', 'c', 'a'], 1) == ['c', 'c', 'b']
  {
    SymbolIndexAt(t, 0);
    SymbolIndexAt(t, 1);
    SymbolIndexAt(t, 2);
    assert Advanced(t, ['c', 'a'], 1) == ['c', 'b'] by {
      NextStepAt(t, ['c', 'a'], 1);
      assert Repeat('c', 1) == ['c'];
    }
    assert Advanced(t, ['c', 'b'], 1) == ['c', 'c'] by {
      NextStepAt(t, ['c', 'b'], 1);
      assert Repeat('c', 1) == ['c'];
    }
    assert Advanced(t, ['c', 'c'], 1) == ['c', 'c', 'a'] by {
      NextStepAt(t, ['c', 'c'], 2);
      assert Repeat('c', 2) == ['c', 'c'];
    }
    assert Advanced(t, ['c', 'c', 'a'], 1) == ['c', 'c', 'b'] by {
      NextStepAt(t, ['c', 'c', 'a'], 2);
      assert Repeat('c', 2) == ['c', 'c'];
    }
  }

  /** `NextIsSuccessor` at a known first non-top position `k`. */
  lemma NextStepAt(table: seq<char>, s: seq<char>, k: nat)
    requires |table| > 0 && k <= |s|
    requires forall j :: 0 <= j < k ==> SymbolIndex(table, s[j]) == |table| - 1
    requires k < |s| ==> SymbolIndex(table, s[k]) < |table| - 1
    ensures Advanced(table, s, 1) ==
      if k < |s| then Repeat(Last(table), k) + [table[SymbolIndex(table, s[k]) + 1]] + s[k + 1..]
      else Repeat(Last(table), |s|) + [table[0]]
  {
    NextIsSuccessor(table, s);
  }

  /** The documented `regress` example: "b" regressed by one gives "a"; but "a"
      regressed by one aborts instead of giving the documented "". */
  lemma RegressDocExamples()
    ensures Regressed(DEFAULT_TABLE, ['b'], 1) == Ok(['a'])
    ensures Regressed(DEFAULT_TABLE, ['a'], 1) == Err(TableIndexOutOfRange)
    ensures Regressed(DEFAULT_TABLE, ['a'], 1) != Ok([])
  {
    RegressOnAb(DEFAULT_TABLE);
  }

  /** `RegressDocExamples` for any table that starts with a, b. */
  lemma RegressOnAb(t: seq<char>)
    requires |t| >= 2 && t[0] == 'a' && t[1] == 'b'
    ensures Regressed(t, ['b'], 1) == Ok(['a'])
    ensures Regressed(t, ['a'], 1) == Err(TableIndexOutOfRange)
  {
    SymbolIndexAt(t, 0);
    SymbolIndexAt(t, 1);
    assert ['b'][0 := t[0]] == ['a'];
    assert Borrow(t, ['a'], -1) == TableIndexOutOfRange;
  }

  /** With the table "abc", regressing "cca" by one completes its borrow loop and
      then aborts in `replace_char`. */
  lemma RegressSpanUnderflowExample(t: seq<char>)
    requires |t| == 3 && t[0] == 'a' && t[1] == 'b' && t[2] == 'c'
    ensures Regressed(t, ['c', 'c', 'a'], 1) == Err(ReplaceSpanUnderflow)
  {
    SymbolIndexAt(t, 0);
    SymbolIndexAt(t, 2);
    assert Borrow(t, ['c', 'c', 'a'], -1) == ReplaceSpanUnderflow;
  }
}
