/** The identifier generator: a table of symbols and the current identifier,
    moved forward by `Advance` and backward by `Regress`. */
module Generator {
  import opened Wrappers
  import opened Text
  import opened Tables
  import opened Enumeration

  /** The range of `isize`, the type of `letter_by`'s argument. */
  const ISIZE_MIN: int := -0x8000_0000_0000_0000
  const ISIZE_MAX: int := 0x7FFF_FFFF_FFFF_FFFF

  class IdentGen {
    /** The current identifier, one symbol per element. */
    var ident: seq<char>
    /** The alphabet, never empty. */
    var table: seq<char>

    /** The table is never empty, and every symbol is a single UTF-8 byte, so
        byte offsets into the identifier are symbol positions. */
    ghost predicate Valid()
      reads this
    {
      |table| > 0 && IsAscii(table) && IsAscii(ident)
    }

    /** `new`: an empty identifier over the given table, or over `DEFAULT_TABLE`
        when the given one is empty. */
    constructor (table: seq<char>)
      requires IsAscii(table)
      ensures Valid()
      ensures ident == []
      ensures this.table == if table == [] then DEFAULT_TABLE else table
    {
      BuiltinTablesAscii();
      ident := [];
      this.table := if table == [] then DEFAULT_TABLE else table;
    }

    /** `Default`: `new` with the empty table. */
    constructor Default()
      ensures Valid()
      ensures ident == [] && table == DEFAULT_TABLE
    {
      BuiltinTablesAscii();
      ident := [];
      table := DEFAULT_TABLE;
    }

    /** `set_table`: refuses an empty table and changes nothing; otherwise
        replaces the table and leaves the identifier as it is. */
    method SetTable(table: seq<char>) returns (ok: bool)
      requires Valid() && IsAscii(table)
      modifies this
      ensures Valid()
      ensures ok <==> table != []
      ensures this.table == if ok then table else old(this.table)
      ensures ident == old(ident)
    {
      if table == [] {
        ok := false;
      } else {
        this.table := table;
        ok := true;
      }
    }

    /** `table`: the current table, which is never empty. */
    function Table(): (t: seq<char>)
      reads this
      requires Valid()
      ensures |t| > 0 && t == table
    {
      table
    }

    /** `clear`: empties the identifier and keeps the table. */
    method Clear()
      requires Valid()
      modifies this
      ensures Valid()
      ensures ident == [] && table == old(table)
    {
      ident := [];
    }

    /** `next`: `advance(1)`. */
    method Next() returns (r: seq<char>)
      requires Valid()
      modifies this
      ensures Valid() && table == old(table)
      ensures ident == Advanced(table, old(ident), 1) && r == ident
    {
      r := Advance(1);
    }

    /** `prev`: `regress(1)`. */
    method Prev() returns (r: Result<seq<char>, Panic>)
      requires Valid()
      modifies this
      ensures Valid() && table == old(table)
      ensures r == Regressed(table, old(ident), 1)
      ensures r.Ok? ==> ident == r.value
      ensures r.Err? ==> |ident| < |old(ident)| && ident == old(ident)[..|ident|]
    {
      r := Regress(1);
    }

    /** `letter_by`: `advance(i)` for a positive `i`, otherwise `regress(-i)`. */
    method LetterBy(i: int) returns (r: Result<seq<char>, Panic>)
      requires Valid() && ISIZE_MIN < i <= ISIZE_MAX
      modifies this
      ensures Valid() && table == old(table)
      ensures r == if i > 0 then Ok(Advanced(table, old(ident), i)) else Regressed(table, old(ident), -i)
      ensures r.Ok? ==> ident == r.value
      ensures r.Err? ==> |ident| < |old(ident)| && ident == old(ident)[..|ident|]
    {
      if i > 0 {
        var s := Advance(i);
        r := Ok(s);
      } else {
        r := Regress(-i);
      }
    }

    /** `advance`: moves the identifier `i` steps forward. The leftmost symbol
        takes the count; every overflowing symbol becomes the table's last symbol
        and passes `n - |table| + 1` to the symbol on its right; past the right
        end, the table's first symbol is appended and `advance` restarts with one
        less than what was passed. */
    method Advance(i: nat) returns (r: seq<char>)
      requires Valid()
      modifies this
      ensures Valid() && table == old(table)
      ensures ident == Advanced(table, old(ident), i) && r == ident
      decreases i
    {
      if i == 0 {
        return ident;
      }
      if ident == [] {
        ident := ident + [table[0]];
        assert ident == [table[0]];
        assert Advanced(table, [], i) == Advanced(table, [table[0]], i - 1);
        r := Advance(i - 1);
        return;
      }
      var index := 0;
      var n := SymbolIndex(table, ident[0]) + i;
      var nextChar := NextCharBoundary(AsciiBytes(ident), index);
      AsciiNextBoundary(ident, index, nextChar.value);
      var len := if nextChar.Some? then nextChar.value else |ident|;
      var restart;
      ident, index, len, n, restart := CarryLoop(table, ident, i, n, nextChar, len);
      if restart.Some? {
        AsciiUpdate(ident, |ident|, table[0]);
        ident := ident + [table[0]];
        r := Advance(restart.value - 1);
        return;
      }
      ident := ReplaceChar(ident, index, len, table[n]).value;
      r := ident;
    }

    /** `regress`: moves the rightmost symbol `i` positions down when it can.
        Otherwise it enters the borrow loop, which pops symbols and always ends
        in an abort: either it breaks with a negative `n` that then indexes the
        table, or it leaves with a replacement span that starts past its end. On
        an abort the identifier has lost its popped symbols. */
    method Regress(i: nat) returns (r: Result<seq<char>, Panic>)
      requires Valid()
      modifies this
      ensures Valid() && table == old(table)
      ensures r == Regressed(table, old(ident), i)
      ensures r.Ok? ==> ident == r.value
      ensures r.Err? ==> |ident| < |old(ident)| && ident == old(ident)[..|ident|]
    {
      if i == 0 {
        return Ok(ident);
      }
      if ident == [] {
        return Ok(ident);
      }
      ghost var s0 := ident;
      var n: int := SymbolIndex(table, ident[|ident| - 1]) - i;
      var prevChar := PrevCharBoundary(AsciiBytes(ident), |ident|);
      AsciiPrevBoundary(ident, |ident|, prevChar.value);
      var index := if prevChar.Some? then prevChar.value else 0;
      var len := |ident|;
      ident, n, index, len := BorrowLoop(table, ident, n, prevChar, index, len);
      if n < 0 {
        return Err(TableIndexOutOfRange);
      }
      var replaced := ReplaceChar(ident, index, len, table[n]);
      if replaced.None? {
        return Err(ReplaceSpanUnderflow);
      }
      ident := replaced.value;
      AsciiUpdate(s0, |s0| - 1, table[n]);
      r := Ok(ident);
    }
  }

  /** The `while n >= table.len()` loop of `advance` over the identifier `s0`,
      entered with `n0` the leftmost symbol's index plus the step and with the
      boundary state of the leftmost symbol. Every overflowing symbol becomes
      the table's last symbol. The loop ends either with `n` inside the table
      and the span `index..len` the symbol that takes it, or, past the right
      end, with `restart` holding the `diff` that `advance` starts over from
      after appending the table's first symbol. Either way it has done exactly
      the part of `Advanced` that precedes that last step. */
  method CarryLoop(t: seq<char>, s0: seq<char>, i: nat, n0: nat, nextChar0: Option<nat>, len0: nat)
    returns (s: seq<char>, index: nat, len: nat, n: nat, restart: Option<nat>)
    requires |t| > 0 && IsAscii(t) && IsAscii(s0) && |s0| > 0 && i > 0
    requires n0 == SymbolIndex(t, s0[0]) + i
    requires nextChar0 == Some(1) && len0 == 1
    ensures IsAscii(s) && |s| == |s0|
    ensures restart.None? ==>
      n < |t| && index < |s| && len == index + 1 &&
      Advanced(t, s0, i) == s[index := t[n]]
    ensures restart.Some? ==>
      0 < restart.value <= i &&
      Advanced(t, s0, i) == Advanced(t, s + [t[0]], restart.value - 1)
  {
    s, index, len, n := s0, 0, len0, n0;
    var nextChar := nextChar0;
    ghost var carry: nat := i;
    while n >= |t|
      invariant IsAscii(s)
      invariant |s| == |s0| && index <= |s|
      invariant n < |t| + i
      invariant index < |s| ==>
        nextChar == Some(index + 1) && len == index + 1 &&
        n == SymbolIndex(t, s[index]) + carry &&
        Advanced(t, s0, i) == Carry(t, s, index, carry)
      invariant index == |s| ==>
        nextChar.None? && len == |s| && n >= |t| &&
        Advanced(t, s0, i) == Advanced(t, s + [t[0]], n - |t|)
      decreases |s| - index
    {
      AsciiUpdate(s, index, Last(t));
      s := ReplaceChar(s, index, len, Last(t)).value;
      var diff := n - |t| + 1;
      if nextChar.Some? {
        index := nextChar.value;
        nextChar := NextCharBoundary(AsciiBytes(s), index);
        if nextChar.Some? {
          AsciiNextBoundary(s, index, nextChar.value);
        }
        len := if nextChar.Some? then nextChar.value else |s|;
        var rest := s[index..];
        if rest == [] {
          continue;
        }
        n := SymbolIndex(t, rest[0]) + diff;
        carry := diff;
      } else {
        return s, index, len, n, Some(diff);
      }
    }
    restart := None;
  }

  /** The `while n < 0` loop of `regress` over the identifier `s0`, entered
      with `n0` the rightmost symbol's index minus the step and with the
      boundary state of the whole identifier; it returns the identifier left
      after its pops together with `n`, `index` and `len`. When `n0` is
      non-negative nothing changes and the span is the rightmost symbol.
      Otherwise at least one symbol is popped, and the loop ends either with `n`
      still negative, the outcome `Borrow` names `TableIndexOutOfRange`, or
      with a span that starts one past its end, the outcome `Borrow` names
      `ReplaceSpanUnderflow`. */
  method BorrowLoop(table: seq<char>, s0: seq<char>, n0: int, prevChar0: Option<nat>, index0: nat, len0: nat)
    returns (s: seq<char>, n: int, index: nat, len: nat)
    requires |table| > 0 && IsAscii(s0) && |s0| > 0 && n0 < |table|
    requires prevChar0 == Some(|s0| - 1) && index0 == |s0| - 1 && len0 == |s0|
    ensures IsAscii(s) && n < |table| && len <= |s| && len <= index + 1
    ensures n0 >= 0 ==> n == n0 && s == s0 && index == index0 && len == len0
    ensures n0 < 0 ==> |s| < |s0| && s == s0[..|s|]
    ensures n0 < 0 && n < 0 ==> Borrow(table, s0, n0) == TableIndexOutOfRange
    ensures n0 < 0 && n >= 0 ==> Borrow(table, s0, n0) == ReplaceSpanUnderflow && index == len + 1
  {
    s, n, index, len := s0, n0, index0, len0;
    var prevChar := prevChar0;
    ghost var popped := false;
    while n < 0
      invariant IsAscii(s)
      invariant 1 <= |s| <= |s0| && s == s0[..|s|]
      invariant prevChar == Some(|s| - 1)
      invariant n < |table|
      invariant !popped ==> n == n0 && s == s0 && index == index0 && len == len0
      invariant popped ==> n0 < 0 && |s| < |s0| && index == |s| && len == |s| - 1
      invariant n < 0 ==> Borrow(table, s0, n0) == Borrow(table, s, n)
      invariant popped && n >= 0 ==> Borrow(table, s0, n0) == ReplaceSpanUnderflow
      decreases |s|
    {
      ghost var before := s;
      s := s[..|s| - 1];
      AsciiPrefix(before, |s|);
      assert s == s0[..|s|];
      if prevChar.Some? {
        index := prevChar.value;
        prevChar := PrevCharBoundary(AsciiBytes(s), index);
        if prevChar.Some? {
          AsciiPrevBoundary(s, index, prevChar.value);
        }
        len := if prevChar.Some? then prevChar.value else 0;
        var rest := s[..len];
        if rest == [] {
          assert |before| <= 2;
          break;
        }
        assert len == index - 1 == |s| - 1 && |rest| == len;
        assert rest[|rest| - 1] == s[|s| - 2] == before[|before| - 3];
        BorrowStep(table, before, n);
        n := SymbolIndex(table, rest[|rest| - 1]) + n;
        popped := true;
      } else {
        break;
      }
    }
  }

  /** The documented examples, checked against the class's contracts. */
  method DocExamples() {
    var gen := new IdentGen.Default();
    AdvanceDocExamples();
    var s := gen.Advance(1);
    assert s == ['a'];
    s := gen.Advance(2);
    assert s == ['c'];
    gen.Clear();
    s := gen.Advance(3);
    assert s == ['c'];
    RegressDocExamples();
    gen.Clear();
    s := gen.Advance(2);
    AdvanceFromEmpty(DEFAULT_TABLE, 2);
    var back := gen.Regress(1);
    assert back == Ok(['a']);
  }
}
