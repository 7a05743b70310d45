/** Symbol tables: the two built-in alphabets and the lookup of a symbol's position. */
module Tables {
  import opened Wrappers
  import opened Text

  /** The lower `snake_case` alphabet, in the source's order ('f' before 'e', no 'y'). */
  const DEFAULT_TABLE: seq<char> := [
    'a', 'b', 'c', 'd', 'f', 'e', 'g', 'h', 'i', 'j', 'k', 'l', 'm', 'n', 'o', 'p', 'q', 'r', 's',
    't', 'u', 'v', 'w', 'x', 'z', '_'
  ]

  /** The upper `SNAKE_CASE` alphabet, with the same order as `DEFAULT_TABLE`. */
  const UPPER_SNAKE: seq<char> := [
    'A', 'B', 'C', 'D', 'F', 'E', 'G', 'H', 'I', 'J', 'K', 'L', 'M',
    'N', 'O', 'P', 'Q', 'R', 'S', 'T', 'U', 'V', 'W', 'X', 'Z', '_'
  ]

  /** The table's last symbol: what a digit becomes when a carry passes it. */
  function Last(table: seq<char>): char
    requires |table| > 0
  {
    table[|table| - 1]
  }

  /** No symbol occurs twice. */
  predicate Distinct(table: seq<char>) {
    forall j, k :: 0 <= j < k < |table| ==> table[j] != table[k]
  }

  /** `Iterator::position`: the index of the first occurrence of `c`, if any. */
  function Position(table: seq<char>, c: char): (r: Option<nat>)
    ensures r.None? <==> c !in table
    ensures r.Some? ==> r.value < |table| && table[r.value] == c && c !in table[..r.value]
  {
    if table == [] then None
    else if table[0] == c then Some(0)
    else match Position(table[1..], c)
      case None => None
      case Some(k) =>
        assert table[..k + 1] == [table[0]] + table[1..][..k];
        Some(k + 1)
  }

  /** `position(..).unwrap_or(0)`: a symbol missing from the table counts as position 0. */
  function SymbolIndex(table: seq<char>, c: char): (k: nat)
    ensures |table| > 0 ==> k < |table|
    ensures c in table ==> table[k] == c && forall j :: 0 <= j < k ==> table[j] != c
    ensures c !in table ==> k == 0
  {
    match Position(table, c)
    case None => 0
    case Some(k) =>
      assert forall j :: 0 <= j < k ==> table[j] == table[..k][j];
      k
  }

  /** A symbol whose first occurrence is at `j` has index `j`. */
  lemma SymbolIndexAt(table: seq<char>, j: nat)
    requires j < |table| && forall k :: 0 <= k < j ==> table[k] != table[j]
    ensures SymbolIndex(table, table[j]) == j
  {
  }

  /** In a table without repeats, every symbol's index is its own position; in
      particular the last symbol sits at the top position. */
  lemma {:induction false} SymbolIndexOfDistinct(table: seq<char>, j: nat)
    requires Distinct(table) && j < |table|
    ensures SymbolIndex(table, table[j]) == j
  {
    SymbolIndexAt(table, j);
  }

  /** Both built-in tables hold 26 single-byte symbols. */
  lemma BuiltinTablesAscii()
    ensures |DEFAULT_TABLE| == 26 && |UPPER_SNAKE| == 26
    ensures IsAscii(DEFAULT_TABLE) && IsAscii(UPPER_SNAKE)
  {
  }

  /** No symbol repeats in either built-in table. */
  lemma BuiltinTablesDistinct()
    ensures Distinct(DEFAULT_TABLE)
    ensures Distinct(UPPER_SNAKE)
  {
  }

  /** The built-in tables leave out 'y' and 'Y', and the upper table mirrors the
      lower one position by position ('_' in both at the top position). */
  lemma UpperSnakeMirrorsDefault()
    ensures 'y' !in DEFAULT_TABLE && 'Y' !in UPPER_SNAKE
    ensures forall j :: 0 <= j < 25 ==> UPPER_SNAKE[j] as int + 32 == DEFAULT_TABLE[j] as int
    ensures Last(DEFAULT_TABLE) == Last(UPPER_SNAKE) == '_'
  {
  }
}
