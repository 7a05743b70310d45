/** The text layer of the generator: the identifier's UTF-8 bytes, the scan for
    character boundaries over them, and the replacement of one symbol. */
module Text {
  import opened Wrappers

  /** Every symbol of `s` is encoded in UTF-8 as a single byte. */
  predicate IsAscii(s: seq<char>) {
    forall j :: 0 <= j < |s| ==> s[j] as int < 0x80
  }

  /** A prefix of an ASCII text is ASCII. */
  lemma AsciiPrefix(s: seq<char>, m: nat)
    requires IsAscii(s) && m <= |s|
    ensures IsAscii(s[..m])
  {
  }

  /** Writing or appending an ASCII symbol keeps a text ASCII. */
  lemma AsciiUpdate(s: seq<char>, k: nat, c: char)
    requires IsAscii(s) && k <= |s| && c as int < 0x80
    ensures k < |s| ==> IsAscii(s[k := c])
    ensures IsAscii(s + [c])
  {
  }

  /** A byte of UTF-8 text. */
  newtype byte = x: int | 0 <= x < 0x100

  /** The UTF-8 encoding of an ASCII text: one byte per symbol, equal to its
      code point. No byte is a continuation byte, so every offset from 0 to the
      length is a character boundary. */
  function AsciiBytes(s: seq<char>): (b: seq<byte>)
    requires IsAscii(s)
    ensures |b| == |s|
    ensures forall j :: 0 <= j <= |s| ==> IsCharBoundary(b, j)
  {
    var b := seq(|s|, j requires 0 <= j < |s| => s[j] as int as byte);
    assert forall j :: 0 <= j < |s| ==> b[j] as int == s[j] as int < 0x80;
    b
  }

  /** `str::is_char_boundary`: index 0, the length, or an index whose byte is not a
      UTF-8 continuation byte (0x80 to 0xBF). Indexes past the end are not boundaries. */
  predicate IsCharBoundary(b: seq<byte>, j: int) {
    j == 0 || j == |b| || (0 < j < |b| && !(0x80 <= b[j] <= 0xBF))
  }

  /** `j` is the first boundary after `index`. */
  predicate IsNextBoundary(b: seq<byte>, index: int, j: int) {
    index < j <= |b| && IsCharBoundary(b, j) &&
    forall k :: index < k < j ==> !IsCharBoundary(b, k)
  }

  /** `j` is the last boundary before `index`. */
  predicate IsPrevBoundary(b: seq<byte>, index: int, j: int) {
    0 <= j < index && IsCharBoundary(b, j) &&
    forall k :: j < k < index ==> !IsCharBoundary(b, k)
  }

  /** `char_boundary`: steps `index` by one in the chosen direction until it reaches a
      boundary; gives up when the step underflows or the index passes the end. */
  method CharBoundary(b: seq<byte>, index: nat, forward: bool) returns (r: Option<nat>)
    ensures forward ==> (r.None? <==> index >= |b|)
    ensures forward && r.Some? ==> IsNextBoundary(b, index, r.value)
    ensures !forward ==> (r.None? <==> index == 0 || index > |b| + 1)
    ensures !forward && r.Some? ==> IsPrevBoundary(b, index, r.value)
  {
    var idx := index;
    while true
      invariant forward ==> index <= idx && (idx == index || idx < |b|)
      invariant forward ==> forall k :: index < k <= idx ==> !IsCharBoundary(b, k)
      invariant !forward ==> idx <= index && (idx == index || (0 < idx <= |b| && index <= |b| + 1))
      invariant !forward ==> forall k :: idx <= k < index ==> !IsCharBoundary(b, k)
      decreases if forward then |b| + 1 - idx else idx
    {
      if forward {
        idx := idx + 1;
      } else {
        if idx == 0 {
          return None;
        }
        idx := idx - 1;
      }
      if |b| < idx {
        return None;
      }
      if IsCharBoundary(b, idx) {
        return Some(idx);
      }
    }
  }

  /** `next_char_boundary`: the first boundary after `index`. */
  method NextCharBoundary(b: seq<byte>, index: nat) returns (r: Option<nat>)
    ensures r.None? <==> index >= |b|
    ensures r.Some? ==> IsNextBoundary(b, index, r.value)
  {
    r := CharBoundary(b, index, true);
  }

  /** `prev_char_boundary`: the last boundary before `index`. */
  method PrevCharBoundary(b: seq<byte>, index: nat) returns (r: Option<nat>)
    ensures r.None? <==> index == 0 || index > |b| + 1
    ensures r.Some? ==> IsPrevBoundary(b, index, r.value)
  {
    r := CharBoundary(b, index, false);
  }

  /** In an ASCII text every index up to the length is a boundary, so the scan
      forward from `index` stops at `index + 1`. */
  lemma AsciiNextBoundary(s: seq<char>, index: nat, j: nat)
    requires IsAscii(s) && IsNextBoundary(AsciiBytes(s), index, j)
    ensures j == index + 1
  {
    assert IsCharBoundary(AsciiBytes(s), index + 1);
  }

  /** In an ASCII text the scan backward from `index` stops at `index - 1`. */
  lemma AsciiPrevBoundary(s: seq<char>, index: nat, j: nat)
    requires IsAscii(s) && index <= |s| + 1 && IsPrevBoundary(AsciiBytes(s), index, j)
    ensures j == index - 1
  {
    assert IsCharBoundary(AsciiBytes(s), index - 1);
  }

  /** `replace_char` on a text whose symbols are single bytes: the span
      `start..end` holds at most one symbol. The length `end - start` underflows
      when `start > end`; an empty span takes zero bytes of the new symbol and
      leaves the text as it was; a one-symbol span is overwritten by `ch`. */
  function ReplaceChar(s: seq<char>, start: nat, end: nat, ch: char): (r: Option<seq<char>>)
    requires end <= |s| && end <= start + 1
    ensures r.None? <==> start > end
    ensures start == end ==> r == Some(s)
    ensures start < end ==> r.Some? && r.value == s[start := ch]
  {
    if start > end then None
    else if start == end then Some(s)
    else Some(s[..start] + [ch] + s[end..])
  }
}
