/**
 * The column-index codec: a 1-based column index and its spreadsheet
 * letters (A = 1, ..., Z = 26, AA = 27, ...), a bijective base-26 numeral
 * whose digits are the letters 'A'..'Z' with values 1..26, most
 * significant digit first.
 */
module ColumnCodec {

  /** An upper-case ASCII letter, a digit of a column name. */
  predicate IsLetter(c: char) {
    'A' <= c <= 'Z'
  }

  /** A string made of column-name digits only (possibly empty). */
  predicate AllLetters(s: string) {
    forall i :: 0 <= i < |s| ==> IsLetter(s[i])
  }

  /** A well-formed column name: at least one digit, all digits letters. */
  predicate IsColumnName(s: string) {
    |s| > 0 && AllLetters(s)
  }

  /** The value 1..26 of one digit. */
  function DigitValue(c: char): (v: int)
    requires IsLetter(c)
    ensures 1 <= v <= 26
  {
    c as int - 'A' as int + 1
  }

  /** The digit whose value is rem + 1. */
  function Digit(rem: int): (c: char)
    requires 0 <= rem < 26
    ensures IsLetter(c) && DigitValue(c) == rem + 1
  {
    (65 + rem) as char
  }

  /**
   * Decoder: the column index a column name stands for, reading the
   * digits most significant first. The empty string decodes to 0.
   */
  function ColumnNumber(s: string): (n: nat)
    requires AllLetters(s)
    ensures (n == 0) <==> (s == [])
  {
    if s == [] then 0
    else ColumnNumber(s[..|s| - 1]) * 26 + DigitValue(s[|s| - 1])
  }

  /**
   * Encoder, the recursive reading of get_column_letter: the last digit
   * is (idx - 1) mod 26, the digits before it encode (idx - 1) div 26,
   * and any index below 1 gives the empty string.
   */
  function ColumnLetters(idx: int): (r: string)
    decreases idx
    ensures idx < 1 ==> r == ""
    ensures idx >= 1 ==> IsColumnName(r)
  {
    if idx < 1 then ""
    else ColumnLetters((idx - 1) / 26) + [Digit((idx - 1) % 26)]
  }

  /** Decoding the letters of any index of at least 1 gives the index back. */
  lemma {:induction false} DecodeEncode(idx: int)
    requires idx >= 1
    ensures ColumnNumber(ColumnLetters(idx)) == idx
  {
    var q, rem := (idx - 1) / 26, (idx - 1) % 26;
    var s := ColumnLetters(idx);
    assert s == ColumnLetters(q) + [Digit(rem)];
    assert s[..|s| - 1] == ColumnLetters(q);
    if q >= 1 {
      DecodeEncode(q);
    }
    assert ColumnNumber(ColumnLetters(q)) == q;
  }

  /** Dividing m * 26 + d by 26 gives back m and the digit d. */
  lemma DivModDigit(m: int, d: int)
    requires 0 <= d < 26
    ensures (m * 26 + d) / 26 == m && (m * 26 + d) % 26 == d
  {
  }

  /** Every column name is the encoding of the index it decodes to. */
  lemma {:induction false} EncodeDecode(s: string)
    requires IsColumnName(s)
    ensures ColumnNumber(s) >= 1
    ensures ColumnLetters(ColumnNumber(s)) == s
  {
    var p, last := s[..|s| - 1], s[|s| - 1];
    assert AllLetters(p);
    var m := ColumnNumber(p);
    var n := ColumnNumber(s);
    assert n == m * 26 + DigitValue(last);
    DivModDigit(m, DigitValue(last) - 1);
    if p != [] {
      EncodeDecode(p);
    }
    assert ColumnLetters(m) == p;
    assert Digit(DigitValue(last) - 1) == last;
    assert s == p + [last];
  }

  /** Distinct indices of at least 1 have distinct column names. */
  lemma ColumnLettersInjective(i: int, j: int)
    requires i >= 1 && j >= 1
    requires ColumnLetters(i) == ColumnLetters(j)
    ensures i == j
  {
    DecodeEncode(i);
    DecodeEncode(j);
  }

  /** Concrete values of the codec, including indices below 1. */
  lemma ColumnLettersExamples()
    ensures ColumnLetters(1) == "A"
    ensures ColumnLetters(26) == "Z"
    ensures ColumnLetters(27) == "AA"
    ensures ColumnLetters(52) == "AZ"
    ensures ColumnLetters(703) == "AAA"
    ensures ColumnLetters(0) == ""
    ensures ColumnLetters(-5) == ""
  {
    assert ColumnLetters(1) == ColumnLetters(0) + "A";
    assert ColumnLetters(26) == ColumnLetters(0) + "Z";
    assert ColumnLetters(27) == ColumnLetters(1) + "A";
    assert ColumnLetters(52) == ColumnLetters(1) + "Z";
    assert ColumnLetters(703) == ColumnLetters(27) + "A";
  }

  /**
   * get_column_letter: below 1 the empty string; otherwise the loop takes
   * divmod(idx - 1, 26) and prepends the letter of the remainder until the
   * index reaches zero.
   */
  method GetColumnLetter(idx: int) returns (res: string)
    ensures res == ColumnLetters(idx)
    ensures idx < 1 ==> res == ""
    ensures idx >= 1 ==> IsColumnName(res) && ColumnNumber(res) == idx
  {
    if idx < 1 {
      return "";
    }
    res := "";
    var i := idx;
    while i != 0
      invariant 0 <= i
      invariant ColumnLetters(i) + res == ColumnLetters(idx)
      decreases i
    {
      var rem := (i - 1) % 26;
      i := (i - 1) / 26;
      res := [Digit(rem)] + res;
    }
    DecodeEncode(idx);
  }
}
