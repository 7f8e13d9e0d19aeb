/**
 * Column labels of a worksheet (`A`, `B`, ..., `Z`, `AA`, ...) and the cell
 * references (`B7`) they start: bijective base 26 with `A` = 1, shifted to a
 * zero-based column index.
 */
module Columns {
  import opened Wrappers
  import opened Text
  import Numerals

  /** `ord(c.upper()) - 64`: 1 for `A`/`a`, 26 for `Z`/`z`. */
  function LetterValue(c: char): int {
    LowerToUpper(c) as int - 64
  }

  function LowerToUpper(c: char): char {
    if IsLower(c) then (c as int - 32) as char else c
  }

  /** A column label: one or more upper-case ASCII letters. */
  predicate IsColumnLabel(s: string) {
    |s| > 0 && forall i :: 0 <= i < |s| ==> IsUpper(s[i])
  }

  /** The accumulator of the conversion loop after reading all of `letters`. */
  function LabelValue(letters: string): (r: int)
    ensures (forall i :: 0 <= i < |letters| ==> IsUpper(letters[i])) ==> r >= 0
    ensures IsColumnLabel(letters) ==> r >= 1
  {
    if letters == [] then 0
    else 26 * LabelValue(letters[..|letters| - 1]) + LetterValue(letters[|letters| - 1])
  }

  /** `column_letters_to_index`: zero-based index of a column label. */
  function ColumnIndex(letters: string): (r: int)
    ensures IsColumnLabel(letters) ==> r >= 0
  {
    LabelValue(letters) - 1
  }

  /** Appending a letter shifts the label one base-26 place up. */
  lemma ColumnIndexAppend(letters: string, c: char)
    requires IsUpper(c)
    ensures ColumnIndex(letters + [c]) == 26 * (ColumnIndex(letters) + 1) + (c as int - 64) - 1
  {
    assert (letters + [c])[..|letters|] == letters;
  }

  lemma ColumnIndexExamples()
    ensures ColumnIndex("A") == 0 && ColumnIndex("Z") == 25
    ensures ColumnIndex("AA") == 26 && ColumnIndex("AZ") == 51 && ColumnIndex("BA") == 52
  {
    assert "AA"[..1] == "A";
    assert "AZ"[..1] == "A";
    assert "BA"[..1] == "B";
  }

  /** Bijective base-26 spelling of a positive number (`1` is `A`). */
  function LabelOf(m: nat): (r: string)
    requires m >= 1
    ensures IsColumnLabel(r)
    decreases m
  {
    var q := (m - 1) / 26;
    var d := (m - 1) % 26;
    (if q == 0 then [] else LabelOf(q)) + [(65 + d) as char]
  }

  /** The label of the zero-based column `index`; the inverse of `ColumnIndex`. */
  function ColumnLabel(index: nat): (r: string)
    ensures IsColumnLabel(r)
  {
    LabelOf(index + 1)
  }

  lemma {:induction false} LabelOfValue(m: nat)
    requires m >= 1
    ensures LabelValue(LabelOf(m)) == m
    decreases m
  {
    var q := (m - 1) / 26;
    var s := LabelOf(m);
    var prefix := if q == 0 then [] else LabelOf(q);
    assert s[..|s| - 1] == prefix;
    if q != 0 {
      LabelOfValue(q);
    }
  }

  lemma {:induction false} ValueLabelOf(s: string)
    requires IsColumnLabel(s)
    ensures LabelOf(LabelValue(s)) == s
    decreases |s|
  {
    var p := s[..|s| - 1];
    var c := s[|s| - 1];
    var v := LabelValue(p);
    var d := c as int - 64;
    assert LowerToUpper(c) == c;
    assert LabelValue(s) == 26 * v + d;
    LabelOfStep(v, d);
    if p != [] {
      assert IsColumnLabel(p);
      ValueLabelOf(p);
    }
    assert (64 + d) as char == c;
    assert s == p + [c];
  }

  /** Spelling `26 * v + d` writes the spelling of `v`, then letter `d`. */
  lemma LabelOfStep(v: nat, d: int)
    requires 1 <= d <= 26
    ensures LabelOf(26 * v + d) == (if v == 0 then [] else LabelOf(v)) + [(64 + d) as char]
  {
    var m := 26 * v + d;
    assert (m - 1) / 26 == v && (m - 1) % 26 == d - 1;
  }

  /** Every column index has exactly one label: the two conversions are inverse. */
  lemma ColumnLabelRoundTrip(index: nat)
    ensures ColumnIndex(ColumnLabel(index)) == index
  {
    LabelOfValue(index + 1);
  }

  lemma ColumnIndexRoundTrip(letters: string)
    requires IsColumnLabel(letters)
    ensures ColumnLabel(ColumnIndex(letters)) == letters
  {
    ValueLabelOf(letters);
  }

  /** Length of the longest prefix of upper-case letters. */
  function UpperPrefix(s: string): (n: nat)
    ensures n <= |s|
    ensures forall i :: 0 <= i < n ==> IsUpper(s[i])
    ensures n < |s| ==> !IsUpper(s[n])
  {
    if s != [] && IsUpper(s[0]) then 1 + UpperPrefix(s[1..]) else 0
  }

  /**
   * The column of a cell reference, as `iter_sheet_rows` finds it: a missing
   * or empty reference, or one that does not start with letters followed by
   * a digit, gives `None` and the cell is skipped.
   */
  function RefColumn(reference: Option<string>): (r: Option<nat>)
    ensures r.Some? ==> reference.Some? && |reference.value| >= 2
    ensures r.Some? <==> reference.Some? && 0 < UpperPrefix(reference.value) < |reference.value|
                         && IsDigit(reference.value[UpperPrefix(reference.value)])
    ensures r.Some? ==> r.value == ColumnIndex(reference.value[..UpperPrefix(reference.value)])
  {
    match reference
    case None => None
    case Some(s) =>
      if s == [] then None
      else
        var n := UpperPrefix(s);
        if 0 < n < |s| && IsDigit(s[n]) then
          assert IsColumnLabel(s[..n]);
          Some(ColumnIndex(s[..n]) as nat)
        else None
  }

  /** The reference a spreadsheet writes for column `index` of row `row`
      (`B7`) leads back to that column. */
  lemma RefColumnOfLabel(index: nat, row: nat)
    ensures RefColumn(Some(ColumnLabel(index) + Numerals.NatText(row))) == Some(index)
  {
    var prefix := ColumnLabel(index);
    var s := prefix + Numerals.NatText(row);
    UpperPrefixOf(prefix, Numerals.NatText(row));
    assert s[..|prefix|] == prefix;
    ColumnLabelRoundTrip(index);
  }

  lemma {:induction false} UpperPrefixOf(prefix: string, rest: string)
    requires IsColumnLabel(prefix)
    requires rest != [] && !IsUpper(rest[0])
    ensures UpperPrefix(prefix + rest) == |prefix|
    decreases |prefix|
  {
    var s := prefix + rest;
    if |prefix| > 1 {
      assert s[1..] == prefix[1..] + rest;
      UpperPrefixOf(prefix[1..], rest);
    } else {
      assert s[1..] == rest;
    }
  }
}
