/**
 * Python's `int(text)` in base 10, as `read_cell_value` applies it to the
 * text of a shared-string cell: surrounding whitespace is ignored, one
 * optional sign, then decimal digits where single underscores may separate
 * digits. Anything else is the ValueError case, here `None`.
 */
module Numerals {
  import opened Wrappers
  import opened Text

  function DigitValue(c: char): nat
    requires IsDigit(c)
  {
    c as int - '0' as int
  }

  function DigitChar(d: nat): (c: char)
    requires d < 10
    ensures IsDigit(c) && DigitValue(c) == d
  {
    ('0' as int + d) as char
  }

  predicate IsDigitOrUnderscore(c: char) {
    IsDigit(c) || c == '_'
  }

  /** The whitespace `int()` skips around its digits: space, tab, line feed,
      vertical tab, form feed and carriage return. Unlike `str.isspace` it
      leaves the separators 0x1C to 0x1F in place, so they make `int()` fail. */
  predicate IsIntSpace(c: char) {
    c == ' ' || '\t' <= c <= '\r'
  }

  /** The default of `sys.get_int_max_str_digits()` (CPython 3.11 and
      later): `int()` refuses a decimal text with more digits than this. */
  const MaxStrDigits: nat := 4300

  /** Digits with single underscores between them: `1`, `007`, `1_000`. */
  predicate IsDigitGroups(s: string) {
    && |s| > 0
    && IsDigit(s[0])
    && IsDigit(s[|s| - 1])
    && (forall i :: 0 <= i < |s| ==> IsDigitOrUnderscore(s[i]))
    && (forall i :: 0 <= i < |s| - 1 ==> !DoubleUnderscore(s, i))
  }

  /** How many digits `s` holds; leading zeros count, underscores do not. */
  function DigitCount(s: string): nat {
    if s == [] then 0
    else DigitCount(s[..|s| - 1]) + (if IsDigit(s[|s| - 1]) then 1 else 0)
  }

  /** The number the digits spell, underscores skipped. */
  function GroupsValue(s: string): nat
    requires forall i :: 0 <= i < |s| ==> IsDigitOrUnderscore(s[i])
  {
    if s == [] then 0
    else
      var p := GroupsValue(s[..|s| - 1]);
      assert IsDigitOrUnderscore(s[|s| - 1]);
      if s[|s| - 1] == '_' then p else 10 * p + DigitValue(s[|s| - 1])
  }

  function Abs(n: int): nat {
    if n < 0 then -n else n
  }

  function Pow10(k: nat): (r: nat)
    ensures r >= 1
  {
    if k == 0 then 1 else 10 * Pow10(k - 1)
  }

  /** `int(text)`: `Some(n)` when Python returns `n`, `None` when it raises. */
  function ParseInt(text: string): (r: Option<int>)
    ensures r.Some? ==> Trim(text, IsIntSpace) != []
    ensures r.Some? && r.value < 0 ==> Trim(text, IsIntSpace)[0] == '-'
    ensures r.Some? ==> Abs(r.value) < Pow10(MaxStrDigits)
  {
    ParseTrimmed(Trim(text, IsIntSpace))
  }

  /** What `int` reads from text with the surrounding whitespace gone: one
      optional sign, then the digits. */
  function ParseTrimmed(t: string): (r: Option<int>)
    ensures r.Some? ==> t != []
    ensures r.Some? && r.value < 0 ==> t[0] == '-'
    ensures r.Some? ==> Abs(r.value) < Pow10(MaxStrDigits)
  {
    if |t| > 0 && (t[0] == '+' || t[0] == '-') then ParseDigits(t[1..], t[0] == '-')
    else ParseDigits(t, false)
  }

  /** Digit groups of at most `MaxStrDigits` digits, negated after a minus. */
  function ParseDigits(body: string, negative: bool): (r: Option<int>)
    ensures r.Some? ==> body != []
    ensures r.Some? && r.value < 0 ==> negative
    ensures r.Some? ==> Abs(r.value) < Pow10(MaxStrDigits)
  {
    if !IsDigitGroups(body) || DigitCount(body) > MaxStrDigits then None
    else
      GroupsBound(body);
      PowMonotone(DigitCount(body), MaxStrDigits);
      Some(if negative then -(GroupsValue(body) as int) else GroupsValue(body))
  }

  /** A number written with `k` digits is below `10^k`. */
  lemma {:induction false} GroupsBound(s: string)
    requires forall i :: 0 <= i < |s| ==> IsDigitOrUnderscore(s[i])
    ensures GroupsValue(s) < Pow10(DigitCount(s))
  {
    if s != [] {
      GroupsBound(s[..|s| - 1]);
    }
  }

  lemma {:induction false} PowMonotone(j: nat, k: nat)
    requires j <= k
    ensures Pow10(j) <= Pow10(k)
    decreases k
  {
    if j < k {
      PowMonotone(j, k - 1);
    }
  }

  /** The decimal spelling of a natural number, no leading zeros. */
  function NatText(n: nat): (r: string)
    ensures |r| > 0
    ensures forall i :: 0 <= i < |r| ==> IsDigit(r[i])
  {
    if n < 10 then [DigitChar(n)] else NatText(n / 10) + [DigitChar(n % 10)]
  }

  /** The decimal spelling of an integer, as Python's `str(n)` writes it. */
  function IntText(n: int): string {
    if n < 0 then "-" + NatText(-n) else NatText(n)
  }

  lemma {:induction false} NatTextValue(n: nat)
    ensures IsDigitGroups(NatText(n))
    ensures GroupsValue(NatText(n)) == n
  {
    var s := NatText(n);
    if n >= 10 {
      NatTextValue(n / 10);
      assert s[..|s| - 1] == NatText(n / 10);
    }
  }

  /** All digits: every character counts. */
  lemma {:induction false} DigitCountAll(s: string)
    requires forall i :: 0 <= i < |s| ==> IsDigit(s[i])
    ensures DigitCount(s) == |s|
  {
    if s != [] {
      DigitCountAll(s[..|s| - 1]);
    }
  }

  /** The spelling of `n` fits in `k` digits exactly when `n < 10^k`. */
  lemma {:induction false} NatTextLength(n: nat, k: nat)
    requires k >= 1
    ensures |NatText(n)| <= k <==> n < Pow10(k)
  {
    if n >= 10 {
      if k == 1 {
        assert Pow10(1) == 10;
      } else {
        NatTextLength(n / 10, k - 1);
        assert n / 10 < Pow10(k - 1) <==> n < 10 * Pow10(k - 1);
      }
    } else {
      PowMonotone(1, k);
    }
  }

  /** Parsing the spelling of an integer gives that integer back, unless
      the spelling has more digits than `int()` accepts. */
  lemma ParseIntRoundTrip(n: int)
    ensures ParseInt(IntText(n)) ==
              if Abs(n) < Pow10(MaxStrDigits) then Some(n) else None
  {
    var s := IntText(n);
    assert TrimmedAt(s, s, 0, IsIntSpace);
    TrimOfTrimmed(s, s, 0, IsIntSpace);
    ParseSpelling(n);
  }

  lemma ParseSpelling(n: int)
    ensures ParseTrimmed(IntText(n)) ==
              if Abs(n) < Pow10(MaxStrDigits) then Some(n) else None
  {
    var s := IntText(n);
    SpellingDigits(Abs(n), n < 0);
    if n < 0 {
      assert s[0] == '-' && s[1..] == NatText(Abs(n));
    } else {
      assert s == NatText(Abs(n)) && IsDigit(s[0]);
    }
  }

  /** The digits of a spelling are read back as the number, as long as
      there are no more than `MaxStrDigits` of them, that is, as long as
      the number is below `10^MaxStrDigits`. */
  lemma SpellingDigits(m: nat, negative: bool)
    ensures ParseDigits(NatText(m), negative) ==
              if m < Pow10(MaxStrDigits) then Some(if negative then -(m as int) else m) else None
  {
    NatTextValue(m);
    DigitCountAll(NatText(m));
    NatTextLength(m, MaxStrDigits);
  }

  /** Surrounding whitespace does not change what `int` reads. */
  lemma ParseIntIgnoresPadding(text: string, pad: string)
    requires forall k :: 0 <= k < |pad| ==> IsIntSpace(pad[k])
    ensures ParseInt(pad + text + pad) == ParseInt(text)
  {
    TrimIgnoresPadding(text, pad, IsIntSpace);
  }

  /** The separators `str.isspace` accepts are not whitespace to `int()`:
      `int("\x1c5")` raises, although `"\x1c5".strip()` is `"5"`. */
  lemma ParseIntRejectsSeparator()
    ensures Strip("\U{1C}5") == "5"
    ensures ParseInt("\U{1C}5") == None
  {
    var s := "\U{1C}5";
    assert TrimmedAt(s, "5", 1, IsSpace);
    TrimOfTrimmed(s, "5", 1, IsSpace);
    assert TrimmedAt(s, s, 0, IsIntSpace);
    TrimOfTrimmed(s, s, 0, IsIntSpace);
  }
}
