/**
 * The few string builtins the outreach script leans on (`str.strip`,
 * `str.lower`), restricted to ASCII.
 */
module Text {

  /** `str.isspace` on ASCII: space, tab, line feed, vertical tab, form feed,
      carriage return and the separators 0x1C to 0x1F. */
  predicate IsSpace(c: char) {
    c == ' ' || '\t' <= c <= '\r' || '\U{1C}' <= c <= '\U{1F}'
  }

  predicate IsDigit(c: char) {
    '0' <= c <= '9'
  }

  predicate IsUpper(c: char) {
    'A' <= c <= 'Z'
  }

  predicate IsLower(c: char) {
    'a' <= c <= 'z'
  }

  function LowerChar(c: char): char {
    if IsUpper(c) then (c as int + 32) as char else c
  }

  /** `str.lower` on ASCII letters; every other character is kept. */
  function Lower(s: string): (r: string)
    ensures |r| == |s|
    ensures forall i :: 0 <= i < |s| ==> r[i] == LowerChar(s[i])
    ensures forall i :: 0 <= i < |s| ==> !IsUpper(r[i]) && (IsUpper(s[i]) || r[i] == s[i])
  {
    seq(|s|, i requires 0 <= i < |s| => LowerChar(s[i]))
  }

  /** Positions `i` and `i + 1` both hold an underscore. */
  predicate DoubleUnderscore(s: string, i: int)
    requires 0 <= i < |s| - 1
  {
    s[i] == '_' && s[i + 1] == '_'
  }

  /** Where `s` starts once the characters in `strip` are skipped from `i` on. */
  function SkipFront(s: string, i: nat, strip: char -> bool): (j: nat)
    requires i <= |s|
    ensures i <= j <= |s|
    ensures forall k :: i <= k < j ==> strip(s[k])
    ensures j < |s| ==> !strip(s[j])
    decreases |s| - i
  {
    if i < |s| && strip(s[i]) then SkipFront(s, i + 1, strip) else i
  }

  /** Where `s[lo..j]` ends once the characters in `strip` are dropped from its end. */
  function SkipBack(s: string, lo: nat, j: nat, strip: char -> bool): (e: nat)
    requires lo <= j <= |s|
    ensures lo <= e <= j
    ensures forall k :: e <= k < j ==> strip(s[k])
    ensures e > lo ==> !strip(s[e - 1])
  {
    if j > lo && strip(s[j - 1]) then SkipBack(s, lo, j - 1, strip) else j
  }

  /** Neither end of `r` is a character in `strip`. */
  predicate EndsClear(r: string, strip: char -> bool) {
    r == [] || (!strip(r[0]) && !strip(r[|r| - 1]))
  }

  /** `r` sits at offset `i` of `s` and everything around it is in `strip`. */
  predicate TrimmedAt(s: string, r: string, i: int, strip: char -> bool) {
    && 0 <= i <= |s| - |r|
    && r == s[i..i + |r|]
    && (forall k :: 0 <= k < i ==> strip(s[k]))
    && (forall k :: i + |r| <= k < |s| ==> strip(s[k]))
  }

  /** `s.strip(chars)` for the set of characters `strip`: the infix left once
      those characters are removed from both ends. */
  function Trim(s: string, strip: char -> bool): (r: string)
    ensures EndsClear(r, strip)
  {
    var lo := SkipFront(s, 0, strip);
    s[lo..SkipBack(s, lo, |s|, strip)]
  }

  /** `str.strip()`: the longest infix of `s` that neither starts nor ends
      with whitespace, obtained by removing whitespace only. */
  function Strip(s: string): (r: string)
    ensures r == [] || (!IsSpace(r[0]) && !IsSpace(r[|r| - 1]))
  {
    Trim(s, IsSpace)
  }

  /** Trimming removes characters of the set only, from the two ends only. */
  lemma TrimTrims(s: string, strip: char -> bool)
    ensures TrimmedAt(s, Trim(s, strip), SkipFront(s, 0, strip), strip)
  {
  }

  /** Trimming has one answer: two infixes that only cut characters of the
      set and end on characters outside it coincide. */
  lemma TrimUnique(s: string, r1: string, i1: int, r2: string, i2: int, strip: char -> bool)
    requires TrimmedAt(s, r1, i1, strip) && TrimmedAt(s, r2, i2, strip)
    requires EndsClear(r1, strip) && EndsClear(r2, strip)
    ensures r1 == r2
  {
    if r1 != [] && r2 != [] {
      assert s[i1] == r1[0] && s[i2] == r2[0];
      assert s[i1 + |r1| - 1] == r1[|r1| - 1] && s[i2 + |r2| - 1] == r2[|r2| - 1];
      assert i1 == i2 && |r1| == |r2|;
    }
  }

  /** Any infix that only cuts characters of the set and ends on characters
      outside it is what trimming gives. */
  lemma TrimOfTrimmed(s: string, r: string, i: int, strip: char -> bool)
    requires TrimmedAt(s, r, i, strip)
    requires EndsClear(r, strip)
    ensures Trim(s, strip) == r
  {
    TrimTrims(s, strip);
    TrimUnique(s, r, i, Trim(s, strip), SkipFront(s, 0, strip), strip);
  }

  lemma PaddedTrimmed(text: string, pad: string, r: string, i: int, strip: char -> bool)
    requires forall k :: 0 <= k < |pad| ==> strip(pad[k])
    requires TrimmedAt(text, r, i, strip)
    ensures TrimmedAt(pad + text + pad, r, |pad| + i, strip)
  {
    var s := pad + text + pad;
    assert forall k :: 0 <= k < |pad| ==> s[k] == pad[k];
    assert forall k :: |pad| <= k < |pad| + |text| ==> s[k] == text[k - |pad|];
    assert forall k :: |pad| + |text| <= k < |s| ==> s[k] == pad[k - |pad| - |text|];
    assert s[|pad| + i..|pad| + i + |r|] == text[i..i + |r|];
  }

  /** The same characters of the set added on both sides do not change what
      trimming gives. */
  lemma TrimIgnoresPadding(text: string, pad: string, strip: char -> bool)
    requires forall k :: 0 <= k < |pad| ==> strip(pad[k])
    ensures Trim(pad + text + pad, strip) == Trim(text, strip)
  {
    var r := Trim(text, strip);
    var i := SkipFront(text, 0, strip);
    TrimTrims(text, strip);
    PaddedTrimmed(text, pad, r, i, strip);
    TrimOfTrimmed(pad + text + pad, r, |pad| + i, strip);
  }

  /** Text already free of surrounding whitespace is left alone. */
  lemma StripKeepsStripped(s: string)
    requires s == [] || (!IsSpace(s[0]) && !IsSpace(s[|s| - 1]))
    ensures Strip(s) == s
  {
    assert TrimmedAt(s, s, 0, IsSpace);
    TrimOfTrimmed(s, s, 0, IsSpace);
  }
}
