/** The Python string built-ins the save editor relies on: `str.strip`,
    `str.lower`, `str.find` and `in`, `str.isdigit`, `str.lstrip('-')`,
    `int(str)` and `str(int)`. Letters, digits and `\w` are ASCII here;
    whitespace is Python's full `str.isspace` set. */
module PyStr {
  import opened Wrappers

  /** Python's `str.isspace`, which is also what `\s` matches in a `str` pattern. */
  predicate IsSpace(c: char) {
    if c <= ' ' then c == ' ' || '\t' <= c <= '\r' || '\U{1C}' <= c <= '\U{1F}'
    else
      && '\U{85}' <= c
      && (|| c == '\U{85}' || c == '\U{A0}' || c == '\U{1680}' || '\U{2000}' <= c <= '\U{200A}'
          || c == '\U{2028}' || c == '\U{2029}' || c == '\U{202F}' || c == '\U{205F}' || c == '\U{3000}')
  }

  predicate IsDigit(c: char) {
    '0' <= c <= '9'
  }

  /** The regular-expression class `\w`, restricted to ASCII. */
  predicate IsWordChar(c: char) {
    'a' <= c <= 'z' || 'A' <= c <= 'Z' || IsDigit(c) || c == '_'
  }

  predicate AllSpace(s: string) {
    forall i :: 0 <= i < |s| ==> IsSpace(s[i])
  }

  /** Neither starts nor ends with whitespace. */
  predicate IsTrimmed(s: string) {
    s == [] || (!IsSpace(s[0]) && !IsSpace(s[|s| - 1]))
  }

  /** `str.strip()`: drops the whitespace at both ends. Dropping the leading
      whitespace first and the trailing whitespace then, as `lstrip` followed
      by `rstrip` would, leaves the same text. */
  function Strip(s: string): (r: string)
    ensures |r| <= |s|
    decreases |s|
  {
    if s != [] && IsSpace(s[0]) then Strip(s[1..])
    else if s != [] && IsSpace(s[|s| - 1]) then Strip(s[..|s| - 1])
    else s
  }

  /** What `strip` returns neither starts nor ends with whitespace. */
  lemma {:induction false} StripIsTrimmed(s: string)
    ensures IsTrimmed(Strip(s))
    decreases |s|
  {
    if s != [] && IsSpace(s[0]) {
      StripIsTrimmed(s[1..]);
    } else if s != [] && IsSpace(s[|s| - 1]) {
      StripIsTrimmed(s[..|s| - 1]);
    }
  }

  /** What `strip` returns is a slice of its input with only whitespace
      around it. */
  lemma {:induction false} StripSlice(s: string) returns (i: nat)
    ensures i + |Strip(s)| <= |s| && Strip(s) == s[i..i + |Strip(s)|]
    ensures AllSpace(s[..i]) && AllSpace(s[i + |Strip(s)|..])
    decreases |s|
  {
    if s != [] && IsSpace(s[0]) {
      assert Strip(s) == Strip(s[1..]);
      var j := StripSlice(s[1..]);
      SliceAfterSpace(s, Strip(s), j);
      i := j + 1;
    } else if s != [] && IsSpace(s[|s| - 1]) {
      assert Strip(s) == Strip(s[..|s| - 1]);
      i := StripSlice(s[..|s| - 1]);
      SliceBeforeSpace(s, Strip(s), i);
    } else {
      assert Strip(s) == s;
      i := 0;
      assert AllSpace(s[..0]) && AllSpace(s[|s|..]);
    }
  }

  /** A slice of `s[1..]` with whitespace around it, seen in `s` when `s[0]`
      is whitespace too. */
  lemma SliceAfterSpace(s: string, r: string, j: nat)
    requires s != [] && IsSpace(s[0])
    requires j + |r| <= |s| - 1 && r == s[1..][j..j + |r|]
    requires AllSpace(s[1..][..j]) && AllSpace(s[1..][j + |r|..])
    ensures r == s[j + 1..j + 1 + |r|]
    ensures AllSpace(s[..j + 1]) && AllSpace(s[j + 1 + |r|..])
  {
    assert s[1..][j..j + |r|] == s[j + 1..j + 1 + |r|];
    assert s[..j + 1] == [s[0]] + s[1..][..j];
    assert s[1..][j + |r|..] == s[j + 1 + |r|..];
  }

  /** A slice of `s[..|s| - 1]` with whitespace around it, seen in `s` when
      the last character of `s` is whitespace too. */
  lemma SliceBeforeSpace(s: string, r: string, i: nat)
    requires s != [] && IsSpace(s[|s| - 1])
    requires i + |r| <= |s| - 1 && r == s[..|s| - 1][i..i + |r|]
    requires AllSpace(s[..|s| - 1][..i]) && AllSpace(s[..|s| - 1][i + |r|..])
    ensures r == s[i..i + |r|]
    ensures AllSpace(s[..i]) && AllSpace(s[i + |r|..])
  {
    assert s[..|s| - 1][i..i + |r|] == s[i..i + |r|];
    assert s[..|s| - 1][..i] == s[..i];
    assert s[i + |r|..] == s[..|s| - 1][i + |r|..] + [s[|s| - 1]];
  }

  /** `strip` leaves trimmed text as it is. */
  lemma StripTrimmed(s: string)
    requires IsTrimmed(s)
    ensures Strip(s) == s
  {
  }

  /** `strip` gives the empty string exactly on blank input. */
  lemma StripEmpty(s: string)
    ensures Strip(s) == [] <==> AllSpace(s)
  {
    var r := Strip(s);
    var i := StripSlice(s);
    if r != [] {
      assert r[0] == s[i];
    } else {
      assert s == s[..i] + s[i..];
    }
  }

  /** One leading whitespace character does not change what `strip` returns. */
  lemma StripSpacePrefix(c: char, s: string)
    requires IsSpace(c)
    ensures Strip([c] + s) == Strip(s)
  {
    assert ([c] + s)[1..] == s;
  }

  function LowerChar(c: char): char {
    if 'A' <= c <= 'Z' then (c as int + 32) as char else c
  }

  /** `str.lower()`, restricted to ASCII letters: no upper-case letter is
      left, and every other character stays as it was. */
  function Lower(s: string): (r: string)
    ensures |r| == |s|
    ensures forall i :: 0 <= i < |r| ==> !('A' <= r[i] <= 'Z')
    ensures forall i :: 0 <= i < |s| && !('A' <= s[i] <= 'Z') ==> r[i] == s[i]
    ensures forall i :: 0 <= i < |s| && 'A' <= s[i] <= 'Z' ==> r[i] as int == s[i] as int + 32
  {
    seq(|s|, i requires 0 <= i < |s| => LowerChar(s[i]))
  }

  predicate OccursAt(s: string, pat: string, i: nat) {
    i + |pat| <= |s| && s[i..i + |pat|] == pat
  }

  /** `s.find(pat, from)`: the first index at or after `from` where `pat` occurs. */
  function Find(s: string, pat: string, from: nat): (r: Option<nat>)
    ensures r.Some? ==> from <= r.value && OccursAt(s, pat, r.value)
    ensures forall j: nat :: from <= j && (r.None? || j < r.value) ==> !OccursAt(s, pat, j)
    decreases |s| - from
  {
    if from + |pat| > |s| then None
    else if OccursAt(s, pat, from) then Some(from)
    else Find(s, pat, from + 1)
  }

  /** Python's `needle in hay` on strings: it holds exactly when `find`
      finds the needle, and always for the empty needle. */
  predicate Contains(hay: string, needle: string)
    ensures Contains(hay, needle) <==> Find(hay, needle, 0).Some?
    ensures needle == [] ==> Contains(hay, needle)
  {
    exists i: nat | i <= |hay| :: OccursAt(hay, needle, i)
  }

  /** `str.isdigit()` on ASCII: non-empty and digits only. */
  predicate IsDigits(s: string) {
    |s| > 0 && forall i :: 0 <= i < |s| ==> IsDigit(s[i])
  }

  /** `s.lstrip('-')`: drops every leading minus sign. */
  function StripLeadingDashes(s: string): (r: string)
    ensures |r| <= |s| && r == s[|s| - |r|..]
    ensures forall i :: 0 <= i < |s| - |r| ==> s[i] == '-'
    ensures r == [] || r[0] != '-'
  {
    if s != [] && s[0] == '-' then StripLeadingDashes(s[1..]) else s
  }

  function DigitChar(d: nat): char
    requires d < 10
  {
    ('0' as int + d) as char
  }

  /** `str(n)` for a natural number: decimal digits with no leading zero. */
  function NatToString(n: nat): (r: string)
    ensures IsDigits(r)
    ensures r[0] == '0' <==> n == 0
    ensures r[0] == '0' ==> r == "0"
  {
    if n < 10 then [DigitChar(n)] else NatToString(n / 10) + [DigitChar(n % 10)]
  }

  /** The text `str` writes for an integer: decimal digits with no leading
      zero, after a `-` exactly for a negative number (so never `-0`). */
  predicate IsDecimal(r: string) {
    if |r| > 0 && r[0] == '-' then IsDigits(r[1..]) && r[1] != '0'
    else IsDigits(r) && (r[0] == '0' ==> r == "0")
  }

  /** `str(i)` for any integer. */
  function IntToString(i: int): (r: string)
    ensures IsDecimal(r) && (r[0] == '-' <==> i < 0)
  {
    if i < 0 then "-" + NatToString(-i) else NatToString(i)
  }

  /** What `int()` accepts after its optional sign: ASCII digits, where a single
      underscore may stand between two digits. */
  predicate IsDigitGroups(s: string) {
    && |s| > 0 && IsDigit(s[0])
    && (|s| == 1 || IsDigitGroups(if s[1] == '_' then s[2..] else s[1..]))
  }

  /** The decimal value of the digits of `s` read after `acc`, underscores
      skipped. */
  function DigitsValue(acc: int, s: string): int
    decreases |s|
  {
    if s == [] then acc
    else if s[0] == '_' then DigitsValue(acc, s[1..])
    else DigitsValue(10 * acc + (s[0] as int - '0' as int), s[1..])
  }

  /** Python's `int(s)` in base 10; `None` where `int` raises `ValueError`. */
  function PyInt(s: string): (r: Option<int>)
    ensures Strip(s) == [] ==> r.None?
    ensures r.Some? ==> var t := Strip(s);
      IsDigit(t[0]) || (|t| >= 2 && (t[0] == '-' || t[0] == '+') && IsDigit(t[1]))
  {
    var t := Strip(s);
    if t != [] && (t[0] == '-' || t[0] == '+') then
      if IsDigitGroups(t[1..]) then
        var m := DigitsValue(0, t[1..]);
        Some(if t[0] == '-' then -m else m)
      else None
    else if IsDigitGroups(t) then Some(DigitsValue(0, t))
    else None
  }

  /** Reading digits in two parts is reading them at once. */
  lemma {:induction false} DigitsValueAppend(acc: int, a: string, b: string)
    ensures DigitsValue(acc, a + b) == DigitsValue(DigitsValue(acc, a), b)
    decreases |a|
  {
    if a != [] {
      assert (a + b)[1..] == a[1..] + b;
      DigitsValueAppend(if a[0] == '_' then acc else 10 * acc + (a[0] as int - '0' as int), a[1..], b);
    } else {
      assert a + b == b;
    }
  }

  /** A run of plain digits is a valid `int` body. */
  lemma {:induction false} DigitsAreGroups(s: string)
    requires IsDigits(s)
    ensures IsDigitGroups(s)
    decreases |s|
  {
    if |s| > 1 {
      assert IsDigits(s[1..]) by {
        forall i | 0 <= i < |s| - 1 ensures IsDigit(s[1..][i]) {
          assert s[1..][i] == s[i + 1];
        }
      }
      DigitsAreGroups(s[1..]);
    }
  }

  /** The digits `str` writes for a natural number read back as that number. */
  lemma {:induction false} NatToStringValue(n: nat)
    ensures DigitsValue(0, NatToString(n)) == n
  {
    if n >= 10 {
      NatToStringValue(n / 10);
      DigitsValueAppend(0, NatToString(n / 10), [DigitChar(n % 10)]);
    }
  }

  /** `int(str(i)) == i`: the decimal form of any integer parses back to it. */
  lemma PyIntOfIntToString(i: int)
    ensures PyInt(IntToString(i)) == Some(i)
  {
    var s := IntToString(i);
    var d := NatToString(if i < 0 then -i else i);
    NatToStringValue(if i < 0 then -i else i);
    DigitsAreGroups(d);
    if i < 0 {
      assert s[1..] == d;
    }
    StripTrimmed(s);
  }
}
