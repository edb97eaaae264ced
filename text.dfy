/**
 * The string primitives the application relies on: `string.IsNullOrWhiteSpace`,
 * `string.IsNullOrEmpty`, substring search, name ordering, `int.TryParse`,
 * `int.ToString()`, and the wrap-around of `int` and `short` arithmetic.
 */
module Text {
  import opened Wrappers
  import opened Seqs

  /** `char.IsWhiteSpace`: the characters Unicode classifies as White_Space. */
  predicate IsWhiteSpace(c: char) {
    c == ' ' || ('\t' <= c <= '\r') || c == '\U{85}' || c == '\U{A0}' || c == '\U{1680}'
    || ('\U{2000}' <= c <= '\U{200A}') || c == '\U{2028}' || c == '\U{2029}'
    || c == '\U{202F}' || c == '\U{205F}' || c == '\U{3000}'
  }

  /** A non-null string made of white space only (the empty string included). */
  predicate IsBlank(s: string) {
    forall i | 0 <= i < |s| :: IsWhiteSpace(s[i])
  }

  /** `string.IsNullOrWhiteSpace`. */
  predicate IsNullOrWhiteSpace(s: Option<string>) {
    s.None? || IsBlank(s.value)
  }

  /** `string.IsNullOrEmpty`. */
  predicate IsNullOrEmpty(s: Option<string>) {
    s.None? || |s.value| == 0
  }

  /** Every null-or-empty string is null-or-white-space, never the other way round for " ". */
  lemma EmptyIsWhiteSpace(s: Option<string>)
    ensures IsNullOrEmpty(s) ==> IsNullOrWhiteSpace(s)
    ensures IsNullOrWhiteSpace(Some(" ")) && !IsNullOrEmpty(Some(" "))
  {
    assert IsWhiteSpace(" "[0]);
  }

  /** `term` occurs in `s` starting at position `i`. */
  predicate OccursAt(s: string, term: string, i: nat) {
    i + |term| <= |s| && s[i..i + |term|] == term
  }

  /** Ordinal substring search, `s.Contains(term)`. */
  predicate Contains(s: string, term: string) {
    exists i: nat | i <= |s| :: OccursAt(s, term, i)
  }

  /** `field.Contains(term)` as the database evaluates it: a NULL field never matches. */
  predicate FieldContains(field: Option<string>, term: string) {
    field.Some? && Contains(field.value, term)
  }

  /** Ordinal lexicographic order on strings: a prefix comes first. */
  predicate StrLe(a: string, b: string)
    decreases |a|
  {
    if |a| == 0 then true
    else if |b| == 0 then false
    else if a[0] != b[0] then a[0] < b[0]
    else StrLe(a[1..], b[1..])
  }

  /** Ascending order on a nullable name column: NULL sorts first. */
  predicate NameLe(a: Option<string>, b: Option<string>) {
    a.None? || (b.Some? && StrLe(a.value, b.value))
  }

  lemma {:induction false} StrLeTotal(a: string, b: string)
    ensures StrLe(a, b) || StrLe(b, a)
    decreases |a|
  {
    if |a| > 0 && |b| > 0 && a[0] == b[0] {
      StrLeTotal(a[1..], b[1..]);
    }
  }

  lemma {:induction false} StrLeTrans(a: string, b: string, c: string)
    requires StrLe(a, b) && StrLe(b, c)
    ensures StrLe(a, c)
    decreases |a|
  {
    if |a| > 0 && |b| > 0 && |c| > 0 && a[0] == b[0] && b[0] == c[0] {
      StrLeTrans(a[1..], b[1..], c[1..]);
    }
  }

  lemma NameLeTotal(a: Option<string>, b: Option<string>)
    ensures NameLe(a, b) || NameLe(b, a)
  {
    if a.Some? && b.Some? {
      StrLeTotal(a.value, b.value);
    }
  }

  lemma NameLeTrans(a: Option<string>, b: Option<string>, c: Option<string>)
    requires NameLe(a, b) && NameLe(b, c)
    ensures NameLe(a, c)
  {
    if a.Some? {
      StrLeTrans(a.value, b.value, c.value);
    }
  }

  lemma StrLeIsTotalPreorder()
    ensures TotalPreorder(StrLe)
  {
    forall a, b ensures StrLe(a, b) || StrLe(b, a) {
      StrLeTotal(a, b);
    }
    forall a, b, c | StrLe(a, b) && StrLe(b, c) ensures StrLe(a, c) {
      StrLeTrans(a, b, c);
    }
  }

  lemma NameLeIsTotalPreorder()
    ensures TotalPreorder(NameLe)
  {
    forall a, b ensures NameLe(a, b) || NameLe(b, a) {
      NameLeTotal(a, b);
    }
    forall a, b, c | NameLe(a, b) && NameLe(b, c) ensures NameLe(a, c) {
      NameLeTrans(a, b, c);
    }
  }

  // ---------------------------------------------------------------------------
  // Decimal integers

  const Int32Min: int := -0x8000_0000
  const Int32Max: int := 0x7FFF_FFFF
  const Int16Min: int := -0x8000
  const Int16Max: int := 0x7FFF

  predicate IsDigit(c: char) {
    '0' <= c <= '9'
  }

  predicate AllDigits(s: string) {
    forall i | 0 <= i < |s| :: IsDigit(s[i])
  }

  function DigitsValue(s: string): nat
    requires AllDigits(s)
  {
    if |s| == 0 then 0
    else DigitsValue(s[..|s| - 1]) * 10 + (s[|s| - 1] as int - '0' as int)
  }

  /**
   * `int.TryParse(s, out v)`: an optional sign followed by at least one
   * decimal digit, whose value fits in a 32-bit `int`.
   */
  function ParseInt32(s: string): (r: Option<int>)
    ensures r.Some? ==> Int32Min <= r.value <= Int32Max
  {
    var signed := |s| > 0 && (s[0] == '-' || s[0] == '+');
    var digits := if signed then s[1..] else s;
    if |digits| == 0 || !AllDigits(digits) then None
    else
      var v: int := if signed && s[0] == '-' then -(DigitsValue(digits) as int) else DigitsValue(digits) as int;
      if Int32Min <= v <= Int32Max then Some(v) else None
  }

  /** The decimal digits of a natural number, without leading zeros. */
  function NatToDigits(n: nat): (r: string)
    ensures |r| > 0 && AllDigits(r)
  {
    var d := [('0' as int + n % 10) as char];
    if n < 10 then d else NatToDigits(n / 10) + d
  }

  /** `int.ToString()` in the invariant culture. */
  function IntToString(n: int): (r: string)
    ensures |r| > 0
  {
    if n < 0 then "-" + NatToDigits(-n) else NatToDigits(n)
  }

  lemma {:induction false} DigitsRoundTrip(n: nat)
    ensures DigitsValue(NatToDigits(n)) == n
  {
    var s := NatToDigits(n);
    if n >= 10 {
      DigitsRoundTrip(n / 10);
      assert s[..|s| - 1] == NatToDigits(n / 10);
    }
  }

  /** Formatting an `int` and parsing it back gives the same number. */
  lemma ParseIntToString(n: int)
    requires Int32Min <= n <= Int32Max
    ensures ParseInt32(IntToString(n)) == Some(n)
  {
    var s := IntToString(n);
    if n < 0 {
      DigitsRoundTrip(-n);
      assert s[1..] == NatToDigits(-n);
    } else {
      DigitsRoundTrip(n);
      assert IsDigit(s[0]);
    }
  }

  /** The literal "1" is the decimal form of 1. */
  lemma ParseOne()
    ensures IntToString(1) == "1" && ParseInt32("1") == Some(1)
  {
    ParseIntToString(1);
  }

  /** Two's-complement wrap-around of a 32-bit `int` sum (unchecked C# arithmetic). */
  function Wrap32(x: int): (r: int)
    ensures Int32Min <= r <= Int32Max
    ensures Int32Min <= x <= Int32Max ==> r == x
    ensures x == Int32Max + 1 ==> r == Int32Min
  {
    (x - Int32Min) % 0x1_0000_0000 + Int32Min
  }

  /** The cast `(short)x` of an `int` value. */
  function Wrap16(x: int): (r: int)
    ensures Int16Min <= r <= Int16Max
    ensures Int16Min <= x <= Int16Max ==> r == x
    ensures x == Int16Max + 1 ==> r == Int16Min
  {
    (x - Int16Min) % 0x1_0000 + Int16Min
  }
}
