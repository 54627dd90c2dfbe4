/**
 * Python's `int(s)` on a `str`, base 10: surrounding whitespace is ignored, an
 * optional sign may lead, and the digits may be grouped by single underscores
 * ("1_000"). The same parse stands for `float(s)` wherever the scraper applies
 * `float` to an integer-valued token.
 */
module PyNumbers {
  import opened Wrappers
  import opened PyText

  /** The digits of a base-10 integer literal, possibly grouped by single underscores. */
  predicate IsDigitGroups(b: string) {
    && |b| > 0 && IsDigit(b[0]) && IsDigit(b[|b| - 1])
    && (forall k :: 0 <= k < |b| ==> IsDigit(b[k]) || b[k] == '_')
    && (forall k :: 0 <= k < |b| - 1 ==> IsDigit(b[k]) || IsDigit(b[k + 1]))
  }

  function DigitValue(c: char): nat {
    if IsDigit(c) then c as int - '0' as int else 0
  }

  /** The decimal value of the digits of `b`, underscores skipped. */
  function DigitsValue(b: string): nat
  {
    if b == [] then 0
    else if b[|b| - 1] == '_' then DigitsValue(b[..|b| - 1])
    else 10 * DigitsValue(b[..|b| - 1]) + DigitValue(b[|b| - 1])
  }

  /** `int(s)`: the integer literal `s` spells, or the `ValueError` Python raises. */
  function ParseInt(s: string): Result<int>
  {
    var t := Strip(s);
    var signed := |t| > 0 && (t[0] == '+' || t[0] == '-');
    var body := if signed then t[1..] else t;
    if IsDigitGroups(body) then
      Ok(if signed && t[0] == '-' then -(DigitsValue(body) as int) else DigitsValue(body))
    else
      Err(ValueError(s))
  }

  function DigitChar(d: nat): (c: char)
    requires d < 10
    ensures IsDigit(c) && DigitValue(c) == d
  {
    ('0' as int + d) as char
  }

  /** `str(n)` for a natural number. */
  function NatToString(n: nat): (r: string)
    ensures |r| > 0 && forall k :: 0 <= k < |r| ==> IsDigit(r[k])
  {
    if n < 10 then [DigitChar(n)] else NatToString(n / 10) + [DigitChar(n % 10)]
  }

  /** `str(n)` for any integer. */
  function IntToString(n: int): string
  {
    if n < 0 then "-" + NatToString(-n) else NatToString(n)
  }

  lemma {:induction false} DigitsValueOfNatToString(n: nat)
    ensures DigitsValue(NatToString(n)) == n
    decreases n
  {
    var r := NatToString(n);
    if n >= 10 {
      DigitsValueOfNatToString(n / 10);
      assert r[..|r| - 1] == NatToString(n / 10);
    }
  }

  lemma StripNoSpace(s: string)
    requires NoSpace(s)
    ensures Strip(s) == s
  {
  }

  /** A non-empty run of ASCII digits parses to its decimal value (leading zeros allowed). */
  lemma ParseDigits(d: string)
    requires |d| > 0 && forall k :: 0 <= k < |d| ==> IsDigit(d[k])
    ensures ParseInt(d) == Ok(DigitsValue(d) as int)
  {
    assert NoSpace(d) by {
      forall k | 0 <= k < |d| ensures !IsSpace(d[k]) { assert IsDigit(d[k]); }
    }
    StripNoSpace(d);
    assert !(d[0] == '+' || d[0] == '-');
    assert IsDigitGroups(d);
  }

  /** A minus sign followed by a non-empty run of ASCII digits parses to the negated value. */
  lemma ParseNegatedDigits(d: string)
    requires |d| > 0 && forall k :: 0 <= k < |d| ==> IsDigit(d[k])
    ensures var r := ParseInt("-" + d); r.Ok? && r.value == -(DigitsValue(d) as int)
  {
    var s := "-" + d;
    assert NoSpace(s) by {
      forall k | 0 <= k < |s| ensures !IsSpace(s[k]) {
        if k > 0 { assert s[k] == d[k - 1]; assert IsDigit(d[k - 1]); }
      }
    }
    StripNoSpace(s);
    assert s[1..] == d;
    assert IsDigitGroups(d);
  }

  /** `int(str(n)) == n` for every integer `n`. */
  lemma ParseIntToString(n: int)
    ensures var r := ParseInt(IntToString(n)); r.Ok? && r.value == n
  {
    if n < 0 {
      DigitsValueOfNatToString(-n);
      ParseNegatedDigits(NatToString(-n));
    } else {
      DigitsValueOfNatToString(n);
      ParseDigits(NatToString(n));
    }
  }

  lemma {:induction false} StripLeftAllSpace(s: string)
    requires forall k :: 0 <= k < |s| ==> IsSpace(s[k])
    ensures StripLeft(s) == []
    decreases |s|
  {
    if s != [] {
      StripLeftAllSpace(s[1..]);
    }
  }

  /** The empty text and pure whitespace are not integers. */
  lemma ParseIntBlank(s: string)
    requires forall k :: 0 <= k < |s| ==> IsSpace(s[k])
    ensures ParseInt(s).Err?
  {
    StripLeftAllSpace(s);
  }
}
