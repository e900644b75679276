/**
 * Decimal numerals as they cross the wire: the server writes a non-negative
 * integer with Python's `str(n).encode('utf-8')`, the browser reads it back
 * with JavaScript's `parseInt(text, 10)`.
 */
module Numerals {
  import opened Basics

  predicate IsDigit(b: byte) { 48 <= b <= 57 }

  predicate AllDigits(s: seq<byte>) { forall i :: 0 <= i < |s| ==> IsDigit(s[i]) }

  function DigitValue(b: byte): nat
    requires IsDigit(b)
  {
    (b - 48) as nat
  }

  /** The value of a string of decimal digits, most significant digit first. */
  function DigitsValue(s: seq<byte>): nat
    requires AllDigits(s)
  {
    if s == [] then 0 else DigitsValue(s[..|s| - 1]) * 10 + DigitValue(s[|s| - 1])
  }

  /** `str(n).encode('utf-8')` for a non-negative `n`: its decimal digits, without leading zeros. */
  function Decimal(n: nat): (s: seq<byte>)
    ensures 1 <= |s| && AllDigits(s)
    ensures NL !in s
    ensures s[0] == 48 ==> n == 0
    ensures |s| > 1 ==> s[0] != 48
  {
    if n < 10 then [(48 + n) as byte] else Decimal(n / 10) + [(48 + n % 10) as byte]
  }

  lemma {:induction false} DecimalValue(n: nat)
    ensures DigitsValue(Decimal(n)) == n
  {
    if n >= 10 {
      var s := Decimal(n);
      assert s[..|s| - 1] == Decimal(n / 10);
      DecimalValue(n / 10);
    }
  }

  /** The ASCII white space that `parseInt` skips before the number. */
  predicate IsSpace(b: byte) { b == 9 || b == 10 || b == 11 || b == 12 || b == 13 || b == 32 }

  /** The longest prefix of `s` made of digits. */
  function DigitRun(s: seq<byte>): (d: seq<byte>)
    ensures |d| <= |s| && d == s[..|d|] && AllDigits(d)
    ensures |d| < |s| ==> !IsDigit(s[|d|])
    ensures AllDigits(s) ==> d == s
  {
    if s != [] && IsDigit(s[0]) then [s[0]] + DigitRun(s[1..]) else []
  }

  /**
   * `parseInt(text, 10)` on ASCII text: leading white space is skipped, then
   * an optional sign, then the longest run of digits; `None` stands for NaN
   * (no digit there at all).
   */
  function ParseInt(s: seq<byte>): (r: Option<int>)
    ensures s == [] ==> r == None
    ensures r.Some? && r.value < 0 ==> 45 in s
  {
    if s != [] && IsSpace(s[0]) then ParseInt(s[1..])
    else if s != [] && (s[0] == 43 || s[0] == 45) then Signed(s[0] == 45, DigitRun(s[1..]))
    else Signed(false, DigitRun(s))
  }

  /** The value of a digit run after its sign; an empty run is NaN. */
  function Signed(negative: bool, d: seq<byte>): (r: Option<int>)
    requires AllDigits(d)
    ensures r == None <==> d == []
    ensures r.Some? && !negative ==> r.value >= 0
    ensures r.Some? && negative ==> r.value <= 0
  {
    if d == [] then None
    else if negative then Some(-(DigitsValue(d) as int))
    else Some(DigitsValue(d))
  }

  /** Digits followed by anything that is not a digit read as the digits' value: the rest is ignored. */
  lemma ParseDigitsThenRest(d: seq<byte>, rest: seq<byte>)
    requires d != [] && AllDigits(d)
    requires rest == [] || !IsDigit(rest[0])
    ensures ParseInt(d + rest) == Some(DigitsValue(d) as int)
  {
    var s := d + rest;
    assert s[0] == d[0];
    DigitRunOf(d, rest);
  }

  /** A minus sign before digits negates their value. */
  lemma ParseNegative(d: seq<byte>)
    requires d != [] && AllDigits(d)
    ensures ParseInt([45] + d) == Some(-(DigitsValue(d) as int))
  {
    var s := [45] + d;
    assert s[0] == 45 && s[1..] == d + [];
    DigitRunOf(d, []);
    assert DigitRun(s[1..]) == d;
  }

  /** The run of digits at the front of `d + rest` is `d` when `rest` does not go on with a digit. */
  lemma {:induction false} DigitRunOf(d: seq<byte>, rest: seq<byte>)
    requires AllDigits(d)
    requires rest == [] || !IsDigit(rest[0])
    ensures DigitRun(d + rest) == d
  {
    if d != [] {
      assert (d + rest)[1..] == d[1..] + rest;
      DigitRunOf(d[1..], rest);
      assert [d[0]] + d[1..] == d;
    }
  }

  /** Leading white space does not change what is read. */
  lemma {:induction false} ParseSkipsSpaces(spaces: seq<byte>, s: seq<byte>)
    requires forall i :: 0 <= i < |spaces| ==> IsSpace(spaces[i])
    ensures ParseInt(spaces + s) == ParseInt(s)
  {
    if spaces != [] {
      var t := spaces + s;
      assert t[0] == spaces[0] && t[1..] == spaces[1..] + s;
      assert ParseInt(t) == ParseInt(t[1..]);
      ParseSkipsSpaces(spaces[1..], s);
    } else {
      assert spaces + s == s;
    }
  }

  /** A number is read only where the text holds a digit; otherwise the result is NaN. */
  lemma {:induction false} ParseNeedsDigit(s: seq<byte>)
    ensures ParseInt(s).Some? ==> exists i :: 0 <= i < |s| && IsDigit(s[i])
  {
    if s != [] && IsSpace(s[0]) {
      ParseNeedsDigit(s[1..]);
      if ParseInt(s).Some? {
        var i :| 0 <= i < |s| - 1 && IsDigit(s[1..][i]);
        assert IsDigit(s[i + 1]);
      }
    } else if s != [] && (s[0] == 43 || s[0] == 45) {
      if ParseInt(s).Some? {
        assert IsDigit(s[1..][0]);
      }
    } else if ParseInt(s).Some? {
      assert IsDigit(s[0]);
    }
  }

  /** Reading back what the server wrote gives the same number. */
  lemma ParseDecimal(n: nat)
    ensures ParseInt(Decimal(n)) == Some(n)
  {
    DecimalValue(n);
    ParseDigitsThenRest(Decimal(n), []);
    assert Decimal(n) + [] == Decimal(n);
  }
}
