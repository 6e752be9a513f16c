/**
  The string operations the target dispatch relies on: prefix tests,
  splitting on a separator character as Rust's `str::split(char)` followed by
  `collect()` does, and parsing a decimal `i32` as Rust's `str::parse::<i32>()`
  does.
 */
module Text {
  import opened Wrappers

  const I32_MIN: int := -0x8000_0000
  const I32_MAX: int := 0x7fff_ffff

  predicate StartsWith(s: string, prefix: string) {
    |prefix| <= |s| && s[..|prefix|] == prefix
  }

  /** Number of occurrences of `c` in `s`. */
  function Count(s: string, c: char): nat {
    if |s| == 0 then 0 else (if s[0] == c then 1 else 0) + Count(s[1..], c)
  }

  lemma {:induction false} CountConcat(a: string, b: string, c: char)
    ensures Count(a + b, c) == Count(a, c) + Count(b, c)
  {
    if |a| > 0 {
      assert (a + b)[1..] == a[1..] + b;
      CountConcat(a[1..], b, c);
    } else {
      assert a + b == b;
    }
  }

  lemma {:induction false} CountPositive(s: string, c: char)
    requires c in s
    ensures Count(s, c) >= 1
  {
    if s[0] != c {
      CountPositive(s[1..], c);
    }
  }

  /**
    The pieces of `s` between occurrences of `sep`, in order. Like Rust's
    `split`, this always yields at least one piece: the empty string yields
    `[""]` and every separator starts a new piece.
   */
  function Split(s: string, sep: char): (parts: seq<string>)
    ensures |parts| == Count(s, sep) + 1
    ensures forall i :: 0 <= i < |parts| ==> sep !in parts[i]
  {
    if |s| == 0 then [""]
    else
      var rest := Split(s[1..], sep);
      if s[0] == sep then [""] + rest
      else [[s[0]] + rest[0]] + rest[1..]
  }

  /** The pieces joined back together with `sep` between neighbours. */
  function Join(parts: seq<string>, sep: char): string
    requires |parts| >= 1
  {
    if |parts| == 1 then parts[0] else parts[0] + [sep] + Join(parts[1..], sep)
  }

  /** Splitting loses nothing: joining the pieces gives the original string. */
  lemma {:induction false} SplitJoin(s: string, sep: char)
    ensures Join(Split(s, sep), sep) == s
  {
    if |s| > 0 {
      var rest := Split(s[1..], sep);
      SplitJoin(s[1..], sep);
      if s[0] == sep {
        assert Split(s, sep) == [""] + rest;
        assert ([""] + rest)[1..] == rest;
      } else {
        var parts := Split(s, sep);
        assert parts == [[s[0]] + rest[0]] + rest[1..];
        if |rest| > 1 {
          assert parts[1..] == rest[1..];
        }
      }
    }
  }

  /** A piece free of the separator, followed by the separator, splits off as one piece. */
  lemma {:induction false} SplitAfterFreePiece(a: string, sep: char, b: string)
    requires sep !in a
    ensures Split(a + [sep] + b, sep) == [a] + Split(b, sep)
  {
    var s := a + [sep] + b;
    if |a| == 0 {
      assert s[0] == sep && s[1..] == b;
    } else {
      assert s[0] == a[0];
      assert s[1..] == a[1..] + [sep] + b;
      SplitAfterFreePiece(a[1..], sep, b);
      assert [a[0]] + a[1..] == a;
    }
  }

  /** A string free of the separator is a single piece. */
  lemma {:induction false} SplitFree(a: string, sep: char)
    requires sep !in a
    ensures Split(a, sep) == [a]
  {
    if |a| > 0 {
      SplitFree(a[1..], sep);
      assert [a[0]] + a[1..] == a;
    }
  }

  /** Conversely, pieces free of the separator are recovered by splitting their join. */
  lemma {:induction false} JoinSplit(parts: seq<string>, sep: char)
    requires |parts| >= 1
    requires forall i :: 0 <= i < |parts| ==> sep !in parts[i]
    ensures Split(Join(parts, sep), sep) == parts
  {
    if |parts| == 1 {
      SplitFree(parts[0], sep);
    } else {
      JoinSplit(parts[1..], sep);
      SplitAfterFreePiece(parts[0], sep, Join(parts[1..], sep));
      assert [parts[0]] + parts[1..] == parts;
    }
  }

  predicate IsDigit(c: char) {
    '0' <= c <= '9'
  }

  predicate AllDigits(s: string) {
    forall i :: 0 <= i < |s| ==> IsDigit(s[i])
  }

  function DigitValue(c: char): int
    requires IsDigit(c)
  {
    c as int - '0' as int
  }

  function DigitChar(d: int): char
    requires 0 <= d < 10
  {
    ('0' as int + d) as char
  }

  /** The value of a string of decimal digits, most significant first (leading zeros allowed). */
  function DigitsValue(s: string): nat
    requires AllDigits(s)
  {
    if |s| == 0 then 0 else DigitsValue(s[..|s| - 1]) * 10 + DigitValue(s[|s| - 1])
  }

  /** Rust's `str::parse::<i32>()`: an optional `+` or `-`, then one or more
      decimal digits, and the value must fit in 32 bits. Any other input is
      an error (here `None`). */
  function ParseI32(s: string): (r: Option<int>)
    ensures |s| == 0 || s == "+" || s == "-" ==> r == None
    ensures r.Some? ==> I32_MIN <= r.value <= I32_MAX
    ensures r.Some? ==> |s| >= 1 && (IsDigit(s[0]) || s[0] == '+' || s[0] == '-')
    ensures r.Some? ==> forall i :: 1 <= i < |s| ==> IsDigit(s[i])
  {
    if |s| == 0 then None
    else
      var signed := s[0] == '+' || s[0] == '-';
      var digits := if signed then s[1..] else s;
      if signed && |digits| == 0 then None
      else if !AllDigits(digits) then None
      else
        var magnitude: int := DigitsValue(digits);
        var v: int := if s[0] == '-' then -magnitude else magnitude;
        if I32_MIN <= v <= I32_MAX then Some(v) else None
  }

  /** Every accepted spelling, and its value: a digit string, alone or after
      `+`, gives its value when that fits below 2^31; after `-` it gives the
      negated value when that fits at or above -2^31. Otherwise the parse fails. */
  lemma ParseDigits(d: string)
    requires |d| >= 1 && AllDigits(d)
    ensures ParseI32(d) == if DigitsValue(d) <= I32_MAX then Some(DigitsValue(d)) else None
    ensures ParseI32("+" + d) == if DigitsValue(d) <= I32_MAX then Some(DigitsValue(d)) else None
    ensures ParseI32("-" + d) == if DigitsValue(d) <= -I32_MIN then Some(-(DigitsValue(d) as int)) else None
  {
    assert IsDigit(d[0]);
    ParseSigned('+', d);
    ParseSigned('-', d);
  }

  lemma ParseSigned(sign: char, d: string)
    requires sign == '+' || sign == '-'
    requires |d| >= 1 && AllDigits(d)
    ensures ParseI32([sign] + d) ==
      if sign == '+' then (if DigitsValue(d) <= I32_MAX then Some(DigitsValue(d)) else None)
      else (if DigitsValue(d) <= -I32_MIN then Some(-(DigitsValue(d) as int)) else None)
  {
    var s := [sign] + d;
    assert s[0] == sign && s[1..] == d;
  }

  /** `z` zero digits. */
  function Zeros(z: nat): (s: string)
    ensures |s| == z && AllDigits(s)
  {
    if z == 0 then "" else Zeros(z - 1) + "0"
  }

  /** Leading zeros do not change the value of a digit string. */
  lemma {:induction false} ZerosValue(z: nat, d: string)
    requires AllDigits(d)
    ensures AllDigits(Zeros(z) + d) && DigitsValue(Zeros(z) + d) == DigitsValue(d)
    decreases z, |d|
  {
    var s := Zeros(z) + d;
    if |d| == 0 {
      assert s == Zeros(z);
      if z > 0 {
        assert s[..|s| - 1] == Zeros(z - 1) + "";
        ZerosValue(z - 1, "");
      }
    } else {
      assert s[..|s| - 1] == Zeros(z) + d[..|d| - 1];
      ZerosValue(z, d[..|d| - 1]);
    }
  }

  /** Rust reads `0080`, `+0080` and `-0080` as 80, 80 and -80. */
  lemma ParseLeadingZeros(z: nat, n: nat)
    ensures n <= I32_MAX ==> ParseI32(Zeros(z) + NatToDecimal(n)) == Some(n)
    ensures n <= I32_MAX ==> ParseI32("+" + Zeros(z) + NatToDecimal(n)) == Some(n)
    ensures n <= -I32_MIN ==> ParseI32("-" + Zeros(z) + NatToDecimal(n)) == Some(-(n as int))
    ensures n > I32_MAX ==> ParseI32(Zeros(z) + NatToDecimal(n)) == None
  {
    var d := Zeros(z) + NatToDecimal(n);
    ZerosValue(z, NatToDecimal(n));
    NatToDecimalValue(n);
    ParseDigits(d);
    assert "+" + Zeros(z) + NatToDecimal(n) == "+" + d;
    assert "-" + Zeros(z) + NatToDecimal(n) == "-" + d;
  }

  /** The shortest decimal representation of a natural number. */
  function NatToDecimal(n: nat): (s: string)
    ensures |s| >= 1 && AllDigits(s)
  {
    if n < 10 then [DigitChar(n)] else NatToDecimal(n / 10) + [DigitChar(n % 10)]
  }

  /** The decimal representation of an integer, with `-` for negative values. */
  function IntToDecimal(n: int): (s: string)
    ensures forall i :: 0 <= i < |s| ==> IsDigit(s[i]) || s[i] == '-'
  {
    if n < 0 then "-" + NatToDecimal(-n) else NatToDecimal(n)
  }

  lemma {:induction false} NatToDecimalValue(n: nat)
    ensures DigitsValue(NatToDecimal(n)) == n
  {
    var s := NatToDecimal(n);
    if n < 10 {
      assert s[..0] == [];
    } else {
      assert s[..|s| - 1] == NatToDecimal(n / 10);
      NatToDecimalValue(n / 10);
    }
  }

  /** Every 32-bit integer printed in decimal parses back to itself. */
  lemma ParseIntToDecimal(n: int)
    requires I32_MIN <= n <= I32_MAX
    ensures ParseI32(IntToDecimal(n)) == Some(n)
  {
    var s := IntToDecimal(n);
    if n < 0 {
      assert s[1..] == NatToDecimal(-n);
      NatToDecimalValue(-n);
    } else {
      assert IsDigit(s[0]);
      NatToDecimalValue(n);
    }
  }
}
