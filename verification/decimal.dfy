/** An optional value, used by the parsers that invert the encoder. */
module Options {
  datatype Option<+T> = None | Some(value: T)
}

/**
 * Decimal text of unsigned integers, as Rust's `{}` formatting prints a
 * `usize` or a `u8`: the shortest run of ASCII digits, most significant
 * first, with "0" for zero. `ParseNat` reads such a run back; it is the
 * partner that shows the rendering loses nothing.
 */
module Decimal {
  import opened Options

  predicate IsDigit(c: char) {
    '0' <= c <= '9'
  }

  predicate AllDigits(s: string) {
    forall i :: 0 <= i < |s| ==> IsDigit(s[i])
  }

  function DigitChar(d: nat): (c: char)
    requires d < 10
    ensures IsDigit(c) && c as int - '0' as int == d
  {
    ('0' as int + d) as char
  }

  /** The number a run of digits denotes, most significant digit first. */
  function ValueOf(s: string): nat
    requires AllDigits(s)
  {
    if s == [] then 0 else ValueOf(s[..|s| - 1]) * 10 + (s[|s| - 1] as int - '0' as int)
  }

  /**
   * Rust's `{}` rendering of `n`: a non-empty run of digits denoting `n`,
   * with no leading zero.
   */
  function Dec(n: nat): (s: string)
    ensures 1 <= |s| && AllDigits(s) && ValueOf(s) == n
    ensures s[0] == '0' ==> s == "0" && n == 0
  {
    if n < 10 then [DigitChar(n)]
    else
      var s := Dec(n / 10) + [DigitChar(n % 10)];
      assert s[..|s| - 1] == Dec(n / 10);
      s
  }

  /** A value of a `u8` channel takes one to three digits. */
  lemma {:induction false} ByteWidth(n: nat)
    requires n < 256
    ensures 1 <= |Dec(n)| <= 3
    ensures n < 10 <==> |Dec(n)| == 1
    ensures 100 <= n <==> |Dec(n)| == 3
  {
    if n >= 10 {
      if n >= 100 {
        assert |Dec(n / 10 / 10)| == 1;
        assert |Dec(n / 10)| == 2;
      } else {
        assert |Dec(n / 10)| == 1;
      }
    }
  }

  /** Length of the longest prefix of `s` made of digits. */
  function DigitRun(s: string): (k: nat)
    ensures k <= |s|
    ensures AllDigits(s[..k])
    ensures k < |s| ==> !IsDigit(s[k])
  {
    if s == [] || !IsDigit(s[0]) then 0
    else
      var k := 1 + DigitRun(s[1..]);
      assert s[..k] == [s[0]] + s[1..][..k - 1];
      k
  }

  /**
   * Reads the longest run of digits at the front of `s`: its value and
   * what follows it, or None when `s` does not start with a digit.
   */
  function ParseNat(s: string): (r: Option<(nat, string)>)
    ensures r.Some? <==> (|s| > 0 && IsDigit(s[0]))
    ensures r.Some? ==> |r.value.1| < |s| && r.value.1 == s[|s| - |r.value.1|..]
  {
    var k := DigitRun(s);
    if k == 0 then None else Some((ValueOf(s[..k]), s[k..]))
  }

  lemma {:induction false} DigitRunOfDigits(d: string, rest: string)
    requires AllDigits(d)
    requires rest == [] || !IsDigit(rest[0])
    ensures DigitRun(d + rest) == |d|
  {
    if d != [] {
      assert (d + rest)[1..] == d[1..] + rest;
      DigitRunOfDigits(d[1..], rest);
    }
  }

  /**
   * Parsing inverts rendering: the digits of `n`, followed by anything that
   * does not start with a digit, read back as `n` and leave the rest.
   */
  lemma ParseDec(n: nat, rest: string)
    requires rest == [] || !IsDigit(rest[0])
    ensures ParseNat(Dec(n) + rest) == Some((n, rest))
  {
    var s := Dec(n) + rest;
    DigitRunOfDigits(Dec(n), rest);
    assert s[..|Dec(n)|] == Dec(n);
    assert s[|Dec(n)|..] == rest;
  }
}
