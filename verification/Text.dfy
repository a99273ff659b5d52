/**
  Text helpers shared by the protocol and shell models: whitespace trimming, and decimal
  and octal numerals.
 */
module Text {

  /** The characters `str.strip()` removes. */
  predicate IsSpace(c: char) {
    var n := c as int;
    || 9 <= n <= 13 || 28 <= n <= 32 || n == 0x85 || n == 0xA0 || n == 0x1680
    || 0x2000 <= n <= 0x200A || n == 0x2028 || n == 0x2029 || n == 0x202F || n == 0x205F || n == 0x3000
  }

  function StripLeft(s: string): string {
    if s != "" && IsSpace(s[0]) then StripLeft(s[1..]) else s
  }

  function StripRight(s: string): string {
    if s != "" && IsSpace(s[|s| - 1]) then StripRight(s[..|s| - 1]) else s
  }

  function Strip(s: string): string {
    StripRight(StripLeft(s))
  }

  /** Text that `strip` leaves alone and that is not empty. */
  predicate Trimmed(s: string) {
    s != "" && !IsSpace(s[0]) && !IsSpace(s[|s| - 1])
  }

  predicate Blank(s: string) {
    forall i :: 0 <= i < |s| ==> IsSpace(s[i])
  }

  lemma {:induction false} StripLeftBlank(a: string, s: string)
    requires Blank(a) && (s == "" || !IsSpace(s[0]))
    ensures StripLeft(a + s) == s
  {
    if a == "" {
      assert a + s == s;
    } else {
      assert (a + s)[1..] == a[1..] + s;
      StripLeftBlank(a[1..], s);
    }
  }

  lemma {:induction false} StripRightBlank(s: string, b: string)
    requires Blank(b) && (s == "" || !IsSpace(s[|s| - 1]))
    ensures StripRight(s + b) == s
  {
    if b == "" {
      assert s + b == s;
    } else {
      assert (s + b)[..|s + b| - 1] == s + b[..|b| - 1];
      StripRightBlank(s, b[..|b| - 1]);
    }
  }

  /** Surrounding whitespace is what stripping removes. */
  lemma StripPadded(a: string, s: string, b: string)
    requires Blank(a) && Blank(b) && Trimmed(s)
    ensures Strip(a + s + b) == s
  {
    assert a + s + b == a + (s + b);
    StripLeftBlank(a, s + b);
    StripRightBlank(s, b);
  }

  lemma {:induction false} StripBlank(a: string)
    requires Blank(a)
    ensures Strip(a) == ""
  {
    StripLeftBlank(a, "");
    assert a + "" == a;
  }

  /** Stripping takes blanks off both ends and leaves nothing, or a text without blank ends. */
  lemma StripExact(s: string) returns (a: string, b: string)
    ensures Blank(a) && Blank(b) && s == a + Strip(s) + b
    ensures Strip(s) == "" || Trimmed(Strip(s))
  {
    var left := StripLeft(s);
    a := StripLeftExact(s);
    b := StripRightExact(left);
    assert s == a + (Strip(s) + b) == a + Strip(s) + b;
    if Strip(s) != "" { assert Strip(s)[0] == left[0]; }
  }

  lemma {:induction false} StripLeftExact(s: string) returns (a: string)
    ensures Blank(a) && s == a + StripLeft(s)
    ensures StripLeft(s) == "" || !IsSpace(StripLeft(s)[0])
    decreases |s|
  {
    hide IsSpace;
    a := "";
    if s != "" && IsSpace(s[0]) {
      var rest := StripLeftExact(s[1..]);
      a := [s[0]] + rest;
      assert s == [s[0]] + s[1..];
    }
  }

  lemma Regroup(before: string, kept: string, rest: string, last: char)
    requires before == kept + rest
    ensures before + [last] == kept + (rest + [last])
  {
  }

  lemma {:induction false} StripRightExact(s: string) returns (b: string)
    ensures Blank(b) && s == StripRight(s) + b
    ensures StripRight(s) == "" || !IsSpace(StripRight(s)[|StripRight(s)| - 1])
    decreases |s|
  {
    hide IsSpace;
    b := "";
    if s != "" && IsSpace(s[|s| - 1]) {
      var before, last := s[..|s| - 1], s[|s| - 1];
      var rest := StripRightExact(before);
      b := rest + [last];
      Regroup(before, StripRight(s), rest, last);
      assert s == before + [last];
    }
  }

  // ----- numerals -----

  predicate IsDigit(c: char) {
    '0' <= c <= '9'
  }

  predicate AllDigits(s: string) {
    forall i :: 0 <= i < |s| ==> IsDigit(s[i])
  }

  function DigitChar(d: nat): (c: char)
    requires d < 10
    ensures IsDigit(c) && c as int - '0' as int == d
  {
    ('0' as int + d) as char
  }

  /** `str(n)`. */
  function Decimal(n: nat): (s: string)
    ensures s != "" && AllDigits(s)
  {
    if n < 10 then [DigitChar(n)] else Decimal(n / 10) + [DigitChar(n % 10)]
  }

  /** `int(s)` on a run of digits. */
  function DecimalValue(s: string): nat
    requires AllDigits(s)
  {
    if s == "" then 0
    else 10 * DecimalValue(s[..|s| - 1]) + (s[|s| - 1] as int - '0' as int)
  }

  lemma {:induction false} DecimalRoundTrip(n: nat)
    ensures DecimalValue(Decimal(n)) == n
  {
    var s := Decimal(n);
    if n >= 10 {
      DecimalRoundTrip(n / 10);
      assert s[..|s| - 1] == Decimal(n / 10);
    } else {
      assert s[..0] == "";
    }
  }

  lemma DecimalInjective(m: nat, n: nat)
    requires Decimal(m) == Decimal(n)
    ensures m == n
  {
    DecimalRoundTrip(m);
    DecimalRoundTrip(n);
  }

  /** `f"{mode:04o}"` for a mode of at most nine permission bits. */
  function Octal4(mode: nat): (s: string)
    requires mode < 512
    ensures |s| == 4 && AllDigits(s)
  {
    [DigitChar(0), DigitChar(mode / 64), DigitChar(mode / 8 % 8), DigitChar(mode % 8)]
  }

  function OctalValue(s: string): nat
    requires AllDigits(s)
  {
    if s == "" then 0 else 8 * OctalValue(s[..|s| - 1]) + (s[|s| - 1] as int - '0' as int)
  }

  lemma Octal4RoundTrip(mode: nat)
    requires mode < 512
    ensures OctalValue(Octal4(mode)) == mode
  {
    var s := Octal4(mode);
    assert s[..3] == [DigitChar(0), DigitChar(mode / 64), DigitChar(mode / 8 % 8)];
    assert s[..3][..2] == [DigitChar(0), DigitChar(mode / 64)];
    assert s[..3][..2][..1] == [DigitChar(0)];
    assert s[..3][..2][..1][..0] == "";
    assert OctalValue(s[..3][..2][..1]) == 0;
    assert OctalValue(s[..3][..2]) == mode / 64;
    assert OctalValue(s[..3]) == mode / 8;
  }

  /** Length of the run of digits that starts `s`. */
  function DigitRun(s: string): (k: nat)
    ensures k <= |s| && AllDigits(s[..k])
    ensures k < |s| ==> !IsDigit(s[k])
  {
    if s != "" && IsDigit(s[0]) then 1 + DigitRun(s[1..]) else 0
  }

  lemma {:induction false} DigitRunExact(d: string, rest: string)
    requires AllDigits(d) && (rest == "" || !IsDigit(rest[0]))
    ensures DigitRun(d + rest) == |d|
  {
    if d == "" {
      assert d + rest == rest;
    } else {
      assert (d + rest)[0] == d[0] && (d + rest)[1..] == d[1..] + rest;
      DigitRunExact(d[1..], rest);
    }
  }
}
