/** Numbers and their digits: printing in a base, and reading back by Horner's rule in 64 bits. */
module NumberText {
  const QWORD_LIMIT: nat := 0x1_0000_0000_0000_0000
  const LONG_MIN: int := -0x8000_0000_0000_0000

  /** The digit for a value below 16. */
  function DigitChar(d: nat): (c: char)
    requires d < 16
    ensures c != '\0' && c != '-'
  {
    if d >= 10 then ('A' as int + (d - 10)) as char else ('0' as int + d) as char
  }

  /** What the hexadecimal parser takes a character for; it accepts every letter and every other character. */
  function HexDigit(c: char): int {
    if 'A' <= c <= 'Z' then c as int - 'A' as int + 10
    else if 'a' <= c <= 'z' then c as int - 'a' as int + 10
    else c as int - '0' as int
  }

  function DecimalDigit(c: char): int {
    c as int - '0' as int
  }

  /** Digits above 9 are printed as capital letters and read as letters of either case. */
  lemma DigitTable(d: nat)
    requires d < 16
    ensures DigitChar(d) == "0123456789ABCDEF"[d]
    ensures HexDigit("0123456789abcdef"[d]) == HexDigit("0123456789ABCDEF"[d]) == d
  {
  }

  /** What every other character counts for, too. */
  lemma EveryCharacterCounts(c: char)
    ensures HexDigit(c) == c as int - if 'A' <= c <= 'Z' then 55 else if 'a' <= c <= 'z' then 87 else 48
    ensures DecimalDigit(c) == c as int - 48
  {
  }

  lemma DigitRoundTrip(d: nat)
    requires d < 16
    ensures HexDigit(DigitChar(d)) == d
    ensures d < 10 ==> DecimalDigit(DigitChar(d)) == d
  {
  }

  /** The digits of `v`, the most significant first. */
  function Printed(v: nat, base: nat): (s: seq<char>)
    requires 2 <= base <= 16
    ensures s != [] && forall i :: 0 <= i < |s| ==> s[i] != '\0' && s[i] != '-'
    decreases v
  {
    if v < base then [DigitChar(v)] else Shrinks(v, base); Printed(v / base, base) + [DigitChar(v % base)]
  }

  /** Only zero itself is printed with a leading zero. */
  lemma {:induction false} NoLeadingZero(v: nat, base: nat)
    requires 2 <= base <= 16
    ensures v > 0 ==> Printed(v, base)[0] != '0'
    ensures v == 0 ==> Printed(v, base) == "0"
    decreases v
  {
    if v < base {
    } else {
      Shrinks(v, base);
      NoLeadingZero(v / base, base);
    }
  }

  lemma Shrinks(v: nat, base: nat)
    requires 2 <= base <= v
    ensures 0 < v / base < v
  {
    var q := v / base;
    assert v == q * base + v % base;
    AtLeastTwice(q, base);
  }

  lemma AtLeastTwice(a: nat, b: nat)
    requires b >= 2
    ensures a * b >= a * 2
  {
    assert a * b == a * 2 + a * (b - 2);
  }

  /** Horner's rule. */
  function HexValue(s: seq<char>): int {
    if s == [] then 0 else HexValue(s[..|s| - 1]) * 16 + HexDigit(s[|s| - 1])
  }

  function DecimalValue(s: seq<char>): int {
    if s == [] then 0 else DecimalValue(s[..|s| - 1]) * 10 + DecimalDigit(s[|s| - 1])
  }

  lemma {:induction false} HexRoundTrip(v: nat)
    ensures HexValue(Printed(v, 16)) == v
    decreases v
  {
    var s := Printed(v, 16);
    DigitRoundTrip(v % 16);
    if v < 16 {
      assert s[..0] == [] && HexValue([]) == 0;
    } else {
      HexRoundTrip(v / 16);
      assert s[..|s| - 1] == Printed(v / 16, 16);
    }
  }

  lemma {:induction false} DecimalRoundTrip(v: nat)
    ensures DecimalValue(Printed(v, 10)) == v
    decreases v
  {
    var s := Printed(v, 10);
    DigitRoundTrip(v % 10);
    if v < 10 {
      assert s[..0] == [] && DecimalValue([]) == 0;
    } else {
      DecimalRoundTrip(v / 10);
      assert s[..|s| - 1] == Printed(v / 10, 10);
    }
  }

  // ----- signed numbers -----

  /** A number in two's complement of 64 bits. */
  function Wrapped(x: int): (r: int)
    ensures LONG_MIN <= r <= -1 - LONG_MIN
  {
    (x - LONG_MIN) % QWORD_LIMIT + LONG_MIN
  }

  lemma WrappedIsSame(x: int)
    requires LONG_MIN <= x <= -1 - LONG_MIN
    ensures Wrapped(x) == x
  {
  }

  /** Wrapping at every step or once at the end is the same. */
  lemma WrapOnce(a: int, d: int)
    ensures Wrapped(Wrapped(Wrapped(a) * 10) + d) == Wrapped(a * 10 + d)
  {
    WrappedDiffers(a);
    var q := (a - LONG_MIN) / QWORD_LIMIT;
    assert Wrapped(a) == a - q * QWORD_LIMIT;
    var b := Wrapped(a) * 10;
    var p := (b - LONG_MIN) / QWORD_LIMIT;
    assert Wrapped(b) == b - p * QWORD_LIMIT;
    SameWrapped(a * 10 + d, 10 * q + p);
  }

  lemma WrappedDiffers(a: int)
    ensures Wrapped(a) == a - (a - LONG_MIN) / QWORD_LIMIT * QWORD_LIMIT
  {
  }

  lemma SameWrapped(x: int, k: int)
    ensures Wrapped(x - k * QWORD_LIMIT) == Wrapped(x)
  {
  }

  lemma NegateWrapped(x: int)
    ensures Wrapped(-Wrapped(x)) == Wrapped(-x)
  {
    WrappedDiffers(x);
    SameWrapped(-x, -((x - LONG_MIN) / QWORD_LIMIT));
  }

  lemma ModOnce(a: int, d: int)
    ensures (a % QWORD_LIMIT * 16 % QWORD_LIMIT + d) % QWORD_LIMIT == (a * 16 + d) % QWORD_LIMIT
  {
    var q := a / QWORD_LIMIT;
    var b := a % QWORD_LIMIT * 16;
    var p := b / QWORD_LIMIT;
    assert a * 16 + d == b % QWORD_LIMIT + d + (16 * q + p) * QWORD_LIMIT;
    SameRemainder(b % QWORD_LIMIT + d, 16 * q + p);
  }

  lemma SameRemainder(x: int, k: int)
    ensures (x + k * QWORD_LIMIT) % QWORD_LIMIT == x % QWORD_LIMIT
  {
  }

  /** The text of a long: for the least one the negation overflows and only the sign is printed. */
  function DecimalText(v: int): (s: seq<char>)
    ensures s != [] && forall i :: 0 <= i < |s| ==> s[i] != '\0'
  {
    if v == LONG_MIN then ['-'] else if v < 0 then ['-'] + Printed(-v, 10) else Printed(v, 10)
  }

  /** The value read from a decimal text. */
  function SignedValue(s: seq<char>): int {
    if s != [] && s[0] == '-' then -DecimalValue(s[1..]) else DecimalValue(s)
  }

  /** Printing and reading a long gives it back if and only if it is not the least one. */
  lemma LongRoundTrip(v: int)
    requires LONG_MIN <= v <= -1 - LONG_MIN
    ensures Wrapped(SignedValue(DecimalText(v))) == v <==> v != LONG_MIN
  {
    if v == LONG_MIN {
      assert DecimalText(v)[1..] == [];
    } else {
      DecimalRoundTrip(if v < 0 then -v else v);
      if v < 0 {
        assert DecimalText(v)[1..] == Printed(-v, 10);
      }
      WrappedIsSame(v);
    }
  }

  // ----- reversing -----

  function Reversed(s: seq<char>): (r: seq<char>)
    ensures |r| == |s| && forall i :: 0 <= i < |s| ==> r[i] == s[|s| - 1 - i]
  {
    seq(|s|, i requires 0 <= i < |s| => s[|s| - 1 - i])
  }

  /** Digits come out with the least significant first; what is printed is what is left, then these reversed. */
  lemma NextDigit(v: nat, base: nat, done: seq<char>)
    requires 2 <= base <= 16 && v > 0
    ensures Printed(v, base) + Reversed(done) ==
            (if v / base > 0 then Printed(v / base, base) else []) + Reversed(done + [DigitChar(v % base)])
  {
    assert Reversed(done + [DigitChar(v % base)]) == [DigitChar(v % base)] + Reversed(done);
    if v < base {
      assert v / base == 0 && v % base == v by { SmallQuotient(v, base); }
    } else {
      Shrinks(v, base);
    }
  }

  /** One digit less is left, and the loop gets nearer its end. */
  lemma OneDigitLess(v: nat, base: nat)
    requires 2 <= base <= 16 && v > 0
    ensures v % base < 16 && v / base < v
    ensures |Printed(v, base)| == 1 + if v / base > 0 then |Printed(v / base, base)| else 0
  {
    if v < base {
      SmallQuotient(v, base);
    } else {
      Shrinks(v, base);
    }
  }

  lemma SmallQuotient(v: nat, base: nat)
    requires v < base
    ensures v / base == 0 && v % base == v
  {
  }
}
