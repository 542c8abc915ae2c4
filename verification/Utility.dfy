/** The number printers and parsers of the kernel's utilities, working in place on zero-terminated buffers. */
module Utility {
  import opened NumberText

  /** The text in a buffer from `from` on: everything before the first zero character. */
  function TextAt(s: seq<char>, from: nat): (r: seq<char>)
    requires from <= |s|
    ensures from + |r| <= |s| && r == s[from..from + |r|] && forall i :: 0 <= i < |r| ==> r[i] != '\0'
    decreases |s| - from
  {
    if from == |s| || s[from] == '\0' then [] else [s[from]] + TextAt(s, from + 1)
  }

  ghost predicate Terminated(s: seq<char>, from: nat) {
    from <= |s| && from + |TextAt(s, from)| < |s|
  }

  lemma {:induction false} TextIsUnique(s: seq<char>, from: nat, n: nat)
    requires from + n < |s| && s[from + n] == '\0' && forall i :: from <= i < from + n ==> s[i] != '\0'
    ensures TextAt(s, from) == s[from..from + n] && Terminated(s, from)
    decreases n
  {
    if n == 0 {
    } else {
      TextIsUnique(s, from + 1, n - 1);
      assert s[from..from + n] == [s[from]] + s[from + 1..from + n];
    }
  }

  method StrLen(buffer: array<char>, from: nat) returns (n: nat)
    requires Terminated(buffer[..], from)
    ensures n == |TextAt(buffer[..], from)|
  {
    n := 0;
    while buffer[from + n] != '\0'
      invariant from + n < buffer.Length
      invariant n + |TextAt(buffer[..], from + n)| == |TextAt(buffer[..], from)|
      decreases |TextAt(buffer[..], from + n)|
    {
      assert buffer[..][from + n] == buffer[from + n];
      n := n + 1;
    }
  }

  /** The buffer with the text at `from` replaced by one of the same length. */
  function WithText(s: seq<char>, from: nat, text: seq<char>): (r: seq<char>)
    requires from + |text| <= |s|
    ensures |r| == |s|
  {
    s[..from] + text + s[from + |text|..]
  }

  /** Reverses the text at `from` in place. */
  method ReverseString(buffer: array<char>, from: nat)
    requires Terminated(buffer[..], from)
    modifies buffer
    ensures buffer[..] == WithText(old(buffer[..]), from, Reversed(TextAt(old(buffer[..]), from)))
  {
    var length := StrLen(buffer, from);
    ghost var was := buffer[..];
    var i := 0;
    NothingSwapped(was, from, length);
    while i < length / 2
      invariant 0 <= i <= length / 2 && buffer[..] == Halfway(was, from, length, i)
    {
      SwapOne(was, from, length, i);
      var temp := buffer[from + i];
      buffer[from + i] := buffer[from + length - 1 - i];
      buffer[from + length - 1 - i] := temp;
      i := i + 1;
    }
    AllSwapped(was, from);
  }

  /** The buffer after the outer `i` pairs of the text have been swapped. */
  ghost function Halfway(was: seq<char>, from: nat, length: nat, i: nat): (r: seq<char>)
    requires from + length <= |was|
    ensures |r| == |was|
  {
    seq(|was|, k requires 0 <= k < |was| =>
      if from <= k < from + i || from + length - i <= k < from + length then
        (if from <= k < from + length then was[2 * from + length - 1 - k] else was[k])
      else was[k])
  }

  lemma NothingSwapped(was: seq<char>, from: nat, length: nat)
    requires from + length <= |was|
    ensures Halfway(was, from, length, 0) == was
  {
  }

  lemma SwapOne(was: seq<char>, from: nat, length: nat, i: nat)
    requires from + length <= |was| && i < length / 2
    ensures var h, a, b := Halfway(was, from, length, i), from + i, from + length - 1 - i;
            h[a := h[b]][b := h[a]] == Halfway(was, from, length, i + 1)
  {
  }

  /** Once the halves have been swapped the text is reversed. */
  lemma AllSwapped(was: seq<char>, from: nat)
    requires Terminated(was, from)
    ensures var text := TextAt(was, from);
            Halfway(was, from, |text|, |text| / 2) == WithText(was, from, Reversed(text))
  {
    var text := TextAt(was, from);
    var n := |text|;
    var now, target := Halfway(was, from, n, n / 2), WithText(was, from, Reversed(text));
    forall k | 0 <= k < |was|
      ensures now[k] == target[k]
    {
      if from <= k < from + n {
        assert target[k] == Reversed(text)[k - from] == text[n - 1 - (k - from)];
        assert text[n - 1 - (k - from)] == was[from..from + n][n - 1 - (k - from)] == was[2 * from + n - 1 - k];
        if !(k < from + n / 2 || from + n - n / 2 <= k) {
          assert 2 * from + n - 1 - k == k;
        }
      }
    }
  }

  /** The buffer holds exactly `text` at its start, and behind its terminator what it held before. */
  ghost predicate HoldsText(now: seq<char>, was: seq<char>, text: seq<char>) {
    && |now| == |was| && |text| < |now|
    && now[..|text|] == text && now[|text|] == '\0' && now[|text| + 1..] == was[|text| + 1..]
  }

  /** Emits the digits of a positive number from `from` on, the least significant first, and terminates them. */
  method EmitDigits(value: nat, base: nat, buffer: array<char>, from: nat) returns (i: nat)
    requires 2 <= base <= 16 && value > 0 && from + |Printed(value, base)| < buffer.Length
    modifies buffer
    ensures i == from + |Printed(value, base)|
    ensures buffer[..from] == old(buffer[..from]) && buffer[i + 1..] == old(buffer[i + 1..])
    ensures Reversed(buffer[from..i]) == Printed(value, base) && buffer[i] == '\0'
  {
    hide Printed, Reversed;
    var v := value;
    i := from;
    ghost var done: seq<char> := [];
    ghost var was := buffer[..];
    assert buffer[from..i] == done && Reversed(done) == [];
    while v > 0
      invariant from <= i && i + (if v > 0 then |Printed(v, base)| else 0) == from + |Printed(value, base)|
      invariant buffer[from..i] == done
      invariant Printed(value, base) == (if v > 0 then Printed(v, base) else []) + Reversed(done)
      invariant |was| == buffer.Length && forall k :: 0 <= k < |was| && !(from <= k < i) ==> buffer[k] == was[k]
      decreases v
    {
      NextDigit(v, base, done);
      OneDigitLess(v, base);
      EmitOne(v, base, buffer, from, i, done);
      done := done + [DigitChar(v % base)];
      v := v / base;
      i := i + 1;
    }
    buffer[i] := '\0';
  }

  method EmitOne(v: nat, base: nat, buffer: array<char>, ghost from: nat, i: nat, ghost done: seq<char>)
    requires 0 < base && v % base < 16 && from <= i < buffer.Length && buffer[from..i] == done
    modifies buffer
    ensures buffer[from..i + 1] == done + [DigitChar(v % base)]
    ensures forall k :: 0 <= k < buffer.Length && k != i ==> buffer[k] == old(buffer[k])
  {
    buffer[i] := DigitChar(v % base);
  }

  /** Reverses the digits emitted from `from` on. */
  lemma ReversedDigits(was: seq<char>, now: seq<char>, digits: seq<char>, from: nat, i: nat)
    requires from <= i < |was| && i == from + |digits| && was[i] == '\0' && Reversed(was[from..i]) == digits
    requires forall k :: 0 <= k < |digits| ==> digits[k] != '\0'
    ensures Terminated(was, from) && TextAt(was, from) == was[from..i]
    ensures now == WithText(was, from, Reversed(TextAt(was, from))) ==>
              |now| == |was| && now[from..i] == digits && now[..from] == was[..from] && now[i..] == was[i..]
  {
    forall k | from <= k < i
      ensures was[k] != '\0'
    {
      assert was[k] == was[from..i][k - from] == digits[|digits| - 1 - (k - from)];
    }
    TextIsUnique(was, from, i - from);
  }

  method HexToString(value: nat, buffer: array<char>) returns (n: nat)
    requires value < QWORD_LIMIT && |Printed(value, 16)| < buffer.Length
    modifies buffer
    ensures n == |Printed(value, 16)| && HoldsText(buffer[..], old(buffer[..]), Printed(value, 16))
  {
    if value == 0 {
      buffer[0] := '0';
      buffer[1] := '\0';
      return 1;
    }
    n := PrintDigits(value, 16, buffer, 0);
  }

  /** Emits the digits of a positive number and reverses them. */
  method PrintDigits(value: nat, base: nat, buffer: array<char>, from: nat) returns (n: nat)
    requires 2 <= base <= 16 && value > 0 && from + |Printed(value, base)| < buffer.Length
    modifies buffer
    ensures n == from + |Printed(value, base)| && buffer[n] == '\0'
    ensures buffer[..from] == old(buffer[..from]) && buffer[from..n] == Printed(value, base)
    ensures buffer[n + 1..] == old(buffer[n + 1..])
  {
    hide WithText, Printed, TextAt, Reversed;
    n := EmitDigits(value, base, buffer, from);
    ghost var emitted := buffer[..];
    PrintedHasNoZero(value, base);
    assert emitted[from..n] == buffer[from..n];
    ReversedDigits(emitted, emitted, Printed(value, base), from, n);
    ReverseString(buffer, from);
    ReversedDigits(emitted, buffer[..], Printed(value, base), from, n);
    ghost var now := buffer[..];
    assert now[n..] == emitted[n..];
    assert now[n] == now[n..][0] == emitted[n..][0] == emitted[n];
    assert now[n + 1..] == now[n..][1..] == emitted[n..][1..] == emitted[n + 1..];
  }

  lemma PrintedHasNoZero(value: nat, base: nat)
    requires 2 <= base <= 16
    ensures forall k :: 0 <= k < |Printed(value, base)| ==> Printed(value, base)[k] != '\0'
  {
  }

  method DecimalToString(value: int, buffer: array<char>) returns (n: nat)
    requires LONG_MIN <= value <= -1 - LONG_MIN && |DecimalText(value)| < buffer.Length
    modifies buffer
    ensures n == |DecimalText(value)| && HoldsText(buffer[..], old(buffer[..]), DecimalText(value))
  {
    if value == 0 {
      buffer[0] := '0';
      buffer[1] := '\0';
      return 1;
    }
    var v, from := value, 0;
    if value < 0 {
      from := 1;
      buffer[0] := '-';
      v := Wrapped(-value);
    }
    if v < 0 {
      // The negated number is still negative: the digit loop ends at once.
      buffer[1] := '\0';
      return 1;
    }
    n := PrintDigits(v, 10, buffer, from);
    assert buffer[..n] == buffer[..from] + buffer[from..n];
  }

  lemma {:induction false} TextEnds(s: seq<char>, from: nat)
    requires Terminated(s, from)
    ensures s[from + |TextAt(s, from)|] == '\0'
    decreases |s| - from
  {
    if s[from] == '\0' {
    } else {
      TextEnds(s, from + 1);
    }
  }

  /** Reads a hexadecimal text in 64-bit arithmetic. */
  method HexStringToQword(buffer: array<char>) returns (value: nat)
    requires Terminated(buffer[..], 0)
    ensures value == HexValue(TextAt(buffer[..], 0)) % QWORD_LIMIT
  {
    ghost var text := TextAt(buffer[..], 0);
    TextEnds(buffer[..], 0);
    value := 0;
    var i := 0;
    assert text[..0] == [];
    while buffer[i] != '\0'
      invariant 0 <= i <= |text|
      invariant value == HexValue(text[..i]) % QWORD_LIMIT
      decreases |text| - i
    {
      ModOnce(HexValue(text[..i]), HexDigit(buffer[i]));
      assert text[..i + 1][..i] == text[..i] && text[i] == buffer[i];
      value := value * 16 % QWORD_LIMIT;
      value := (value + HexDigit(buffer[i])) % QWORD_LIMIT;
      i := i + 1;
    }
    assert text[..|text|] == text;
  }

  /** Reads a decimal text, with an optional sign, in 64-bit arithmetic. */
  method DecimalStringToLong(buffer: array<char>) returns (value: int)
    requires Terminated(buffer[..], 0)
    ensures value == Wrapped(SignedValue(TextAt(buffer[..], 0)))
  {
    ghost var text := TextAt(buffer[..], 0);
    TextEnds(buffer[..], 0);
    var start := if buffer[0] == '-' then 1 else 0;
    ghost var rest := text[start..];
    value := 0;
    var i := start;
    assert rest[..0] == [];
    while buffer[i] != '\0'
      invariant start <= i <= |text|
      invariant value == Wrapped(DecimalValue(rest[..i - start]))
      decreases |text| - i
    {
      value := NextDecimal(value, buffer[i], rest, i - start);
      i := i + 1;
    }
    assert rest[..|rest|] == rest;
    SignDecides(text);
    if buffer[0] == '-' {
      NegateWrapped(DecimalValue(rest));
      value := Wrapped(-value);
    }
  }

  method NextDecimal(value: int, c: char, ghost rest: seq<char>, ghost j: nat) returns (r: int)
    requires j < |rest| && rest[j] == c && value == Wrapped(DecimalValue(rest[..j]))
    ensures r == Wrapped(DecimalValue(rest[..j + 1]))
  {
    hide Wrapped;
    WrapOnce(DecimalValue(rest[..j]), DecimalDigit(c));
    assert rest[..j + 1][..j] == rest[..j];
    r := Wrapped(value * 10);
    r := Wrapped(r + DecimalDigit(c));
  }

  lemma SignDecides(text: seq<char>)
    ensures text != [] && text[0] == '-' ==> SignedValue(text) == -DecimalValue(text[1..])
    ensures text == [] || text[0] != '-' ==> SignedValue(text) == DecimalValue(text[0..])
  {
    assert text[0..] == text;
  }

  /** What has been printed is the text read back. */
  lemma PrintedIsRead(now: seq<char>, was: seq<char>, text: seq<char>)
    requires HoldsText(now, was, text) && forall i :: 0 <= i < |text| ==> text[i] != '\0'
    ensures Terminated(now, 0) && TextAt(now, 0) == text
  {
    forall i | 0 <= i < |text|
      ensures now[i] != '\0'
    {
      assert now[i] == now[..|text|][i];
    }
    TextIsUnique(now, 0, |text|);
  }

  /** Printing then reading gives every QWORD back. */
  method HexThereAndBack(value: nat, buffer: array<char>) returns (back: nat)
    requires value < QWORD_LIMIT && |Printed(value, 16)| < buffer.Length
    modifies buffer
    ensures back == value
  {
    var n := HexToString(value, buffer);
    PrintedIsRead(buffer[..], old(buffer[..]), Printed(value, 16));
    back := HexStringToQword(buffer);
    HexRoundTrip(value);
  }

  /** Printing then reading gives a long back if and only if it is not the least one. */
  method DecimalThereAndBack(value: int, buffer: array<char>) returns (back: int)
    requires LONG_MIN <= value <= -1 - LONG_MIN && |DecimalText(value)| < buffer.Length
    modifies buffer
    ensures back == value <==> value != LONG_MIN
  {
    var n := DecimalToString(value, buffer);
    PrintedIsRead(buffer[..], old(buffer[..]), DecimalText(value));
    back := DecimalStringToLong(buffer);
    LongRoundTrip(value);
  }

  /** A buffer of 17 characters holds every QWORD, and one of 21 every long. */
  lemma {:induction false} DigitsFit(value: nat, base: nat, digits: nat, limit: nat)
    requires (base == 10 || base == 16) && value < limit && limit == Power(base, digits) && digits > 0
    ensures |Printed(value, base)| <= digits
    decreases digits
  {
    if value < base {
    } else {
      Shrinks(value, base);
      if digits > 1 {
        DigitsFit(value / base, base, digits - 1, Power(base, digits - 1));
      }
    }
  }

  function Power(base: nat, k: nat): nat {
    if k == 0 then 1 else base * Power(base, k - 1)
  }

  lemma BuffersSuffice(value: int)
    ensures 0 <= value < QWORD_LIMIT ==> |Printed(value, 16)| <= 16
    ensures LONG_MIN <= value <= -1 - LONG_MIN ==> |DecimalText(value)| <= 20
  {
    PowersCover();
    if 0 <= value < QWORD_LIMIT {
      DigitsFit(value, 16, 16, Power(16, 16));
    }
    if LONG_MIN < value <= -1 - LONG_MIN {
      DigitsFit(if value < 0 then -value else value, 10, 19, Power(10, 19));
    }
  }

  lemma PowersCover()
    ensures Power(16, 16) == QWORD_LIMIT && Power(10, 19) > -LONG_MIN
  {
    assert Power(16, 4) == 0x1_0000;
    assert Power(16, 8) == 0x1_0000_0000;
    assert Power(16, 12) == 0x1_0000_0000_0000;
    assert Power(10, 5) == 100_000;
    assert Power(10, 10) == 10_000_000_000;
    assert Power(10, 15) == 1_000_000_000_000_000;
  }
}
