/** Numbers as text in the kernel's library (lib.c): itoa with its strrev in place, and the %#x conversion. */
module Numerals {
  import opened Common

  const ZERO: byte := 48

  /** A radix that the table of digits has digits for. */
  type Radix = n: nat | 2 <= n <= 36 witness 10

  /** The digit of a value: 0 to 9, then A to Z. */
  function Symbol(d: nat): byte
    requires d < 36
  {
    if d < 10 then ZERO + d else 55 + d
  }

  lemma SymbolIs(d: nat)
    requires d < 36
    ensures Symbol(d) == "0123456789ABCDEFGHIJKLMNOPQRSTUVWXYZ"[d] as int
  {
  }

  /** The value of a digit. */
  function DigitValue(c: byte): nat {
    if 48 <= c <= 57 then c - 48 else if 65 <= c <= 90 then c - 55 else 36
  }

  /** The characters are digits of the radix. */
  ghost predicate Numeral(s: seq<byte>, radix: Radix) {
    forall i | 0 <= i < |s| :: DigitValue(s[i]) < radix
  }

  /** Positional notation. */
  function Value(s: seq<byte>, radix: Radix): nat {
    if s == [] then 0 else Value(s[..|s| - 1], radix) * radix + DigitValue(s[|s| - 1])
  }

  /** The digits of a value, lowest first, as itoa finds them. */
  function LowFirst(v: nat, radix: Radix): seq<byte> {
    if v == 0 then [] else Smaller(v, radix); [Symbol(v % radix)] + LowFirst(v / radix, radix)
  }

  function Reverse(s: seq<byte>): (r: seq<byte>)
    ensures |r| == |s|
  {
    seq<byte>(|s|, i requires 0 <= i < |s| => s[|s| - 1 - i])
  }

  /** The text that itoa leaves. */
  function Digits(v: nat, radix: Radix): seq<byte> {
    if v == 0 then [ZERO] else Reverse(LowFirst(v, radix))
  }

  lemma Halves(q: int, r: int, radix: Radix)
    requires 0 <= r < radix && 0 < q * radix + r
    ensures 0 <= q && 2 * q <= q * radix + r
  {
    if q < 0 {
      Negative(q, radix);
    }
    assert q * (radix - 2) >= 0;
  }

  lemma Negative(q: int, radix: Radix)
    requires q < 0
    ensures q * radix + radix <= 0
  {
    assert (-q - 1) * radix >= 0;
  }

  lemma Smaller(v: nat, radix: Radix)
    requires v > 0
    ensures 0 <= v / radix && v / radix <= v / 2 < v
    ensures v == v / radix * radix + v % radix && 0 <= v % radix < radix
  {
    Halves(v / radix, v % radix, radix);
  }

  lemma ReverseCons(c: byte, s: seq<byte>)
    ensures Reverse([c] + s) == Reverse(s) + [c]
  {
  }

  /** Evaluating what itoa wrote gives the number back; the digits are digits of the radix, and the first is not 0. */
  lemma {:induction false} ItoaRoundTrip(v: nat, radix: Radix)
    ensures Value(Digits(v, radix), radix) == v
    ensures Numeral(Digits(v, radix), radix)
    ensures Digits(v, radix) != [] && (v > 0 ==> Digits(v, radix)[0] != ZERO)
    decreases v
  {
    if v > 0 {
      Smaller(v, radix);
      var low, rest := Symbol(v % radix), LowFirst(v / radix, radix);
      ReverseCons(low, rest);
      assert Digits(v, radix) == Reverse(rest) + [low];
      assert (Reverse(rest) + [low])[..|rest|] == Reverse(rest);
      if v / radix == 0 {
        assert Reverse(rest) == [];
      } else {
        ItoaRoundTrip(v / radix, radix);
        assert Reverse(rest) == Digits(v / radix, radix);
      }
    }
  }

  /** No more digits than the number has bits. */
  function Bits(n: nat): nat {
    if n == 0 then 1 else 2 * Bits(n - 1)
  }

  lemma {:induction false} DigitsLength(v: nat, radix: Radix, n: nat)
    requires v < Bits(n)
    ensures |LowFirst(v, radix)| <= n
  {
    if v > 0 {
      Smaller(v, radix);
      DigitsLength(v / radix, radix, n - 1);
    }
  }

  /** In any radix a 32-bit number fits 32 digits. */
  lemma ItoaFits(v: nat, radix: Radix)
    requires v < WORD
    ensures |Digits(v, radix)| <= 32
  {
    assert Bits(8) == 256 && Bits(16) == 65536;
    assert Bits(24) == 256 * 65536 && Bits(32) == WORD;
    DigitsLength(v, radix, 32);
  }

  function Nibbles(n: nat): nat {
    if n == 0 then 1 else 16 * Nibbles(n - 1)
  }

  lemma {:induction false} HexLength(v: nat, n: nat)
    requires v < Nibbles(n)
    ensures |LowFirst(v, 16)| <= n
  {
    if v > 0 {
      HexLength(v / 16, n - 1);
    }
  }

  /** A NUL-terminated string of length n is in the buffer. */
  ghost predicate Terminated(s: seq<byte>, at: nat, n: nat) {
    at + n < |s| && s[at + n] == 0 && forall i | at <= i < at + n :: s[i] != 0
  }

  /** strlen */
  method StrLen(buf: array<byte>, at: nat, ghost n: nat) returns (length: int)
    requires Terminated(buf[..], at, n)
    ensures length == n
  {
    length := 0;
    while buf[at + length] != 0
      invariant 0 <= length <= n
      decreases n - length
    {
      assert buf[..][at + length] != 0;
      length := length + 1;
    }
  }

  /** The first and last `done` bytes of a string of length n have changed places. */
  ghost predicate Turned(now: seq<byte>, was: seq<byte>, at: nat, n: nat, done: nat) {
    && |now| == |was| && at + n <= |was| && 2 * done <= n
    && (forall i | at <= i < at + done || at + n - done <= i < at + n :: now[i] == was[2 * at + n - 1 - i])
    && (forall i | 0 <= i < at || at + done <= i < at + n - done || at + n <= i < |was| :: now[i] == was[i])
  }

  lemma TurnTwo(now: seq<byte>, was: seq<byte>, at: nat, n: nat, done: nat)
    requires Turned(now, was, at, n, done) && 2 * done < n - 1
    ensures var first, last := at + done, at + n - 1 - done;
            Turned(now[last := now[first]][first := now[last]], was, at, n, done + 1)
  {
  }

  lemma AllTurned(now: seq<byte>, was: seq<byte>, at: nat, n: nat, done: nat)
    requires Turned(now, was, at, n, done) && n - 1 <= 2 * done
    ensures now == was[..at] + Reverse(was[at..at + n]) + was[at + n..]
  {
  }

  /** strrev: the string is reversed in place, and nothing else in the buffer changes. */
  method StrRev(buf: array<byte>, at: nat, ghost n: nat)
    requires Terminated(buf[..], at, n)
    modifies buf
    ensures buf[..] == old(buf[..at]) + Reverse(old(buf[at..at + n])) + old(buf[at + n..])
  {
    var length := StrLen(buf, at, n);
    var beg: int, end: int := 0, length - 1;
    assert Turned(buf[..], buf[..], at, n, 0);
    hide Turned, Reverse, Terminated;
    while beg < end
      invariant 0 <= beg <= n && end == n - 1 - beg && beg <= end + 1 && at + n < buf.Length
      invariant Turned(buf[..], old(buf[..]), at, n, beg)
    {
      TurnTwo(buf[..], old(buf[..]), at, n, beg);
      var tmp := buf[at + end];
      buf[at + end] := buf[at + beg];
      buf[at + beg] := tmp;
      beg := beg + 1;
      end := end - 1;
    }
    AllTurned(buf[..], old(buf[..]), at, n, beg);
  }

  /** The buffer holds the content from a position on, and is otherwise as it was. */
  ghost predicate Wrote(now: seq<byte>, was: seq<byte>, at: nat, content: seq<byte>) {
    at + |content| <= |was| && now == was[..at] + content + was[at + |content|..]
  }

  lemma WroteMore(now: seq<byte>, was: seq<byte>, at: nat, content: seq<byte>, c: byte)
    requires Wrote(now, was, at, content) && at + |content| < |now|
    ensures Wrote(now[at + |content| := c], was, at, content + [c])
  {
  }

  lemma WroteNothing(s: seq<byte>, at: nat)
    requires at <= |s|
    ensures Wrote(s, s, at, [])
  {
  }

  /** The lowest digit of what is left, and what is left after it. */
  method NextDigit(newval: nat, radix: Radix) returns (c: byte, rest: nat)
    requires newval > 0
    ensures rest < newval && LowFirst(newval, radix) == [c] + LowFirst(rest, radix)
  {
    Smaller(newval, radix);
    var i := newval % radix;
    c := Symbol(i);
    rest := newval / radix;
  }

  lemma WroteString(now: seq<byte>, was: seq<byte>, at: nat, value: nat, radix: Radix)
    requires Wrote(now, was, at, LowFirst(value, radix) + [0])
    ensures Terminated(now, at, |LowFirst(value, radix)|)
  {
    SymbolsNotNul(value, radix);
    WroteSlices(now, was, at, LowFirst(value, radix));
  }

  lemma WroteSlices(now: seq<byte>, was: seq<byte>, at: nat, s: seq<byte>)
    requires Wrote(now, was, at, s + [0])
    ensures |now| == |was| && at + |s| < |now| && now[..at] == was[..at] && now[at..at + |s|] == s
    ensures now[at + |s|] == 0 && now[at + |s| + 1..] == was[at + |s| + 1..]
    ensures forall i | at <= i < at + |s| :: now[i] == s[i - at]
  {
  }

  lemma WroteReversed(now: seq<byte>, later: seq<byte>, was: seq<byte>, at: nat, s: seq<byte>)
    requires Wrote(now, was, at, s + [0])
    requires at + |s| < |now| && later == now[..at] + Reverse(now[at..at + |s|]) + now[at + |s|..]
    ensures Wrote(later, was, at, Reverse(s) + [0])
  {
    WroteSlices(now, was, at, s);
    assert now[at + |s|..] == [0] + now[at + |s| + 1..];
  }

  lemma DigitsDone(content: seq<byte>, value: nat, radix: Radix)
    requires content + LowFirst(0, radix) == LowFirst(value, radix)
    ensures content == LowFirst(value, radix)
  {
  }

  /** itoa: the digits, then NUL. */
  method Itoa(value: nat, buf: array<byte>, at: nat, radix: Radix)
    requires value < WORD && at + |Digits(value, radix)| < buf.Length
    modifies buf
    ensures Wrote(buf[..], old(buf[..]), at, Digits(value, radix) + [0])
  {
    hide LowFirst, Wrote, Reverse;
    ghost var was := buf[..];
    WroteNothing(was, at);
    if value == 0 {
      WroteMore(buf[..], was, at, [], ZERO);
      WroteMore(buf[..][at := ZERO], was, at, [ZERO], 0);
      buf[at] := ZERO;
      buf[at + 1] := 0;
      return;
    }
    ItoaDigits(value, buf, at, radix);
  }

  /** itoa of a number that is not 0: the digits from the lowest, a NUL, and then the other way round. */
  method ItoaDigits(value: nat, buf: array<byte>, at: nat, radix: Radix)
    requires 0 < value && at + |LowFirst(value, radix)| < buf.Length
    modifies buf
    ensures Wrote(buf[..], old(buf[..]), at, Reverse(LowFirst(value, radix)) + [0])
  {
    hide LowFirst, Wrote, Terminated, Symbol, Reverse;
    ghost var was := buf[..];
    WroteNothing(was, at);
    var newval, i := value, 0;
    ghost var content: seq<byte> := [];
    while newval > 0
      invariant 0 <= newval && i == |content|
      invariant content + LowFirst(newval, radix) == LowFirst(value, radix)
      invariant Wrote(buf[..], was, at, content)
    {
      var c, rest := NextDigit(newval, radix);
      WroteMore(buf[..], was, at, content, c);
      assert content + ([c] + LowFirst(rest, radix)) == content + [c] + LowFirst(rest, radix);
      buf[at + i] := c;
      content := content + [c];
      i := i + 1;
      newval := rest;
    }
    DigitsDone(content, value, radix);
    WroteMore(buf[..], was, at, content, 0);
    buf[at + i] := 0;
    WroteString(buf[..], was, at, value, radix);
    ghost var now := buf[..];
    StrRev(buf, at, i);
    WroteReversed(now, buf[..], was, at, content);
  }

  lemma {:induction false} SymbolsNotNul(v: nat, radix: Radix)
    ensures forall i | 0 <= i < |LowFirst(v, radix)| :: LowFirst(v, radix)[i] != 0
  {
    if v > 0 {
      Smaller(v, radix);
      SymbolsNotNul(v / radix, radix);
    }
  }

  /** puts, up to the NUL. */
  method Puts(buf: array<byte>, at: nat, ghost n: nat) returns (out: seq<byte>)
    requires Terminated(buf[..], at, n)
    ensures out == buf[at..at + n]
  {
    out := [];
    while buf[at + |out|] != 0
      invariant |out| <= n && out == buf[at..at + |out|]
      decreases n - |out|
    {
      assert buf[..][at + |out|] != 0;
      out := out + [buf[at + |out|]];
    }
  }

  function Zeros(k: nat): (r: seq<byte>)
    ensures |r| == k
  {
    seq(k, _ => ZERO)
  }

  /** Zeros in front do not change a number. */
  lemma {:induction false} Padded(k: nat, s: seq<byte>, radix: Radix)
    requires Numeral(s, radix)
    ensures Numeral(Zeros(k) + s, radix) && Value(Zeros(k) + s, radix) == Value(s, radix)
    decreases |s|, k
  {
    if s != [] {
      Padded(k, s[..|s| - 1], radix);
      assert (Zeros(k) + s)[..k + |s| - 1] == Zeros(k) + s[..|s| - 1];
    } else if k > 0 {
      Padded(k - 1, [], radix);
      assert (Zeros(k) + [])[..k - 1] == Zeros(k - 1) + [];
    }
  }

  lemma WroteDigits(now: seq<byte>, was: seq<byte>, at: nat, s: seq<byte>, radix: Radix)
    requires Wrote(now, was, at, s + [0]) && Numeral(s, radix)
    ensures Terminated(now, at, |s|) && now[at..at + |s|] == s
  {
  }

  /** The %#x conversion of printf: exactly eight hexadecimal digits, and they are the number. */
  method PrintHex(value: nat) returns (out: seq<byte>)
    requires value < WORD
    ensures |out| == 8 && Numeral(out, 16) && Value(out, 16) == value
  {
    hide Wrote, Digits, Numeral, Value, Zeros;
    var conv := new byte[64];
    ghost var digits := Digits(value, 16);
    HexDigits(value);
    ItoaRoundTrip(value, 16);
    ghost var was := conv[..];
    Itoa(value, conv, 8, 16);
    WroteDigits(conv[..], was, 8, digits, 16);
    var start := StrLen(conv, 8, |digits|);
    var i := start;
    while i < 8
      invariant start <= i <= 8 && Terminated(conv[..], 8, start) && conv[8..8 + start] == digits
      invariant forall k | start <= k < i :: conv[k] == ZERO
    {
      conv[i] := ZERO;
      i := i + 1;
    }
    PaddedText(conv[..], start, digits);
    Padded(8 - start, digits, 16);
    ShownDigits(conv[..], start, digits);
    out := Puts(conv, start, 8);
  }

  /** Zeros before the digits at position 8. */
  lemma PaddedText(now: seq<byte>, start: nat, digits: seq<byte>)
    requires |now| == 64 && start <= 8 && now[8..8 + start] == digits
    requires forall k | start <= k < 8 :: now[k] == ZERO
    ensures now[start..start + 8] == Zeros(8 - start) + digits
  {
    assert now[start..start + 8] == now[start..8] + now[8..8 + start];
  }

  lemma HexDigits(value: nat)
    requires value < WORD
    ensures 1 <= |Digits(value, 16)| <= 8
  {
    HexLength(value, 8);
    ItoaRoundTrip(value, 16);
  }

  lemma ShownDigits(now: seq<byte>, start: nat, digits: seq<byte>)
    requires start + 8 < |now| && start <= 8 && |digits| == start && now[start..start + 8] == Zeros(8 - start) + digits
    requires Numeral(digits, 16) && now[start + 8] == 0
    ensures Terminated(now, start, 8)
  {
    forall i | start <= i < start + 8 ensures now[i] != 0 {
      assert now[i] == now[start..start + 8][i - start];
    }
  }
}
