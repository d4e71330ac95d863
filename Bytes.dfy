/** Bytes on the wire: the frame delimiters, the longitudinal redundancy check
    (LRC), the zero-padded ASCII decimal fields the frames carry, and the two C
    library routines the decoders lean on (strlen and strtol). */
module Bytes {

  type byte = bv8

  const NUL: byte := 0x00
  const STX: byte := 0x02
  const ETX: byte := 0x03
  const PIPE: byte := 0x7C
  const PLUS: byte := 0x2B
  const MINUS: byte := 0x2D
  /** ASCII '0': the first digit, and the placeholder for a checksum not yet computed. */
  const ZERO: byte := 0x30

  predicate IsDigit(b: byte) { ZERO <= b <= 0x39 }

  predicate AllDigits(s: seq<byte>) { forall i :: 0 <= i < |s| ==> IsDigit(s[i]) }

  /** The bytes C's isspace accepts: space, and tab through carriage return. */
  predicate IsSpace(b: byte) { b == 0x20 || 0x09 <= b <= 0x0D }

  function DigitValue(b: byte): (d: nat)
    requires IsDigit(b)
    ensures d < 10
  {
    (b - ZERO) as nat
  }

  function DigitByte(d: nat): (b: byte)
    requires d < 10
    ensures IsDigit(b) && DigitValue(b) == d
  {
    ZERO + d as byte
  }

  // ---------------------------------------------------------------------
  // Checksum

  /** Exclusive-or of all bytes of s. */
  function Xor(s: seq<byte>): byte
  {
    if s == [] then 0 else Xor(s[..|s| - 1]) ^ s[|s| - 1]
  }

  /** The checksum of a frame: the exclusive-or of every byte after the leading
      STX up to and including the ETX, i.e. all bytes but the first and the
      last (the last byte is the checksum slot itself). */
  function Lrc(frame: seq<byte>): byte
    requires |frame| >= 2
  {
    Xor(frame[1..|frame| - 1])
  }

  /** The exclusive-or of every prefix, one byte more at a time. */
  lemma XorSteps(s: seq<byte>)
    ensures Xor(s[..0]) == 0
    ensures forall i :: 0 < i <= |s| ==> Xor(s[..i]) == Xor(s[..i - 1]) ^ s[i - 1]
    ensures Xor(s) == Xor(s[..|s|])
  {
    forall i | 0 < i <= |s|
      ensures Xor(s[..i]) == Xor(s[..i - 1]) ^ s[i - 1]
    {
      assert s[..i][..i - 1] == s[..i - 1];
    }
    assert s[..|s|] == s;
  }

  /** Replacing one byte changes the exclusive-or by exactly the old and new byte. */
  lemma {:induction false} XorUpdate(s: seq<byte>, i: nat, b: byte)
    requires i < |s|
    ensures Xor(s[i := b]) == Xor(s) ^ s[i] ^ b
  {
    var n := |s| - 1;
    if i < n {
      assert s[i := b][..n] == s[..n][i := b];
      XorUpdate(s[..n], i, b);
    } else {
      assert s[i := b][..n] == s[..n];
    }
  }

  /** Corrupting any single byte covered by the checksum changes the checksum. */
  lemma LrcDetectsSingleByteChange(frame: seq<byte>, i: nat, b: byte)
    requires |frame| >= 2 && 1 <= i < |frame| - 1 && b != frame[i]
    ensures Lrc(frame[i := b]) != Lrc(frame)
  {
    var body := frame[1..|frame| - 1];
    assert frame[i := b][1..|frame| - 1] == body[i - 1 := b];
    XorUpdate(body, i - 1, b);
  }

  /** The collisions of an exclusive-or checksum: swapping two covered bytes is
      not detected, and neither is corrupting the leading byte or the slot. */
  lemma LrcSwapUndetected(frame: seq<byte>, i: nat, j: nat)
    requires |frame| >= 2 && 1 <= i < |frame| - 1 && 1 <= j < |frame| - 1
    ensures Lrc(frame[i := frame[j]][j := frame[i]]) == Lrc(frame)
  {
    var body := frame[1..|frame| - 1];
    var once := body[i - 1 := body[j - 1]];
    assert frame[i := frame[j]][j := frame[i]][1..|frame| - 1] == once[j - 1 := body[i - 1]];
    XorUpdate(body, i - 1, body[j - 1]);
    XorUpdate(once, j - 1, body[i - 1]);
  }

  lemma LrcIgnoresEnds(frame: seq<byte>, first: byte, last: byte)
    requires |frame| >= 2
    ensures Lrc(frame[0 := first][|frame| - 1 := last]) == Lrc(frame)
  {
    assert frame[0 := first][|frame| - 1 := last][1..|frame| - 1] == frame[1..|frame| - 1];
  }

  // ---------------------------------------------------------------------
  // Decimal fields, as written by sprintf("%0<width>d") and read by strtol

  function Pow10(n: nat): (p: nat)
    ensures p >= 1
  {
    if n == 0 then 1 else 10 * Pow10(n - 1)
  }

  /** The last `width` decimal digits of n, most significant first. */
  function ZeroPad(n: nat, width: nat): (r: seq<byte>)
    ensures |r| == width && AllDigits(r)
  {
    if width == 0 then [] else ZeroPad(n / 10, width - 1) + [DigitByte(n % 10)]
  }

  /** The value of a run of decimal digits, most significant first. */
  function DecimalValue(s: seq<byte>): nat
    requires AllDigits(s)
  {
    if s == [] then 0 else DecimalValue(s[..|s| - 1]) * 10 + DigitValue(s[|s| - 1])
  }

  lemma {:induction false} ZeroPadRoundTrip(n: nat, width: nat)
    requires n < Pow10(width)
    ensures DecimalValue(ZeroPad(n, width)) == n
  {
    if width > 0 {
      var r := ZeroPad(n, width);
      assert r[..width - 1] == ZeroPad(n / 10, width - 1);
      assert n / 10 < Pow10(width - 1);
      ZeroPadRoundTrip(n / 10, width - 1);
    }
  }

  /** Values that "%0<width>d" prints in exactly `width` characters: the sign of
      a negative value takes one of them. */
  predicate FitsWidth(n: int, width: nat)
  {
    width > 0 && -(Pow10(width - 1) as int) < n < Pow10(width)
  }

  /** sprintf("%0<width>d", n) for a value that fits the width. */
  function FormatDecimal(n: int, width: nat): (r: seq<byte>)
    requires FitsWidth(n, width)
    ensures |r| == width
    ensures n >= 0 ==> AllDigits(r)
    ensures n < 0 ==> r[0] == MINUS && AllDigits(r[1..])
  {
    if n < 0 then [MINUS] + ZeroPad(-n, width - 1) else ZeroPad(n, width)
  }

  /** The longest prefix of s made of digits. */
  function DigitRun(s: seq<byte>): (r: seq<byte>)
    ensures AllDigits(r) && r <= s
    ensures |r| < |s| ==> !IsDigit(s[|r|])
  {
    if s == [] || !IsDigit(s[0]) then [] else [s[0]] + DigitRun(s[1..])
  }

  function SkipSpaces(s: seq<byte>): (r: seq<byte>)
    ensures |r| <= |s| && r == s[|s| - |r|..]
    ensures r != [] ==> !IsSpace(r[0])
  {
    if s != [] && IsSpace(s[0]) then SkipSpaces(s[1..]) else s
  }

  /** strtol(s, NULL, 10): leading white space, an optional sign, then the
      longest run of digits; 0 when there is none. */
  function StrToL(s: seq<byte>): int
  {
    var t := SkipSpaces(s);
    if t != [] && t[0] == MINUS then -(DecimalValue(DigitRun(t[1..])) as int)
    else if t != [] && t[0] == PLUS then DecimalValue(DigitRun(t[1..]))
    else DecimalValue(DigitRun(t))
  }

  lemma {:induction false} DigitRunOfDigits(s: seq<byte>)
    requires AllDigits(s)
    ensures DigitRun(s) == s
  {
    if s != [] {
      DigitRunOfDigits(s[1..]);
    }
  }

  /** On a field made only of digits strtol is the plain decimal value. */
  lemma StrToLDigits(s: seq<byte>)
    requires AllDigits(s)
    ensures StrToL(s) == DecimalValue(s)
  {
    DigitRunOfDigits(s);
  }

  /** strtol reads back exactly what sprintf("%0<width>d") wrote. */
  lemma FormatDecimalRoundTrip(n: int, width: nat)
    requires FitsWidth(n, width)
    ensures StrToL(FormatDecimal(n, width)) == n
  {
    var f := FormatDecimal(n, width);
    if n < 0 {
      var m: nat := -n;
      assert f == [MINUS] + ZeroPad(m, width - 1);
      NegativeRoundTrip(m, width - 1);
    } else {
      assert f == ZeroPad(n, width);
      PaddedRoundTrip(n, width);
    }
  }

  lemma PaddedRoundTrip(m: nat, width: nat)
    requires m < Pow10(width)
    ensures StrToL(ZeroPad(m, width)) == m
  {
    StrToLDigits(ZeroPad(m, width));
    ZeroPadRoundTrip(m, width);
  }

  lemma NegativeRoundTrip(m: nat, digits: nat)
    requires 0 < m < Pow10(digits)
    ensures StrToL([MINUS] + ZeroPad(m, digits)) == -(m as int)
  {
    var r := [MINUS] + ZeroPad(m, digits);
    assert SkipSpaces(r) == r;
    assert r[1..] == ZeroPad(m, digits);
    DigitRunOfDigits(r[1..]);
    ZeroPadRoundTrip(m, digits);
  }

  // ---------------------------------------------------------------------
  // C strings

  /** strlen: the number of bytes before the first NUL, or all of them when
      there is none (the model never reads past the end of a buffer). */
  function StrLen(s: seq<byte>): (n: nat)
    ensures n <= |s|
    ensures n < |s| ==> s[n] == NUL
  {
    if s == [] || s[0] == NUL then 0 else 1 + StrLen(s[1..])
  }

  /** No byte before the length is the terminator. */
  lemma {:induction false} StrLenBeforeTerminator(s: seq<byte>)
    ensures forall i :: 0 <= i < StrLen(s) ==> s[i] != NUL
  {
    if s != [] && s[0] != NUL {
      StrLenBeforeTerminator(s[1..]);
      assert forall i :: 1 <= i < StrLen(s) ==> s[i] == s[1..][i - 1];
    }
  }

  /** The length is the only n with no terminator before it and one at it
      (or the end of the buffer). */
  lemma {:induction false} StrLenIsTerminator(s: seq<byte>, n: nat)
    requires n <= |s|
    requires forall i :: 0 <= i < n ==> s[i] != NUL
    requires n < |s| ==> s[n] == NUL
    ensures StrLen(s) == n
  {
    if n > 0 {
      assert s[0] != NUL;
      assert forall i :: 0 <= i < n - 1 ==> s[1..][i] != NUL;
      StrLenIsTerminator(s[1..], n - 1);
    }
  }

  lemma StrLenNoNul(s: seq<byte>)
    requires NUL !in s
    ensures StrLen(s) == |s|
  {
    assert forall i :: 0 <= i < |s| ==> s[i] != NUL;
    StrLenIsTerminator(s, |s|);
  }

  /** strlen over a byte array, scanning for the terminator. */
  method ScanStrLen(buf: array<byte>) returns (n: nat)
    ensures n == StrLen(buf[..])
    ensures forall i :: 0 <= i < n ==> buf[i] != NUL
    ensures n < buf.Length ==> buf[n] == NUL
  {
    n := 0;
    while n < buf.Length && buf[n] != NUL
      invariant n <= buf.Length
      invariant forall i :: 0 <= i < n ==> buf[i] != NUL
    {
      n := n + 1;
    }
    StrLenIsTerminator(buf[..], n);
  }

  /** The bytes of s other than NUL, in order: what appending s one
      character at a time with strcat leaves, since strcat of an empty
      C string appends nothing. */
  function WithoutNul(s: seq<byte>): (r: seq<byte>)
    ensures |r| <= |s| && NUL !in r
  {
    if s == [] then []
    else WithoutNul(s[..|s| - 1]) + (if s[|s| - 1] == NUL then [] else [s[|s| - 1]])
  }

  lemma {:induction false} WithoutNulIdentity(s: seq<byte>)
    requires NUL !in s
    ensures WithoutNul(s) == s
  {
    if s != [] {
      WithoutNulIdentity(s[..|s| - 1]);
    }
  }

  lemma DigitsHaveNoNul(s: seq<byte>)
    requires AllDigits(s)
    ensures NUL !in s
  {
    assert forall i :: 0 <= i < |s| ==> s[i] != NUL;
  }
}
