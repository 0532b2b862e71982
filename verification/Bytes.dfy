/** Bytes, the driver's constants, and the decimal numbers that occur in AT text. */
module Bytes {

  // A byte is carried as the char with its code, so that an AT literal is the
  // sequence of bytes on the wire. The driver compares bytes and never computes
  // with them.
  type byte = char

  datatype Option<+T> = None | Some(value: T)

  const SOCKET_SEND_MAX: nat := 1460
  const SOCKET_RECV_MAX: nat := 1500
  const RX_BUF: nat := SOCKET_RECV_MAX + 256
  const TX_BUF: nat := SOCKET_SEND_MAX + 256
  const RX_CAP: nat := RX_BUF - 1
  const TX_CAP: nat := TX_BUF - 1
  const LENS_SIZE: nat := 15
  const UINT32_RANGE: nat := 0x1_0000_0000

  const NUL: byte := '\0'
  const CTRL_Z: byte := '\U{1A}'

  predicate IsNewline(c: byte) {
    c == '\r' || c == '\n'
  }

  predicate AllNewlines(s: seq<byte>) {
    forall i | 0 <= i < |s| :: IsNewline(s[i])
  }

  predicate NoNewline(s: seq<byte>) {
    forall i | 0 <= i < |s| :: !IsNewline(s[i])
  }

  /** A text argument of the C code: no terminator inside. */
  predicate IsText(s: seq<byte>) {
    forall i | 0 <= i < |s| :: s[i] != NUL
  }

  /** A C string: a text and its terminator. */
  function CString(text: seq<byte>): seq<byte> {
    text + [NUL]
  }

  /** Prefix test by structure; StartsWithIsPrefix relates it to the prefix order. */
  predicate StartsWith(s: seq<byte>, prefix: seq<byte>) {
    prefix == [] || (s != [] && s[0] == prefix[0] && StartsWith(s[1..], prefix[1..]))
  }

  lemma {:induction false} StartsWithIsPrefix(s: seq<byte>, prefix: seq<byte>)
    ensures StartsWith(s, prefix) <==> prefix <= s
  {
    if prefix == [] || s == [] {
    } else {
      StartsWithIsPrefix(s[1..], prefix[1..]);
      if prefix[0] == s[0] && prefix[1..] <= s[1..] {
        assert prefix == [prefix[0]] + prefix[1..] && s == [s[0]] + s[1..];
      }
      if prefix <= s {
        assert s[1..][..|prefix| - 1] == s[..|prefix|][1..];
      }
    }
  }

  // ---- decimal numbers -------------------------------------------------------

  predicate IsDigit(c: byte) {
    '0' <= c <= '9'
  }

  predicate AllDigits(s: seq<byte>) {
    s == [] || (AllDigits(s[..|s| - 1]) && IsDigit(s[|s| - 1]))
  }

  function Digit(d: nat): (c: byte)
    requires d < 10
  {
    "0123456789"[d]
  }

  function DigitValue(c: byte): (d: nat)
    requires IsDigit(c)
  {
    c as int - '0' as int
  }

  function Value(s: seq<byte>): nat
    requires AllDigits(s)
  {
    if s == [] then 0 else Value(s[..|s| - 1]) * 10 + DigitValue(s[|s| - 1])
  }

  /** anj_uint32_to_string_value: the shortest decimal text of a number. */
  function Decimal(n: nat): (s: seq<byte>)
    ensures s != [] && AllDigits(s)
  {
    if n < 10 then
      assert AllDigits([Digit(n)][..0]);
      [Digit(n)]
    else
      var s := Decimal(n / 10) + [Digit(n % 10)];
      assert s[..|s| - 1] == Decimal(n / 10);
      s
  }

  /** anj_string_to_uint32_value: fails on an empty text and on a non-digit. */
  function ParseDecimal(s: seq<byte>): Option<nat> {
    if s != [] && AllDigits(s) && Value(s) < UINT32_RANGE then Some(Value(s)) else None
  }

  lemma {:induction false} DecimalValue(n: nat)
    ensures Value(Decimal(n)) == n
  {
    if n < 10 {
    } else {
      DecimalValue(n / 10);
      assert Decimal(n)[..|Decimal(n)| - 1] == Decimal(n / 10);
    }
  }

  lemma {:induction false} DigitsAreNoNewlines(s: seq<byte>)
    requires AllDigits(s)
    ensures NoNewline(s)
  {
    if s == [] {
    } else {
      DigitsAreNoNewlines(s[..|s| - 1]);
    }
  }

  function Tens(k: nat): nat {
    if k == 0 then 1 else 10 * Tens(k - 1)
  }

  lemma {:induction false} ValueBound(s: seq<byte>)
    requires AllDigits(s)
    ensures Value(s) < Tens(|s|)
  {
    if s == [] {
    } else {
      ValueBound(s[..|s| - 1]);
    }
  }

  lemma FourDigits(s: seq<byte>)
    requires AllDigits(s) && |s| <= 4
    ensures Value(s) < 10000
  {
    ValueBound(s);
    assert Tens(0) == 1 && Tens(1) == 10 && Tens(2) == 100 && Tens(3) == 1000 && Tens(4) == 10000;
  }

  /** Printing and parsing are inverse on every 32-bit number. */
  lemma DecimalRoundTrip(n: nat)
    requires n < UINT32_RANGE
    ensures ParseDecimal(Decimal(n)) == Some(n)
  {
    DecimalValue(n);
  }

  /** Four digits, the size of the handler's scratch array, hold exactly the numbers below 10000. */
  lemma DecimalLength(n: nat)
    ensures |Decimal(n)| <= 4 <==> n < 10000
    ensures |Decimal(n)| <= 3 <==> n < 1000
  {
    assert Decimal(n) != [];
    if n >= 10 {
      assert |Decimal(n)| == |Decimal(n / 10)| + 1;
      if n >= 100 {
        assert |Decimal(n / 10)| == |Decimal(n / 10 / 10)| + 1;
        if n >= 1000 {
          assert |Decimal(n / 10 / 10)| == |Decimal(n / 10 / 10 / 10)| + 1;
          if n >= 10000 {
            assert |Decimal(n / 10 / 10 / 10)| == |Decimal(n / 10 / 10 / 10 / 10)| + 1;
          }
        }
      }
    }
  }

  /** The digits are the ASCII ones, in both directions. */
  lemma DigitsAreAscii(c: byte, d: nat)
    requires d < 10
    ensures Digit(d) as int == 48 + d
    ensures IsDigit(c) <==> 48 <= c as int <= 57
    ensures IsDigit(c) ==> DigitValue(c) == c as int - 48
  {
    assert "0123456789"[d] as int == 48 + d;
  }

  lemma TensAndOnes(n: nat, d: nat)
    requires d < 10
    ensures (10 * n + d) / 10 == n && (10 * n + d) % 10 == d
  {
  }

  /** One more digit behind a number. */
  lemma DecimalSnoc(n: nat, d: nat, m: nat, text: seq<byte>)
    requires n > 0 && d < 10 && m == 10 * n + d && Decimal(n) == text
    ensures Decimal(m) == text + [(48 + d) as char]
  {
    TensAndOnes(n, d);
    DigitsAreAscii('0', d);
  }

  lemma DecimalOfDigit(a: nat)
    requires 0 < a < 10
    ensures Decimal(a) == [(48 + a) as char]
  {
    DigitsAreAscii('0', a);
  }

  /** A number is written with its most significant digit first: two digits more, behind x. */
  lemma DecimalText(x: nat, text: seq<byte>, c: nat, d: nat)
    requires x > 0 && c < 10 && d < 10 && Decimal(x) == text
    ensures Decimal(100 * x + 10 * c + d) == text + [(48 + c) as char] + [(48 + d) as char]
  {
    DecimalSnoc(x, c, 10 * x + c, text);
    DecimalSnoc(10 * x + c, d, 100 * x + 10 * c + d, text + [(48 + c) as char]);
  }
}
