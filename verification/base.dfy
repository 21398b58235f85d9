/** Shared definitions: the buffer limits of prgi.c, readings of C floats that may be NaN or
    infinite, snprintf-style truncation into a fixed buffer, and decimal rendering of integers. */
module Base {

  /** Maximum supported terminal width (PRGI_MAXLINELEN). */
  const MAXLINELEN: int := 256
  /** Maximum length of the progress bar (PRGI_MAXBARLEN). */
  const MAXBARLEN: int := MAXLINELEN
  /** Extra buffer room for ANSI sequences (PRGI_EXTRASIZE). */
  const EXTRASIZE: int := 9
  /** Size of the line buffer of prgi_printf, terminator included. */
  const LINEBUFSIZE: int := MAXLINELEN + EXTRASIZE + 1
  /** Size of the bar buffers, terminator included. */
  const BARBUFSIZE: int := MAXBARLEN + EXTRASIZE + 1

  /** A C float as an exact real; NonFinite stands for NaN and the infinities. */
  datatype Reading = Finite(value: real) | NonFinite

  /** The float quotient a / b: non-finite exactly when b is zero. */
  function Quotient(a: real, b: real): (q: Reading)
    ensures q.Finite? <==> b != 0.0
    ensures q.Finite? ==> q.value * b == a
    ensures q.Finite? && a >= 0.0 && b > 0.0 ==> 0.0 <= q.value
    ensures q.Finite? && 0.0 <= a <= b ==> q.value <= 1.0
  {
    if b == 0.0 then NonFinite else Finite(a / b)
  }

  /** The string a buffer of `size` bytes holds after snprintf writes `s` into it: at most
      size - 1 characters, the terminator taking the last byte. */
  function Truncate(s: seq<char>, size: int): (r: seq<char>)
    requires size >= 1
    ensures |r| < size && |r| <= |s| && r == s[..|r|]
    ensures |s| < size ==> r == s
    ensures |s| >= size ==> |r| == size - 1
  {
    if |s| < size then s else s[..size - 1]
  }

  /** n copies of c, as memset writes them. */
  function Repeat(c: char, n: nat): (r: seq<char>)
    ensures |r| == n
    ensures forall i :: 0 <= i < n ==> r[i] == c
  {
    seq(n, _ => c)
  }

  function DigitChar(d: nat): (c: char)
    requires d < 10
    ensures '0' <= c <= '9'
  {
    ('0' as int + d) as char
  }

  predicate IsDigit(c: char) {
    '0' <= c <= '9'
  }

  /** printf's "%d" for a non-negative integer. */
  function Dec(n: nat): (r: seq<char>)
    ensures |r| >= 1
    ensures forall i :: 0 <= i < |r| ==> IsDigit(r[i])
    ensures |r| == 1 <==> n < 10
  {
    if n < 10 then [DigitChar(n)] else Dec(n / 10) + [DigitChar(n % 10)]
  }

  /** printf's "%d" for any int. */
  function IntText(i: int): seq<char> {
    if i < 0 then "-" + Dec(-i) else Dec(i)
  }

  /** printf's "%02d" for a non-negative integer. */
  function Pad2(n: nat): (r: seq<char>)
    ensures n < 100 ==> |r| == 2
    ensures forall i :: 0 <= i < |r| ==> IsDigit(r[i])
  {
    if n < 10 then "0" + Dec(n) else Dec(n)
  }

  /** The number a string of decimal digits denotes. */
  function DigitsValue(s: seq<char>): nat
    requires forall i :: 0 <= i < |s| ==> IsDigit(s[i])
  {
    if s == [] then 0
    else
      var last := s[|s| - 1];
      assert IsDigit(last);
      DigitsValue(s[..|s| - 1]) * 10 + (last as int - '0' as int)
  }

  /** Reading the decimal text of n back gives n. */
  lemma {:induction false} DecRoundTrip(n: nat)
    ensures DigitsValue(Dec(n)) == n
  {
    if n >= 10 {
      var s := Dec(n);
      assert s[..|s| - 1] == Dec(n / 10);
      DecRoundTrip(n / 10);
    }
  }

  /** "%02d" of a value below 100 is two digits that read back as the value. */
  lemma Pad2RoundTrip(n: nat)
    requires n < 100
    ensures |Pad2(n)| == 2 && DigitsValue(Pad2(n)) == n
  {
    DecRoundTrip(n);
    if n < 10 {
      assert Pad2(n)[..1] == "0";
    }
  }
}
