/**
  Byte strings as the detector handles them: prefix and suffix tests, the
  search for a separator, a model of `std::from_chars` for `unsigned` (a
  bounded decimal parse where overflow is a failure), and the `std::format`
  renderings the detector uses (decimal `{}` and two-digit hex `{:02x}`).
  Characters stand for bytes; every reply byte is a `char` below 256.
 */
module Text {

  /** Largest value of a 32-bit `unsigned`. */
  const UintMax: nat := 0xFFFF_FFFF
  /** 32-bit `unsigned` arithmetic wraps modulo this. */
  const UintModulus: nat := 0x1_0000_0000

  /** `unsigned` wrap-around of an exact result. */
  function Wrap(x: nat): (r: nat)
    ensures r <= UintMax
    ensures x <= UintMax ==> r == x
  {
    x % UintModulus
  }

  predicate StartsWith(s: string, prefix: string)
  {
    |prefix| <= |s| && s[..|prefix|] == prefix
  }

  predicate EndsWith(s: string, suffix: string)
  {
    |suffix| <= |s| && s[|s| - |suffix|..] == suffix
  }

  /** Appending to a concatenation appends to its last part. */
  lemma ConcatAssoc(a: string, b: string, c: string)
    ensures (a + b) + c == a + (b + c)
  {
  }

  /** `isprint` in the C locale: the bytes 0x20 to 0x7e. */
  predicate IsPrint(c: char)
  {
    ' ' <= c <= '~'
  }

  predicate IsDigit(c: char)
  {
    '0' <= c <= '9'
  }

  predicate AllDigits(s: string)
  {
    forall i :: 0 <= i < |s| ==> IsDigit(s[i])
  }

  function DigitValue(c: char): (d: nat)
    requires IsDigit(c)
    ensures d < 10
  {
    c as int - '0' as int
  }

  /** The number a string of decimal digits denotes (leading zeros allowed). */
  function DecimalValue(d: string): nat
    requires AllDigits(d)
  {
    if d == [] then 0 else DecimalValue(d[..|d| - 1]) * 10 + DigitValue(d[|d| - 1])
  }

  /** `s.find(c)` starting at `from`: the first index at or after `from` holding `c`, or `|s|` (`npos`). */
  function IndexOf(s: string, c: char, from: nat): (r: nat)
    requires from <= |s|
    ensures from <= r <= |s|
    ensures r < |s| ==> s[r] == c
    ensures forall k :: from <= k < r ==> s[k] != c
    decreases |s| - from
  {
    if from == |s| then |s| else if s[from] == c then from else IndexOf(s, c, from + 1)
  }

  /** The search result is pinned down by where `c` first occurs. */
  lemma IndexOfIs(s: string, c: char, from: nat, r: nat)
    requires from <= r <= |s|
    requires r < |s| ==> s[r] == c
    requires forall k :: from <= k < r ==> s[k] != c
    ensures IndexOf(s, c, from) == r
  {
  }

  /** Length of the run of decimal digits in `s[from..to]` that starts at `from`. */
  function DigitRun(s: string, from: nat, to: nat): (n: nat)
    requires from <= to <= |s|
    ensures from + n <= to
    ensures forall k :: from <= k < from + n ==> IsDigit(s[k])
    ensures from + n < to ==> !IsDigit(s[from + n])
    decreases (to as int) - (from as int)
  {
    if from < to && IsDigit(s[from]) then 1 + DigitRun(s, from + 1, to) else 0
  }

  /**
    The outcome of `std::from_chars(first, last, value)` for an `unsigned`
    value: `ok` is `ec == std::errc{}`, `stop` is the returned `ptr`. On
    failure the caller's variable is left alone; `value` is then 0 and unused.
   */
  datatype Conversion = Conversion(ok: bool, value: nat, stop: nat)

  /**
    `std::from_chars` over `s[from..to]` into a 32-bit `unsigned`: it takes
    the longest run of digits; with no digit it fails and stops where it
    started; when the digits exceed `UintMax` it fails and stops after them.
   */
  function FromChars(s: string, from: nat, to: nat): (r: Conversion)
    requires from <= to <= |s|
    ensures from <= r.stop <= to
    ensures AllDigits(s[from..r.stop])
    ensures r.stop < to ==> !IsDigit(s[r.stop])
    ensures r.ok <==> r.stop > from && DecimalValue(s[from..r.stop]) <= UintMax
    ensures r.ok ==> r.value == DecimalValue(s[from..r.stop])
  {
    var n := DigitRun(s, from, to);
    var run := s[from..from + n];
    assert AllDigits(run) by {
      forall i | 0 <= i < |run| ensures IsDigit(run[i]) {
        assert run[i] == s[from + i];
      }
    }
    if n == 0 then Conversion(false, 0, from)
    else
      var v := DecimalValue(s[from..from + n]);
      if v > UintMax then Conversion(false, 0, from + n) else Conversion(true, v, from + n)
  }

  function DigitChar(d: nat): (c: char)
    requires d < 10
    ensures IsDigit(c) && DigitValue(c) == d
  {
    ('0' as int + d) as char
  }

  /** `std::format("{}", n)`: the shortest decimal rendering of `n`. */
  function Decimal(n: nat): (r: string)
    ensures |r| > 0 && AllDigits(r)
    ensures n < 10 <==> |r| == 1
  {
    if n < 10 then [DigitChar(n)] else Decimal(n / 10) + [DigitChar(n % 10)]
  }

  /** Reading back a decimal rendering gives the number again. */
  lemma {:induction false} DecimalRoundTrip(n: nat)
    ensures DecimalValue(Decimal(n)) == n
  {
    if n >= 10 {
      var d := Decimal(n);
      assert d[..|d| - 1] == Decimal(n / 10);
      DecimalRoundTrip(n / 10);
    }
  }

  /**
    `std::from_chars` applied where a run of digits `d` stands and is
    followed by a non-digit (or by `to`) parses the number `d` denotes and
    stops right after it, when that number fits.
   */
  lemma FromCharsDigits(s: string, from: nat, to: nat, d: string)
    requires AllDigits(d) && d != [] && DecimalValue(d) <= UintMax
    requires from + |d| <= to <= |s|
    requires s[from..from + |d|] == d
    requires from + |d| < to ==> !IsDigit(s[from + |d|])
    ensures FromChars(s, from, to) == Conversion(true, DecimalValue(d), from + |d|)
  {
    forall k | from <= k < from + |d| ensures IsDigit(s[k]) {
      assert s[k] == s[from..from + |d|][k - from];
    }
  }

  /**
    `std::from_chars` applied where a decimal rendering of `n` stands and is
    followed by a non-digit (or by `to`) parses exactly `n` and stops right
    after it.
   */
  lemma FromCharsDecimal(s: string, from: nat, to: nat, n: nat)
    requires n <= UintMax
    requires from + |Decimal(n)| <= to <= |s|
    requires s[from..from + |Decimal(n)|] == Decimal(n)
    requires from + |Decimal(n)| < to ==> !IsDigit(s[from + |Decimal(n)|])
    ensures FromChars(s, from, to) == Conversion(true, n, from + |Decimal(n)|)
  {
    DecimalRoundTrip(n);
    FromCharsDigits(s, from, to, Decimal(n));
  }

  /** One lower-case hexadecimal digit. */
  function HexChar(d: nat): char
    requires d < 16
  {
    if d < 10 then ('0' as int + d) as char else ('a' as int + d - 10) as char
  }

  function HexDigits(n: nat): (r: string)
    ensures |r| > 0
    ensures n < 256 ==> |r| <= 2
  {
    if n < 16 then [HexChar(n)] else HexDigits(n / 16) + [HexChar(n % 16)]
  }

  /** `std::format("{:02x}", n)`: lower-case hex, padded with a zero to at least two digits. */
  function Hex02(n: nat): (r: string)
    ensures n < 256 ==> |r| == 2
    ensures |r| >= 2
  {
    if n < 16 then ['0', HexChar(n)] else HexDigits(n)
  }

  /** The value of one hex digit character (0 for any other character). */
  function HexDigitValue(c: char): nat
  {
    if '0' <= c <= '9' then c as int - '0' as int
    else if 'a' <= c <= 'f' then c as int - 'a' as int + 10
    else 0
  }

  /** The value of a lower-case hex digit string, the inverse of `HexDigits`. */
  function HexValue(h: string): nat
  {
    if h == [] then 0 else HexValue(h[..|h| - 1]) * 16 + HexDigitValue(h[|h| - 1])
  }

  /** Reading back the two-digit hex rendering of a byte gives the byte. */
  lemma Hex02RoundTrip(n: nat)
    requires n < 256
    ensures HexValue(Hex02(n)) == n
  {
    var h := Hex02(n);
    var hi, lo := n / 16, n % 16;
    if n < 16 {
      assert HexChar(hi) == '0';
    } else {
      assert HexDigits(hi) == [HexChar(hi)];
    }
    assert h == [HexChar(hi), HexChar(lo)];
    assert HexDigitValue(HexChar(hi)) == hi;
    assert HexDigitValue(HexChar(lo)) == lo;
    assert h[..1] == [HexChar(hi)];
    assert h[..1][..0] == [];
    assert HexValue(h[..1]) == hi;
    assert HexValue(h) == hi * 16 + lo;
  }
}
