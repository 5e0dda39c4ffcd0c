/**
 * The JavaScript number conversions the note classifier and the share
 * computation rely on: `parseInt(s, radix)` for radix 10 and 16
 * (ECMA-262, section 19.2.5), `Buffer.toString('hex')`, and BigInt
 * division, which truncates toward zero.  Numbers are exact integers here;
 * `NaN` is `None`.
 */
module JsNumber {
  import opened Wrappers
  import Text
  import Varint

  type byte = Varint.byte

  /**
   * StrWhiteSpaceChar of ECMA-262: tab, vertical tab, form feed, the byte
   * order mark, the space separators of category Zs, and the four line
   * terminators.
   */
  predicate IsJsSpace(c: char)
  {
    var u := c as int;
    u == 0x09 || u == 0x0B || u == 0x0C || u == 0xFEFF
    || u == 0x20 || u == 0xA0 || u == 0x1680 || (0x2000 <= u <= 0x200A)
    || u == 0x202F || u == 0x205F || u == 0x3000
    || u == 0x0A || u == 0x0D || u == 0x2028 || u == 0x2029
  }

  /** `s` without its leading white space. */
  function TrimStart(s: string): (t: string)
    ensures |t| <= |s| && t == s[|s| - |t|..]
    ensures t == [] || !IsJsSpace(t[0])
    ensures forall i :: 0 <= i < |s| - |t| ==> IsJsSpace(s[i])
  {
    if s != [] && IsJsSpace(s[0]) then TrimStart(s[1..]) else s
  }

  /** The value of `c` as a digit of `radix`; hexadecimal letters in either case. */
  function DigitIn(c: char, radix: nat): (d: Option<nat>)
    requires radix == 10 || radix == 16
    ensures d.Some? ==> d.value < radix
  {
    if '0' <= c <= '9' then Some(c as int - '0' as int)
    else if radix == 16 && 'a' <= c <= 'f' then Some(c as int - 'a' as int + 10)
    else if radix == 16 && 'A' <= c <= 'F' then Some(c as int - 'A' as int + 10)
    else None
  }

  predicate AllDigits(s: string, radix: nat)
    requires radix == 10 || radix == 16
  {
    forall i :: 0 <= i < |s| ==> DigitIn(s[i], radix).Some?
  }

  /** The length of the longest prefix of `s` made of digits of `radix`. */
  function DigitRun(s: string, radix: nat): (n: nat)
    requires radix == 10 || radix == 16
    ensures n <= |s| && AllDigits(s[..n], radix)
    ensures n < |s| ==> DigitIn(s[n], radix).None?
  {
    if s == [] || DigitIn(s[0], radix).None? then 0
    else
      var n := 1 + DigitRun(s[1..], radix);
      assert s[..n] == [s[0]] + s[1..][..n - 1];
      n
  }

  /** The value of a string of digits, most significant first. */
  function DigitsValue(s: string, radix: nat): nat
    requires radix == 10 || radix == 16
    requires AllDigits(s, radix)
  {
    if s == [] then 0
    else radix * DigitsValue(s[..|s| - 1], radix) + DigitIn(s[|s| - 1], radix).value
  }

  /** The digits at the head of `v`, or `NaN` when `v` does not start with one. */
  function ReadDigits(v: string, radix: nat): (r: Option<nat>)
    requires radix == 10 || radix == 16
    ensures r.None? <==> v == [] || DigitIn(v[0], radix).None?
  {
    var n := DigitRun(v, radix);
    if n == 0 then None else Some(DigitsValue(v[..n], radix))
  }

  /** `parseInt` after the white space: one optional sign, for radix 16 an optional `0x` or `0X`. */
  function ParseTrimmed(t: string, radix: nat): (r: Option<int>)
    requires radix == 10 || radix == 16
  {
    var negative := t != [] && t[0] == '-';
    var u := if t != [] && (t[0] == '-' || t[0] == '+') then t[1..] else t;
    var v := if radix == 16 && |u| >= 2 && u[0] == '0' && (u[1] == 'x' || u[1] == 'X') then u[2..] else u;
    match ReadDigits(v, radix)
    case None => None
    case Some(m) =>
      var k: int := m;
      Some(if negative then -k else k)
  }

  /**
   * `parseInt(s, radix)`: skip leading white space, take one optional sign,
   * for radix 16 drop a `0x` or `0X` prefix, then read the longest run of
   * digits; no digit at all is `NaN`.  Characters after the run are ignored.
   */
  function ParseInt(s: string, radix: nat): (r: Option<int>)
    requires radix == 10 || radix == 16
  {
    ParseTrimmed(TrimStart(s), radix)
  }

  /** Leading white space does not change what `parseInt` reads. */
  lemma {:induction false} ParseIntSkipsSpace(w: string, s: string, radix: nat)
    requires radix == 10 || radix == 16
    requires forall i :: 0 <= i < |w| ==> IsJsSpace(w[i])
    ensures ParseInt(w + s, radix) == ParseInt(s, radix)
  {
    TrimStartSkips(w, s);
  }

  lemma {:induction false} TrimStartSkips(w: string, s: string)
    requires forall i :: 0 <= i < |w| ==> IsJsSpace(w[i])
    ensures TrimStart(w + s) == TrimStart(s)
    decreases |w|
  {
    if w != [] {
      assert (w + s)[1..] == w[1..] + s;
      TrimStartSkips(w[1..], s);
    } else {
      assert w + s == s;
    }
  }

  /** A text with no digit after its white space is `NaN`. */
  lemma ParseIntBlank(s: string, radix: nat)
    requires radix == 10 || radix == 16
    requires forall i :: 0 <= i < |s| ==> IsJsSpace(s[i])
    ensures ParseInt(s, radix).None?
  {
    assert TrimStart(s) == [];
  }

  /** The run of digits stops at the first non-digit. */
  lemma {:induction false} DigitRunOfDigits(d: string, rest: string, radix: nat)
    requires radix == 10 || radix == 16
    requires AllDigits(d, radix)
    requires rest == [] || DigitIn(rest[0], radix).None?
    ensures DigitRun(d + rest, radix) == |d| && (d + rest)[..|d|] == d
    decreases |d|
  {
    if d == [] {
      assert d + rest == rest;
    } else {
      assert (d + rest)[1..] == d[1..] + rest;
      DigitRunOfDigits(d[1..], rest, radix);
    }
  }

  /** Decimal digits read with radix 10 give the value the renderer encoded. */
  lemma {:induction false} DecimalDigitsValue(s: string)
    requires forall i :: 0 <= i < |s| ==> Text.IsDigit(s[i])
    ensures AllDigits(s, 10) && DigitsValue(s, 10) == Text.DecimalValue(s)
    decreases |s|
  {
    if s != [] {
      DecimalDigitsValue(s[..|s| - 1]);
    }
  }

  /** A text that starts with a digit (and not with `0x` in radix 16) reads as its leading digits. */
  lemma {:induction false} ParseUnsigned(s: string, radix: nat)
    requires radix == 10 || radix == 16
    requires s != [] && DigitIn(s[0], radix).Some?
    requires radix == 16 && |s| >= 2 ==> s[1] != 'x' && s[1] != 'X'
    ensures ReadDigits(s, radix).Some? && ParseInt(s, radix) == ReadDigits(s, radix)
  {
    assert !IsJsSpace(s[0]) && s[0] != '-' && s[0] != '+';
    assert TrimStart(s) == s;
  }

  /** The same text after a minus sign reads as the negated value. */
  lemma {:induction false} ParseNegated(s: string, radix: nat)
    requires radix == 10 || radix == 16
    requires s != [] && DigitIn(s[0], radix).Some?
    requires radix == 16 && |s| >= 2 ==> s[1] != 'x' && s[1] != 'X'
    ensures ReadDigits(s, radix).Some?
    ensures ParseInt(['-'] + s, radix) == Some(-(ReadDigits(s, radix).value as int))
  {
    var t := ['-'] + s;
    assert t[0] == '-' && !IsJsSpace(t[0]);
    assert TrimStart(t) == t;
    assert t[1..] == s;
    var m := ReadDigits(s, radix).value;
    assert ParseTrimmed(t, radix) == Some(-(m as int));
  }

  /** The leading digits are the whole of `d` when what follows does not start with a digit. */
  lemma ReadDigitsOf(d: string, rest: string, radix: nat)
    requires radix == 10 || radix == 16
    requires |d| > 0 && AllDigits(d, radix)
    requires rest == [] || DigitIn(rest[0], radix).None?
    ensures ReadDigits(d + rest, radix) == Some(DigitsValue(d, radix))
  {
    DigitRunOfDigits(d, rest, radix);
  }

  /**
   * `parseInt` inverts the decimal rendering of `"" + n`, whatever text
   * follows the digits as long as it does not start with a digit.
   */
  lemma {:induction false} ParseDecimal(n: int, rest: string)
    requires rest == [] || !Text.IsDigit(rest[0])
    ensures ParseInt(Text.IntToDecimal(n) + rest, 10) == Some(n)
  {
    if n < 0 {
      ParseNegativeDecimal(n, rest);
    } else {
      DecimalReads(n, rest);
      ParseUnsigned(Text.NatToDecimal(n) + rest, 10);
    }
  }

  lemma {:induction false} ParseNegativeDecimal(n: int, rest: string)
    requires n < 0 && (rest == [] || !Text.IsDigit(rest[0]))
    ensures ParseInt(Text.IntToDecimal(n) + rest, 10) == Some(n)
  {
    var s := Text.NatToDecimal(-n) + rest;
    DecimalReads(-n, rest);
    assert ReadDigits(s, 10) == Some(-n);
    ParseNegated(s, 10);
    NegativeText(n, rest);
  }

  lemma NegativeText(n: int, rest: string)
    requires n < 0
    ensures Text.IntToDecimal(n) + rest == ['-'] + (Text.NatToDecimal(-n) + rest)
  {
    Text.NegativeDigits(n);
    var x := Text.IntToDecimal(n);
    assert x == [x[0]] + x[1..];
  }

  lemma {:induction false} DecimalReads(m: nat, rest: string)
    requires rest == [] || !Text.IsDigit(rest[0])
    ensures var s := Text.NatToDecimal(m) + rest;
            s != [] && DigitIn(s[0], 10).Some? && ReadDigits(s, 10) == Some(m)
  {
    var d := Text.NatToDecimal(m);
    DecimalDigitsValue(d);
    Text.DecimalRoundTrip(m);
    ReadDigitsOf(d, rest, 10);
    assert (d + rest)[0] == d[0];
  }

  /** `parseInt(String(n), 10) == n` for every integer. */
  lemma ParseIntToDecimal(n: int)
    ensures ParseInt(Text.IntToDecimal(n), 10) == Some(n)
  {
    ParseDecimal(n, []);
    assert Text.IntToDecimal(n) + [] == Text.IntToDecimal(n);
  }

  /** A hexadecimal digit in lower case, as `Buffer.toString('hex')` writes it. */
  function HexDigit(d: nat): (c: char)
    requires d < 16
    ensures DigitIn(c, 16) == Some(d)
  {
    if d < 10 then ('0' as int + d) as char else ('a' as int + d - 10) as char
  }

  /** `Buffer.toString('hex')`: two lower-case digits per byte, in order. */
  function HexOf(b: seq<byte>): (s: string)
    ensures |s| == 2 * |b|
  {
    if b == [] then [] else HexOf(b[..|b| - 1]) + [HexDigit(b[|b| - 1] / 16), HexDigit(b[|b| - 1] % 16)]
  }

  /** The bytes read as one unsigned big-endian number. */
  function BigEndian(b: seq<byte>): nat
  {
    if b == [] then 0 else 256 * BigEndian(b[..|b| - 1]) + b[|b| - 1]
  }

  lemma {:induction false} HexOfValue(b: seq<byte>)
    ensures AllDigits(HexOf(b), 16) && DigitsValue(HexOf(b), 16) == BigEndian(b)
    decreases |b|
  {
    if b != [] {
      var init, x := b[..|b| - 1], b[|b| - 1];
      HexOfValue(init);
      var s := HexOf(init);
      var hi, lo := HexDigit(x / 16), HexDigit(x % 16);
      var t := s + [hi] + [lo];
      assert HexOf(b) == t;
      assert t[..|t| - 1] == s + [hi];
      assert (s + [hi])[..|s|] == s;
      assert DigitsValue(s + [hi], 16) == 16 * BigEndian(init) + x / 16;
    }
  }

  /** Reading the hex text of a non-empty note in base 16 gives its big-endian value. */
  lemma ParseHexOf(b: seq<byte>)
    requires |b| > 0
    ensures ParseInt(HexOf(b), 16) == Some(BigEndian(b))
  {
    var s := HexOf(b);
    HexOfValue(b);
    assert s + [] == s;
    assert DigitIn(s[1], 16).Some?;
    ReadDigitsOf(s, [], 16);
    ParseUnsigned(s, 16);
  }

  /** The hex text of no bytes is empty, so it reads as `NaN`. */
  lemma ParseHexOfEmpty()
    ensures ParseInt(HexOf([]), 16).None?
  {
  }

  function Abs(a: int): nat
  {
    if a < 0 then -a else a
  }

  /** BigInt `a / b`: the quotient of the magnitudes, negated when the signs differ. */
  function TruncDiv(a: int, b: int): int
    requires b != 0
  {
    if (a < 0) == (b < 0) then Abs(a) / Abs(b) else -(Abs(a) / Abs(b))
  }

  /**
   * BigInt division rounds toward zero: the remainder has the sign of the
   * dividend and is smaller than the divisor in size.
   */
  lemma TruncDivRemainder(a: int, b: int)
    requires b != 0
    ensures var r := a - TruncDiv(a, b) * b;
            Abs(r) < Abs(b) && (r == 0 || (r < 0 <==> a < 0))
  {
    var m, rem := Abs(a) / Abs(b), Abs(a) % Abs(b);
    assert Abs(a) == m * Abs(b) + rem && 0 <= rem < Abs(b);
    if b < 0 {
      assert m * b == -(m * Abs(b));
    } else {
      assert m * b == m * Abs(b);
    }
    if a < 0 {
      assert a - TruncDiv(a, b) * b == -rem;
    } else {
      assert a - TruncDiv(a, b) * b == rem;
    }
  }
}
