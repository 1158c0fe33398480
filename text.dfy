/// The pieces of Python's text built-ins the frame encoder relies on:
/// `format(n, 'x')` and `str(n)` (digits of a number, most significant first),
/// the zero padding of `format(n, '#06x')`, and the single-space joining of
/// fields. Each renderer comes with the reader a receiver would use and a
/// proof that the reader inverts it.
module Text {

  datatype Option<T> = None | Some(value: T)

  /** The lowercase digit character for a digit value below 16. */
  function DigitChar(d: nat): char
    requires d < 16
  {
    if d < 10 then ('0' as int + d) as char else ('a' as int + d - 10) as char
  }

  /** The value of `c` as a digit of `base`, if it is one. */
  function DigitValue(c: char, base: nat): (r: Option<nat>)
    requires 2 <= base <= 16
    ensures r.Some? ==> r.value < base && DigitChar(r.value) == c
  {
    if '0' <= c <= '9' && c as int - '0' as int < base then Some(c as int - '0' as int)
    else if 'a' <= c <= 'f' && c as int - 'a' as int + 10 < base then Some(c as int - 'a' as int + 10)
    else None
  }

  /** `format(n, 'x')` for base 16 and `str(n)` for base 10, when n >= 0. */
  function Digits(n: nat, base: nat): (r: string)
    requires 2 <= base <= 16
    decreases n
  {
    if n < base then [DigitChar(n)] else Digits(n / base, base) + [DigitChar(n % base)]
  }

  /** `format(v, 'x')` for any integer: a minus sign before the digits of |v|. */
  function HexInt(v: int): string
  {
    if v < 0 then "-" + Digits(-v, 16) else Digits(v, 16)
  }

  function Zeros(k: nat): (r: string)
    ensures |r| == k && forall i :: 0 <= i < k ==> r[i] == '0'
  {
    if k == 0 then [] else Zeros(k - 1) + "0"
  }

  /** Left-pads `s` with zeros up to `width` characters, as a `0` in a format spec does. */
  function ZeroPad(s: string, width: nat): string
  {
    if |s| < width then Zeros(width - |s|) + s else s
  }

  /** `format(n, '#06x')`: the prefix `0x` and at least four hex digits. */
  function Hex06(n: nat): string
  {
    "0x" + ZeroPad(Digits(n, 16), 4)
  }

  /** The value of a non-empty string of digits of `base`, or None. */
  function ParseNat(s: string, base: nat): Option<nat>
    requires 2 <= base <= 16
    decreases |s|
  {
    if s == [] then None
    else
      match DigitValue(s[|s| - 1], base)
      case None => None
      case Some(d) =>
        if |s| == 1 then Some(d)
        else
          match ParseNat(s[..|s| - 1], base)
          case None => None
          case Some(v) => Some(v * base + d)
  }

  /** Reads back what `HexInt` writes: an optional minus sign and hex digits. */
  function ParseHexInt(s: string): Option<int>
  {
    if |s| > 0 && s[0] == '-' then
      match ParseNat(s[1..], 16)
      case None => None
      case Some(v) => Some(-(v as int))
    else
      match ParseNat(s, 16)
      case None => None
      case Some(v) => Some(v)
  }

  /** Reads back what `Hex06` writes. */
  function ParseHex06(s: string): Option<nat>
  {
    if |s| >= 2 && s[..2] == "0x" then ParseNat(s[2..], 16) else None
  }

  /** `' '.join(fields)`, for the non-empty field lists the encoder builds. */
  function Join(fields: seq<string>): string
    requires |fields| > 0
  {
    if |fields| == 1 then fields[0] else fields[0] + " " + Join(fields[1..])
  }

  /** `s.split(' ')`: the pieces between single spaces, empty pieces included. */
  function Split(s: string): (r: seq<string>)
    ensures |r| > 0
  {
    if s == [] then [""]
    else
      var rest := Split(s[1..]);
      if s[0] == ' ' then [""] + rest else [[s[0]] + rest[0]] + rest[1..]
  }

  predicate NoSpace(s: string)
  {
    forall i :: 0 <= i < |s| ==> s[i] != ' '
  }

  lemma DigitRoundTrip(d: nat, base: nat)
    requires 2 <= base <= 16 && d < base
    ensures DigitValue(DigitChar(d), base) == Some(d)
  {
  }

  lemma DivMod(n: nat, base: nat)
    requires 2 <= base <= 16 && n >= base
    ensures (n / base) * base + n % base == n && n % base < base && n / base < n
  {
  }

  /** Digit strings are never empty and hold only digits of the base. */
  lemma {:induction false} DigitsShape(n: nat, base: nat)
    requires 2 <= base <= 16
    ensures |Digits(n, base)| > 0
    ensures forall i :: 0 <= i < |Digits(n, base)| ==> DigitValue(Digits(n, base)[i], base).Some?
    decreases n
  {
    if n < base {
      DigitRoundTrip(n, base);
    } else {
      DivMod(n, base);
      DigitsShape(n / base, base);
      DigitRoundTrip(n % base, base);
    }
  }

  lemma DigitsNoSpace(n: nat, base: nat)
    requires 2 <= base <= 16
    ensures NoSpace(Digits(n, base))
  {
    DigitsShape(n, base);
  }

  /** Reading the digits of n gives back n. */
  lemma {:induction false} ParseDigits(n: nat, base: nat)
    requires 2 <= base <= 16
    ensures ParseNat(Digits(n, base), base) == Some(n)
    decreases n
  {
    var s := Digits(n, base);
    if n < base {
      DigitRoundTrip(n, base);
    } else {
      DivMod(n, base);
      var q, r := n / base, n % base;
      ParseDigits(q, base);
      DigitsShape(q, base);
      DigitRoundTrip(r, base);
      assert s == Digits(q, base) + [DigitChar(r)];
      assert s[..|s| - 1] == Digits(q, base) && s[|s| - 1] == DigitChar(r);
      assert ParseNat(s, base) == Some(q * base + r);
    }
  }

  /** Digits of a number below base^k take at most k characters. */
  lemma {:induction false} DigitsLength(n: nat, base: nat, k: nat)
    requires 2 <= base <= 16 && k >= 1
    requires n < Power(base, k)
    ensures |Digits(n, base)| <= k
    decreases k
  {
    if n >= base {
      if k == 1 {
        assert false;
      }
      DivBelow(n, base, Power(base, k - 1));
      DigitsLength(n / base, base, k - 1);
    }
  }

  lemma DivBelow(n: nat, base: nat, p: nat)
    requires 2 <= base && n < base * p
    ensures n / base < p
  {
    if n / base >= p {
      MulMono(p, n / base, base);
      assert false;
    }
  }

  lemma MulMono(a: nat, b: nat, c: nat)
    requires a <= b
    ensures a * c <= b * c
  {
  }

  function Power(base: nat, k: nat): nat
  {
    if k == 0 then 1 else base * Power(base, k - 1)
  }

  /** A string of zeros reads as 0. */
  lemma {:induction false} ParseZeros(k: nat, base: nat)
    requires 2 <= base <= 16 && k >= 1
    ensures ParseNat(Zeros(k), base) == Some(0)
    decreases k
  {
    if k > 1 {
      assert Zeros(k)[..k - 1] == Zeros(k - 1);
      ParseZeros(k - 1, base);
    }
  }

  /** Leading zeros do not change the value read. */
  lemma {:induction false} ParseLeadingZeros(k: nat, s: string, base: nat)
    requires 2 <= base <= 16 && |s| > 0
    ensures ParseNat(Zeros(k) + s, base) == ParseNat(s, base)
    decreases |s|
  {
    var t := Zeros(k) + s;
    assert t[|t| - 1] == s[|s| - 1];
    if k > 0 {
      if |s| == 1 {
        assert t[..|t| - 1] == Zeros(k);
        ParseZeros(k, base);
      } else {
        assert t[..|t| - 1] == Zeros(k) + s[..|s| - 1];
        ParseLeadingZeros(k, s[..|s| - 1], base);
      }
    } else {
      assert t == s;
    }
  }

  /** `format(n, '#06x')` reads back as n, however many digits it has. */
  lemma Hex06RoundTrip(n: nat)
    ensures ParseHex06(Hex06(n)) == Some(n)
  {
    var d := Digits(n, 16);
    var h := Hex06(n);
    assert h[..2] == "0x" && h[2..] == ZeroPad(d, 4);
    DigitsShape(n, 16);
    ParseDigits(n, 16);
    if |d| < 4 {
      ParseLeadingZeros(4 - |d|, d, 16);
    }
  }

  /** Below 16^4 the `#06x` rendering is exactly `0x` and four digits. */
  lemma Hex06Width(n: nat)
    requires n < 0x1_0000
    ensures |Hex06(n)| == 6 && Hex06(n)[..2] == "0x"
  {
    assert Power(16, 4) == 0x1_0000;
    DigitsLength(n, 16, 4);
  }

  lemma Hex06NoSpace(n: nat)
    ensures NoSpace(Hex06(n))
  {
    DigitsNoSpace(n, 16);
    var h := Hex06(n);
    var d := Digits(n, 16);
    forall i | 0 <= i < |h| ensures h[i] != ' ' {
      if |d| < 4 && 2 <= i < 2 + 4 - |d| {
        assert h[i] == Zeros(4 - |d|)[i - 2];
      }
    }
  }

  /** `format(v, 'x')` reads back as v, negative values included. */
  lemma HexIntRoundTrip(v: int)
    ensures ParseHexInt(HexInt(v)) == Some(v)
    ensures NoSpace(HexInt(v))
  {
    if v < 0 {
      NegativeHexInt(v);
    } else {
      DigitsShape(v, 16);
      ParseDigits(v, 16);
      DigitsNoSpace(v, 16);
      var d := Digits(v, 16);
      assert DigitValue(d[0], 16).Some?;
      assert d[0] != '-';
    }
  }

  lemma NegativeHexInt(v: int)
    requires v < 0
    ensures ParseHexInt(HexInt(v)) == Some(v)
    ensures NoSpace(HexInt(v))
  {
    var d := Digits(-v, 16);
    var s := HexInt(v);
    assert s == "-" + d;
    assert |s| > 0 && s[0] == '-' && s[1..] == d;
    ParseDigits(-v, 16);
    assert ParseNat(s[1..], 16) == Some(-v);
    DigitsNoSpace(-v, 16);
    SignedNoSpace(d);
  }

  lemma SignedNoSpace(d: string)
    requires NoSpace(d)
    ensures NoSpace("-" + d)
  {
    var s := "-" + d;
    forall i | 0 <= i < |s| ensures s[i] != ' ' {
      if i > 0 { assert s[i] == d[i - 1]; }
    }
  }

  /** Splitting a space-free word followed by more text. */
  lemma {:induction false} SplitWord(w: string, t: string)
    requires NoSpace(w)
    ensures Split(w + t) == [w + Split(t)[0]] + Split(t)[1..]
    decreases |w|
  {
    if w == [] {
      assert w + t == t;
      assert w + Split(t)[0] == Split(t)[0];
      assert Split(t) == [Split(t)[0]] + Split(t)[1..];
    } else {
      var s := w + t;
      assert s[0] == w[0] && s[1..] == w[1..] + t;
      SplitWord(w[1..], t);
      var rest := Split(s[1..]);
      assert rest == [w[1..] + Split(t)[0]] + Split(t)[1..];
      assert Split(s) == [[s[0]] + rest[0]] + rest[1..];
      assert [w[0]] + (w[1..] + Split(t)[0]) == w + Split(t)[0];
    }
  }

  /** Splitting undoes joining when no field holds a space. */
  lemma {:induction false} SplitJoin(fields: seq<string>)
    requires |fields| > 0
    requires forall i :: 0 <= i < |fields| ==> NoSpace(fields[i])
    ensures Split(Join(fields)) == fields
    decreases |fields|
  {
    if |fields| == 1 {
      assert fields[0] + "" == fields[0];
      SplitWord(fields[0], "");
    } else {
      var t := Join(fields[1..]);
      SplitJoin(fields[1..]);
      assert fields[0] + " " + t == fields[0] + (" " + t);
      SplitWord(fields[0], " " + t);
      assert (" " + t)[0] == ' ' && (" " + t)[1..] == t;
      assert Split(" " + t) == [""] + Split(t);
      assert fields[0] + "" == fields[0];
      assert [fields[0]] + fields[1..] == fields;
    }
  }
}
