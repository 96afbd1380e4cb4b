/**
 * The few pieces of JavaScript's string and number semantics that the loader and the
 * language manager depend on: parseInt(s, 10), String(n) for integers, the canonical
 * index keys of arrays and strings, String.prototype.split with a one-character
 * separator, and the truncating remainder operator.
 */
module JsText {
  import opened Wrappers

  /** The result of parseInt: an integer or NaN. */
  datatype ParsedInt = Num(value: int) | NaN

  predicate IsDigit(c: char) { '0' <= c <= '9' }

  predicate AllDigits(s: string) { forall i :: 0 <= i < |s| ==> IsDigit(s[i]) }

  function DigitValue(c: char): (d: nat)
    requires IsDigit(c)
    ensures d < 10
  {
    (c as int) - ('0' as int)
  }

  function DigitChar(d: nat): (c: char)
    requires d < 10
    ensures IsDigit(c) && DigitValue(c) == d
  {
    (('0' as int) + d) as char
  }

  /** The code points that JavaScript's string-to-number conversions skip: WhiteSpace and
      LineTerminator (TAB, LF, VT, FF, CR, the Unicode Zs category, LS, PS, and ZWNBSP). */
  predicate IsJsWhiteSpace(c: char) {
    var k := c as int;
    (0x09 <= k <= 0x0D) || k == 0x20 || k == 0xA0 || k == 0x1680 ||
    (0x2000 <= k <= 0x200A) || k == 0x2028 || k == 0x2029 || k == 0x202F ||
    k == 0x205F || k == 0x3000 || k == 0xFEFF
  }

  /** Drops the leading white space, as parseInt does first. */
  function TrimStart(s: string): (r: string)
    ensures |r| <= |s| && r == s[|s| - |r|..]
    ensures r == [] || !IsJsWhiteSpace(r[0])
  {
    if s != [] && IsJsWhiteSpace(s[0]) then TrimStart(s[1..]) else s
  }

  /** Everything TrimStart drops is white space. */
  lemma {:induction false} TrimStartDropsWhiteSpace(s: string)
    ensures forall i :: 0 <= i < |s| - |TrimStart(s)| ==> IsJsWhiteSpace(s[i])
  {
    if s != [] && IsJsWhiteSpace(s[0]) {
      TrimStartDropsWhiteSpace(s[1..]);
      forall i | 1 <= i < |s| - |TrimStart(s)| ensures IsJsWhiteSpace(s[i]) {
        assert s[i] == s[1..][i - 1];
      }
    }
  }

  /** The longest prefix of s made of decimal digits. */
  function DigitPrefix(s: string): (z: string)
    ensures |z| <= |s| && z == s[..|z|] && AllDigits(z)
    ensures |z| == |s| || !IsDigit(s[|z|])
  {
    if s != [] && IsDigit(s[0]) then [s[0]] + DigitPrefix(s[1..]) else []
  }

  /** The value of a string of decimal digits, most significant first. */
  function DigitsValue(z: string): nat
    requires AllDigits(z)
  {
    if z == [] then 0 else DigitsValue(z[..|z| - 1]) * 10 + DigitValue(z[|z| - 1])
  }

  /** parseInt(s, 10): skip white space, take an optional sign, then the longest run of
      digits; NaN when there is no digit. (Precision loss above 2^53 is not modelled.) */
  function ParseInt(s: string): (r: ParsedInt)
    ensures var t := TrimStart(s);
      var negative := |t| > 0 && t[0] == '-';
      var u := if |t| > 0 && (t[0] == '-' || t[0] == '+') then t[1..] else t;
      (r.NaN? <==> u == [] || !IsDigit(u[0])) &&
      (r.Num? ==> (if negative then r.value <= 0 else r.value >= 0) &&
                  (if negative then -r.value else r.value) == DigitsValue(DigitPrefix(u)))
  {
    ParseSigned(TrimStart(s))
  }

  function ParseSigned(t: string): ParsedInt {
    if |t| > 0 && t[0] == '-' then
      match ParseDigits(t[1..])
      case NaN => NaN
      case Num(v) => Num(-v)
    else if |t| > 0 && t[0] == '+' then ParseDigits(t[1..])
    else ParseDigits(t)
  }

  function ParseDigits(u: string): ParsedInt {
    var z := DigitPrefix(u);
    if z == [] then NaN else Num(DigitsValue(z))
  }

  /** The decimal notation of a natural number, as String(n) writes it. */
  function NatToDecimal(n: nat): (s: string)
    ensures 0 < |s| && AllDigits(s)
    ensures s[0] == '0' <==> n == 0
    ensures n == 0 ==> s == "0"
  {
    if n < 10 then [DigitChar(n)] else NatToDecimal(n / 10) + [DigitChar(n % 10)]
  }

  /** String(n) for an integer n. */
  function ToDecimal(n: int): (s: string)
    ensures 0 < |s|
    ensures n < 0 <==> s[0] == '-'
  {
    if n < 0 then "-" + NatToDecimal(-n) else NatToDecimal(n)
  }

  lemma {:induction false} DigitsValueOfDecimal(n: nat)
    ensures DigitsValue(NatToDecimal(n)) == n
  {
    if n >= 10 {
      var s := NatToDecimal(n);
      assert s[..|s| - 1] == NatToDecimal(n / 10);
      DigitsValueOfDecimal(n / 10);
    }
  }

  /** The digit prefix of a string is determined by where its first non-digit sits. */
  lemma {:induction false} DigitPrefixOfDigitsThenOther(z: string, tail: string)
    requires AllDigits(z)
    requires tail == [] || !IsDigit(tail[0])
    ensures DigitPrefix(z + tail) == z
  {
    if z != [] {
      assert (z + tail)[0] == z[0];
      assert (z + tail)[1..] == z[1..] + tail;
      DigitPrefixOfDigitsThenOther(z[1..], tail);
      assert [z[0]] + z[1..] == z;
    } else {
      assert z + tail == tail;
    }
  }

  lemma TrimStartAtNonSpace(s: string)
    requires s != [] && !IsJsWhiteSpace(s[0])
    ensures TrimStart(s) == s
  {
  }

  /** parseInt of a string that starts with a digit. */
  lemma ParseDigitsAtDigit(u: string)
    requires u != [] && IsDigit(u[0])
    ensures ParseDigits(u) == Num(DigitsValue(DigitPrefix(u)))
  {
    assert DigitPrefix(u) == [u[0]] + DigitPrefix(u[1..]);
  }

  lemma ParseIntUnsigned(s: string)
    requires s != [] && IsDigit(s[0])
    ensures ParseInt(s) == Num(DigitsValue(DigitPrefix(s)))
  {
    TrimStartAtNonSpace(s);
    ParseDigitsAtDigit(s);
  }

  /** parseInt of a string that starts with a minus sign and a digit. */
  lemma ParseIntNegative(s: string)
    requires |s| > 1 && s[0] == '-' && IsDigit(s[1])
    ensures ParseInt(s) == Num(-(DigitsValue(DigitPrefix(s[1..])) as int))
  {
    TrimStartAtNonSpace(s);
    ParseDigitsAtDigit(s[1..]);
  }

  lemma ParseIntOfNatDecimal(n: int, tail: string)
    requires n >= 0 && (tail == [] || !IsDigit(tail[0]))
    ensures ParseInt(ToDecimal(n) + tail) == Num(n)
  {
    var m: nat := n;
    var d := NatToDecimal(m);
    assert ToDecimal(n) + tail == d + tail;
    DigitPrefixOfDigitsThenOther(d, tail);
    DigitsValueOfDecimal(m);
    assert (d + tail)[0] == d[0];
    ParseIntUnsigned(d + tail);
  }

  lemma ParseIntOfNegativeDecimal(n: int, tail: string)
    requires n < 0 && (tail == [] || !IsDigit(tail[0]))
    ensures ParseInt(ToDecimal(n) + tail) == Num(n)
  {
    var m: nat := -n;
    var d := NatToDecimal(m);
    var s := "-" + d + tail;
    assert ToDecimal(n) + tail == s;
    DigitPrefixOfDigitsThenOther(d, tail);
    DigitsValueOfDecimal(m);
    assert s[1..] == d + tail;
    ParseIntNegative(s);
  }

  /** parseInt reads back what String(n) writes, and stops at the first character after it
      that is not a digit. */
  lemma ParseIntOfDecimal(n: int, tail: string)
    requires tail == [] || !IsDigit(tail[0])
    ensures ParseInt(ToDecimal(n) + tail) == Num(n)
  {
    if n < 0 {
      ParseIntOfNegativeDecimal(n, tail);
    } else {
      ParseIntOfNatDecimal(n, tail);
    }
  }

  /** String(n) followed by parseInt is the identity on integers. */
  lemma ParseIntRoundTrip(n: int)
    ensures ParseInt(ToDecimal(n)) == Num(n)
  {
    ParseIntOfDecimal(n, []);
    assert ToDecimal(n) + [] == ToDecimal(n);
  }

  /** A run of digits without a superfluous leading zero. */
  predicate IsCanonicalDigits(z: string) {
    z != [] && AllDigits(z) && (z[0] != '0' || |z| == 1)
  }

  lemma {:induction false} CanonicalDigitsPositive(z: string)
    requires z != [] && AllDigits(z) && z[0] != '0'
    ensures DigitsValue(z) > 0
  {
    if |z| > 1 {
      CanonicalDigitsPositive(z[..|z| - 1]);
    }
  }

  lemma {:induction false} DecimalOfDigits(z: string)
    requires IsCanonicalDigits(z)
    ensures NatToDecimal(DigitsValue(z)) == z
  {
    if |z| > 1 {
      var p := z[..|z| - 1];
      var d := DigitValue(z[|z| - 1]);
      CanonicalDigitsPositive(p);
      DecimalOfDigits(p);
      var v := DigitsValue(z);
      assert v == DigitsValue(p) * 10 + d;
      assert v / 10 == DigitsValue(p) && v % 10 == d;
      assert z == p + [z[|z| - 1]];
    }
  }

  /** The natural number a property key denotes as an index into an array or a string:
      only the canonical decimal spelling ("0", "7", "12" but not "07", "-0" or "+1") does. */
  function ArrayIndex(key: string): (r: Option<nat>)
    ensures r.Some? <==> IsCanonicalDigits(key)
    ensures r.Some? ==> key == NatToDecimal(r.value)
  {
    if IsCanonicalDigits(key) then
      DecimalOfDigits(key);
      Some(DigitsValue(key))
    else None
  }

  lemma ArrayIndexOfDecimal(n: nat)
    ensures ArrayIndex(NatToDecimal(n)) == Some(n)
  {
    DigitsValueOfDecimal(n);
  }

  /** s.split(sep) for a one-character separator: the pieces between separators, with an
      empty piece wherever two separators meet or the string starts or ends with one. */
  function Split(s: string, sep: char): (parts: seq<string>)
    ensures |parts| >= 1
  {
    if s == [] then [""]
    else
      var rest := Split(s[1..], sep);
      if s[0] == sep then [""] + rest
      else [[s[0]] + rest[0]] + rest[1..]
  }

  /** No piece of a split contains the separator. */
  lemma {:induction false} SplitPartsLackSeparator(s: string, sep: char)
    ensures forall i :: 0 <= i < |Split(s, sep)| ==> sep !in Split(s, sep)[i]
  {
    if s != [] {
      SplitPartsLackSeparator(s[1..], sep);
      var rest := Split(s[1..], sep);
      if s[0] != sep {
        assert sep !in [s[0]] + rest[0];
      }
    }
  }

  /** parts.join(sep). */
  function Join(parts: seq<string>, sep: char): string
    requires |parts| >= 1
  {
    if |parts| == 1 then parts[0] else parts[0] + [sep] + Join(parts[1..], sep)
  }

  /** Joining the pieces of a split gives back the original string. */
  lemma {:induction false} JoinSplit(s: string, sep: char)
    ensures Join(Split(s, sep), sep) == s
  {
    if s != [] {
      var rest := Split(s[1..], sep);
      JoinSplit(s[1..], sep);
      if s[0] != sep {
        var parts := Split(s, sep);
        if |rest| == 1 {
          assert parts == [[s[0]] + rest[0]];
        } else {
          assert parts[1..] == rest[1..];
          assert Join(rest, sep) == rest[0] + [sep] + Join(rest[1..], sep);
        }
      }
    }
  }

  /** A string without the separator splits into itself alone. */
  lemma {:induction false} SplitWithoutSeparator(s: string, sep: char)
    requires sep !in s
    ensures Split(s, sep) == [s]
  {
    if s != [] {
      assert sep !in s[1..] by {
        forall i | 0 <= i < |s[1..]| ensures s[1..][i] != sep { assert s[1..][i] == s[i + 1]; }
      }
      SplitWithoutSeparator(s[1..], sep);
      assert [s[0]] + s[1..] == s;
    }
  }

  /** Splitting at a separator splits the two sides independently. */
  lemma SplitStep(s: string, sep: char)
    requires s != []
    ensures Split(s, sep) == if s[0] == sep then [""] + Split(s[1..], sep)
                             else [[s[0]] + Split(s[1..], sep)[0]] + Split(s[1..], sep)[1..]
  {
  }

  lemma ExtendFirstPiece(c: char, split: seq<string>, splitTail: seq<string>, splitA: seq<string>,
                         left: seq<string>, right: seq<string>)
    requires |left| >= 1 && splitTail == left + right
    requires split == [[c] + splitTail[0]] + splitTail[1..]
    requires splitA == [[c] + left[0]] + left[1..]
    ensures split == splitA + right
  {
    assert splitTail[0] == left[0];
    assert splitTail[1..] == left[1..] + right;
  }

  lemma PrependEmptyPiece(split: seq<string>, splitTail: seq<string>, splitA: seq<string>,
                          left: seq<string>, right: seq<string>)
    requires splitTail == left + right && split == [""] + splitTail && splitA == [""] + left
    ensures split == splitA + right
  {
  }

  lemma SeparatedTail(a: string, sep: char, b: string)
    requires a != []
    ensures (a + [sep] + b)[0] == a[0] && (a + [sep] + b)[1..] == a[1..] + [sep] + b
  {
  }

  lemma {:induction false} SplitAtSeparator(a: string, sep: char, b: string)
    ensures Split(a + [sep] + b, sep) == Split(a, sep) + Split(b, sep)
  {
    var s := a + [sep] + b;
    if a == [] {
      assert s == [sep] + b;
      assert s[1..] == b;
      SplitStep(s, sep);
    } else {
      SeparatedTail(a, sep, b);
      SplitAtSeparator(a[1..], sep, b);
      SplitStep(s, sep);
      SplitStep(a, sep);
      var left, right := Split(a[1..], sep), Split(b, sep);
      var split, splitTail, splitA := Split(s, sep), Split(s[1..], sep), Split(a, sep);
      if a[0] == sep {
        PrependEmptyPiece(split, splitTail, splitA, left, right);
      } else {
        ExtendFirstPiece(a[0], split, splitTail, splitA, left, right);
      }
    }
  }

  /** The remainder a % n as JavaScript computes it for a positive divisor: the sign
      follows the dividend, and the quotient is truncated toward zero. */
  function JsRemainder(a: int, n: int): (r: int)
    requires n > 0
    ensures a >= 0 ==> 0 <= r < n
    ensures a < 0 ==> -n < r <= 0
    ensures (a - r) % n == 0
  {
    if a >= 0 then
      ModUnique(a - a % n, n, a / n, 0);
      a % n
    else
      ModUnique(a + (-a) % n, n, -((-a) / n), 0);
      -((-a) % n)
  }

  lemma {:induction false} MulAtLeast(d: int, n: int)
    requires d >= 1 && n > 0
    ensures d * n >= n
  {
    if d > 1 {
      MulAtLeast(d - 1, n);
      assert d * n == (d - 1) * n + n;
    }
  }

  lemma ModUnique(a: int, n: int, q: int, r: int)
    requires n > 0 && 0 <= r < n && a == q * n + r
    ensures a % n == r
  {
    var q0, r0 := a / n, a % n;
    assert a == q0 * n + r0;
    var d := q - q0;
    assert d * n == r0 - r by {
      assert q * n - q0 * n == r0 - r;
      assert d * n == q * n - q0 * n;
    }
    if d >= 1 {
      MulAtLeast(d, n);
      assert false;
    } else if d <= -1 {
      MulAtLeast(-d, n);
      assert false;
    }
  }
}
