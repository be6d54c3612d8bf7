/** The JavaScript string operations the table code relies on:
    `String.prototype.split` with a one-character separator, the global
    `parseInt` called without a radix, and the conversion of an integer
    number to the property key under which an object stores it. */
module JsStrings {
  import opened Numbers

  // ---------------------------------------------------------------------
  // split / join
  // ---------------------------------------------------------------------

  /** `s.split(sep)`: the pieces of `s` between occurrences of `sep`, in
      order. The empty string splits into one empty piece. */
  function Split(s: string, sep: char): (parts: seq<string>)
    ensures |parts| >= 1
    ensures forall i :: 0 <= i < |parts| ==> sep !in parts[i]
    decreases |s|
  {
    if |s| == 0 then [""]
    else
      var rest := Split(s[1..], sep);
      if s[0] == sep then [""] + rest
      else
        assert forall i :: 1 <= i < |rest| ==> sep !in rest[i];
        [[s[0]] + rest[0]] + rest[1..]
  }

  /** `parts.join(sep)`: the inverse of `Split`. */
  function Join(parts: seq<string>, sep: char): string
    decreases |parts|
  {
    if |parts| == 0 then ""
    else if |parts| == 1 then parts[0]
    else parts[0] + [sep] + Join(parts[1..], sep)
  }

  /** Joining the pieces of a split gives back the original string. */
  lemma {:induction false} JoinSplit(s: string, sep: char)
    ensures Join(Split(s, sep), sep) == s
    decreases |s|
  {
    if |s| > 0 {
      var rest := Split(s[1..], sep);
      JoinSplit(s[1..], sep);
      assert s == [s[0]] + s[1..];
      if s[0] == sep {
        assert ([""] + rest)[1..] == rest;
      } else if |rest| > 1 {
        var parts := [[s[0]] + rest[0]] + rest[1..];
        assert parts[1..] == rest[1..];
        assert Join(rest, sep) == rest[0] + [sep] + Join(rest[1..], sep);
      }
    }
  }

  /** A piece free of the separator splits into itself. */
  lemma {:induction false} SplitPlain(p: string, sep: char)
    requires sep !in p
    ensures Split(p, sep) == [p]
    decreases |p|
  {
    if |p| > 0 {
      assert sep !in p[1..];
      SplitPlain(p[1..], sep);
      assert [p[0]] + p[1..] == p;
    }
  }

  /** Splitting `p + sep + t` with `p` free of the separator peels `p` off. */
  lemma {:induction false} SplitCons(p: string, sep: char, t: string)
    requires sep !in p
    ensures Split(p + [sep] + t, sep) == [p] + Split(t, sep)
    decreases |p|
  {
    var s := p + [sep] + t;
    if |p| == 0 {
      assert s == [sep] + t;
      assert s[1..] == t;
    } else {
      assert s[1..] == p[1..] + [sep] + t;
      assert sep !in p[1..];
      SplitCons(p[1..], sep, t);
      assert [p[0]] + p[1..] == p;
    }
  }

  /** Splitting a join of separator-free pieces gives back the pieces. */
  lemma {:induction false} SplitJoin(parts: seq<string>, sep: char)
    requires |parts| >= 1
    requires forall i :: 0 <= i < |parts| ==> sep !in parts[i]
    ensures Split(Join(parts, sep), sep) == parts
    decreases |parts|
  {
    if |parts| == 1 {
      SplitPlain(parts[0], sep);
    } else {
      SplitJoin(parts[1..], sep);
      SplitCons(parts[0], sep, Join(parts[1..], sep));
      assert [parts[0]] + parts[1..] == parts;
    }
  }

  /** A split yields exactly one more piece than there are separators. */
  lemma {:induction false} SplitCount(s: string, sep: char)
    ensures |Split(s, sep)| == multiset(s)[sep] + 1
    decreases |s|
  {
    if |s| > 0 {
      SplitCount(s[1..], sep);
      assert s == [s[0]] + s[1..];
      assert multiset(s) == multiset{s[0]} + multiset(s[1..]);
    }
  }

  // ---------------------------------------------------------------------
  // parseInt
  // ---------------------------------------------------------------------

  /** The characters `parseInt` skips before the number: the ECMAScript
      WhiteSpace and LineTerminator code points (tab, vertical tab, form
      feed, the space separators, the byte order mark, line feed, carriage
      return, line and paragraph separator). */
  predicate IsStrWhiteSpace(c: char)
  {
    var u := c as int;
    u == 0x09 || u == 0x0A || u == 0x0B || u == 0x0C || u == 0x0D
    || u == 0x20 || u == 0xA0 || u == 0x1680 || (0x2000 <= u <= 0x200A)
    || u == 0x2028 || u == 0x2029 || u == 0x202F || u == 0x205F
    || u == 0x3000 || u == 0xFEFF
  }

  /** `s` without its leading white space. */
  function TrimStart(s: string): (t: string)
    ensures |t| <= |s| && t == s[|s| - |t|..]
    ensures forall i :: 0 <= i < |s| - |t| ==> IsStrWhiteSpace(s[i])
    ensures |t| > 0 ==> !IsStrWhiteSpace(t[0])
    decreases |s|
  {
    if |s| > 0 && IsStrWhiteSpace(s[0]) then TrimStart(s[1..]) else s
  }

  /** The value of an ASCII letter or digit as a digit of radix up to 36;
      36 for every other character. */
  function DigitValue(c: char): (d: nat)
    ensures d <= 36
  {
    if '0' <= c <= '9' then c as int - '0' as int
    else if 'a' <= c <= 'z' then c as int - 'a' as int + 10
    else if 'A' <= c <= 'Z' then c as int - 'A' as int + 10
    else 36
  }

  predicate IsRadixDigit(c: char, radix: nat)
  {
    DigitValue(c) < radix
  }

  predicate IsDecimalDigit(c: char)
  {
    '0' <= c <= '9'
  }

  /** The length of the longest prefix of `s` made of digits of `radix`. */
  function DigitRun(s: string, radix: nat): (n: nat)
    ensures n <= |s|
    ensures forall i :: 0 <= i < n ==> IsRadixDigit(s[i], radix)
    ensures n < |s| ==> !IsRadixDigit(s[n], radix)
    decreases |s|
  {
    if |s| > 0 && IsRadixDigit(s[0], radix) then 1 + DigitRun(s[1..], radix) else 0
  }

  /** The number written by the digit string `ds` in base `radix`, most
      significant digit first. */
  function DigitsValue(ds: string, radix: nat): nat
    decreases |ds|
  {
    if |ds| == 0 then 0
    else DigitsValue(ds[..|ds| - 1], radix) * radix + DigitValue(ds[|ds| - 1])
  }

  /** Whether `u` starts with the hexadecimal prefix "0x" or "0X". */
  predicate HasHexPrefix(u: string)
  {
    |u| >= 2 && u[0] == '0' && (u[1] == 'x' || u[1] == 'X')
  }

  /** The number read from the longest prefix of `v` made of digits of
      `radix`; NaN when there is no such digit. */
  function DigitsPrefix(v: string, radix: nat): (r: NaNOr<int>)
    ensures r.Num? <==> |v| > 0 && IsRadixDigit(v[0], radix)
    ensures r.Num? ==> r.value >= 0
  {
    var n := DigitRun(v, radix);
    if n == 0 then NaN else Num(DigitsValue(v[..n], radix))
  }

  /** An unsigned numeral: radix 16 after a "0x"/"0X" prefix, else radix 10. */
  function ParseMagnitude(u: string): (r: NaNOr<int>)
    ensures r.Num? ==> |u| > 0 && IsDecimalDigit(u[0]) && r.value >= 0
    ensures |u| > 0 && IsDecimalDigit(u[0]) && !HasHexPrefix(u) ==> r.Num?
  {
    if HasHexPrefix(u) then DigitsPrefix(u[2..], 16) else DigitsPrefix(u, 10)
  }

  /** `t` without a leading sign. */
  function SignStripped(t: string): string
  {
    if |t| > 0 && (t[0] == '-' || t[0] == '+') then t[1..] else t
  }

  /** `t` starts with a decimal digit, possibly after one sign. */
  predicate StartsNumeral(t: string)
  {
    var u := SignStripped(t);
    |u| > 0 && IsDecimalDigit(u[0])
  }

  /** A numeral with an optional leading sign. */
  function ParseSigned(t: string): (r: NaNOr<int>)
    ensures r.Num? ==> StartsNumeral(t)
    ensures StartsNumeral(t) && !HasHexPrefix(SignStripped(t)) ==> r.Num?
    ensures r.Num? && r.value < 0 ==> t[0] == '-'
  {
    if |t| > 0 && t[0] == '-' then Negate(ParseMagnitude(t[1..]))
    else if |t| > 0 && t[0] == '+' then ParseMagnitude(t[1..])
    else ParseMagnitude(t)
  }

  /** The global `parseInt(s)` with no radix argument: skip leading white
      space, take an optional sign, switch to radix 16 after a "0x"/"0X"
      prefix and otherwise use radix 10, then read the longest run of
      digits. NaN when that run is empty. */
  function ParseInt(s: string): (r: NaNOr<int>)
    ensures r.Num? ==> StartsNumeral(TrimStart(s))
    ensures StartsNumeral(TrimStart(s)) && !HasHexPrefix(SignStripped(TrimStart(s))) ==> r.Num?
    ensures r.Num? && r.value < 0 ==> TrimStart(s)[0] == '-'
  {
    ParseSigned(TrimStart(s))
  }

  // ---------------------------------------------------------------------
  // Number to property key
  // ---------------------------------------------------------------------

  function DecimalDigitChar(d: nat): (c: char)
    requires d < 10
    ensures IsDecimalDigit(c) && DigitValue(c) == d
  {
    ('0' as int + d) as char
  }

  /** The decimal numeral of `n`, without leading zeros. */
  function NatToString(n: nat): (s: string)
    ensures |s| >= 1
    ensures forall i :: 0 <= i < |s| ==> IsDecimalDigit(s[i])
    ensures s[0] == '0' <==> n == 0
    ensures DigitsValue(s, 10) == n
    decreases n
  {
    if n < 10 then [DecimalDigitChar(n)]
    else
      var s := NatToString(n / 10) + [DecimalDigitChar(n % 10)];
      assert s[..|s| - 1] == NatToString(n / 10);
      s
  }

  /** `String(n)` for an integer `n`: an optional minus sign and the
      decimal numeral of its magnitude. */
  function IntToString(n: int): string
  {
    if n < 0 then "-" + NatToString(-n) else NatToString(n)
  }

  /** The property key under which an object stores the number `y`:
      "NaN" for NaN, the decimal numeral otherwise. */
  function KeyString(y: NaNOr<int>): string
  {
    match y
    case NaN => "NaN"
    case Num(n) => IntToString(n)
  }

  // ---------------------------------------------------------------------
  // Facts about parseInt
  // ---------------------------------------------------------------------

  /** A full run of digits is read to its end. */
  lemma {:induction false} DigitRunOfDigits(ds: string, tail: string, radix: nat)
    requires forall i :: 0 <= i < |ds| ==> IsRadixDigit(ds[i], radix)
    requires |tail| == 0 || !IsRadixDigit(tail[0], radix)
    ensures DigitRun(ds + tail, radix) == |ds|
    decreases |ds|
  {
    if |ds| > 0 {
      assert (ds + tail)[1..] == ds[1..] + tail;
      DigitRunOfDigits(ds[1..], tail, radix);
    } else {
      assert ds + tail == tail;
    }
  }

  /** Reading a decimal numeral followed by anything that does not extend
      it (nothing, or a character that is neither a decimal digit nor the
      `x` of a hexadecimal prefix). */
  lemma {:induction false} MagnitudeOfNumeral(n: nat, tail: string)
    requires |tail| == 0 || (!IsDecimalDigit(tail[0]) && tail[0] != 'x' && tail[0] != 'X')
    ensures ParseMagnitude(NatToString(n) + tail) == Num(n)
  {
    var ds := NatToString(n);
    var s := ds + tail;
    assert !HasHexPrefix(s) by {
      if |ds| == 1 && |s| >= 2 { assert s[1] == tail[0]; }
    }
    assert |tail| == 0 || !IsRadixDigit(tail[0], 10);
    DigitRunOfDigits(ds, tail, 10);
    assert s[..|ds|] == ds;
  }

  /** A numeral that does not start with white space is read as it stands. */
  lemma {:induction false} ParseIntUntrimmed(s: string)
    requires |s| > 0 && !IsStrWhiteSpace(s[0])
    ensures ParseInt(s) == ParseSigned(s)
  {
  }

  /** The minus sign in front of a numeral negates what it reads. */
  lemma {:induction false} ParseNegativeNumeral(m: nat, tail: string)
    requires |tail| == 0 || (!IsDecimalDigit(tail[0]) && tail[0] != 'x' && tail[0] != 'X')
    ensures ParseInt(("-" + NatToString(m)) + tail) == Num(-(m as int))
  {
    var u := NatToString(m) + tail;
    var s := ("-" + NatToString(m)) + tail;
    assert s[0] == '-' && s[1..] == u;
    ParseIntUntrimmed(s);
    MagnitudeOfNumeral(m, tail);
  }

  /** A numeral without sign is read as it stands. */
  lemma {:induction false} ParseUnsignedNumeral(m: nat, tail: string)
    requires |tail| == 0 || (!IsDecimalDigit(tail[0]) && tail[0] != 'x' && tail[0] != 'X')
    ensures ParseInt(NatToString(m) + tail) == Num(m)
  {
    var s := NatToString(m) + tail;
    assert s[0] == NatToString(m)[0];
    ParseIntUntrimmed(s);
    MagnitudeOfNumeral(m, tail);
  }

  /** `parseInt` reads back the decimal numeral of an integer, and stops at
      the first character that cannot continue it: trailing text such as a
      carriage return or a unit is ignored. */
  lemma {:induction false} ParseIntToString(n: int, tail: string)
    requires |tail| == 0 || (!IsDecimalDigit(tail[0]) && tail[0] != 'x' && tail[0] != 'X')
    ensures ParseInt(IntToString(n) + tail) == Num(n)
  {
    var k := IntToString(n);
    if n < 0 {
      assert k == "-" + NatToString(-n);
      ParseNegativeNumeral(-n, tail);
      assert ParseInt(k + tail) == Num(n);
    } else {
      assert k == NatToString(n);
      ParseUnsignedNumeral(n, tail);
    }
  }

  /** Storing a number under its property key and parsing the key back
      gives the same number, NaN included. */
  lemma {:induction false} KeyStringRoundTrip(y: NaNOr<int>)
    ensures ParseInt(KeyString(y)) == y
  {
    match y
    case NaN =>
      ParseIntRejects("NaN");
    case Num(n) =>
      var k := IntToString(n);
      ParseIntToString(n, "");
      assert k + "" == k;
  }

  /** The radix-10 digits are exactly the decimal digits. */
  lemma {:induction false} DecimalRadixDigit(c: char)
    ensures IsRadixDigit(c, 10) <==> IsDecimalDigit(c)
  {
  }

  /** A run of digits of `radix` followed by a non-digit is read in full. */
  lemma {:induction false} DigitsPrefixOfDigits(ds: string, tail: string, radix: nat)
    requires |ds| >= 1 && forall i :: 0 <= i < |ds| ==> IsRadixDigit(ds[i], radix)
    requires |tail| == 0 || !IsRadixDigit(tail[0], radix)
    ensures DigitsPrefix(ds + tail, radix) == Num(DigitsValue(ds, radix))
  {
    DigitRunOfDigits(ds, tail, radix);
    assert (ds + tail)[..|ds|] == ds;
  }

  /** A leading sign in front of text that starts with a digit: `-`
      negates what the rest reads, `+` and no sign leave it. */
  lemma {:induction false} ParseIntSigned(sign: string, u: string)
    requires sign == "" || sign == "+" || sign == "-"
    requires |u| > 0 && IsDecimalDigit(u[0])
    ensures ParseInt(sign + u) == if sign == "-" then Negate(ParseMagnitude(u)) else ParseMagnitude(u)
  {
    var s := sign + u;
    assert s[0] == (if sign == "" then u[0] else sign[0]);
    ParseIntUntrimmed(s);
    SignedMagnitude(sign, u);
  }

  /** The sign step of `ParseIntSigned`, before white space is considered. */
  lemma {:induction false} SignedMagnitude(sign: string, u: string)
    requires sign == "" || sign == "+" || sign == "-"
    requires |u| > 0 && IsDecimalDigit(u[0])
    ensures ParseSigned(sign + u) == if sign == "-" then Negate(ParseMagnitude(u)) else ParseMagnitude(u)
  {
    var s := sign + u;
    if sign != "" {
      assert s[0] == sign[0] && s[1..] == u;
    } else {
      assert s == u;
    }
  }

  /** `parseInt` of a decimal numeral with an optional sign: leading zeros
      and a `+` are accepted, and reading stops at the first non-digit. */
  lemma {:induction false} ParseIntDecimal(sign: string, ds: string, tail: string)
    requires sign == "" || sign == "+" || sign == "-"
    requires |ds| >= 1 && forall i :: 0 <= i < |ds| ==> IsDecimalDigit(ds[i])
    requires |tail| == 0 || !IsDecimalDigit(tail[0])
    requires !HasHexPrefix(ds + tail)
    ensures ParseInt(sign + ds + tail) ==
              if sign == "-" then Num(-(DigitsValue(ds, 10) as int)) else Num(DigitsValue(ds, 10))
  {
    var u := ds + tail;
    var s := sign + ds + tail;
    assert s == sign + u;
    assert u[0] == ds[0];
    DecimalMagnitude(ds, tail);
    assert s[0] == (if sign == "" then ds[0] else sign[0]);
    ParseIntUntrimmed(s);
    SignedMagnitude(sign, u);
    if sign == "-" {
      assert ParseInt(s) == Negate(Num(DigitsValue(ds, 10)));
    } else {
      assert ParseInt(s) == Num(DigitsValue(ds, 10));
    }
  }

  /** The unsigned part of `ParseIntDecimal`. */
  lemma {:induction false} DecimalMagnitude(ds: string, tail: string)
    requires |ds| >= 1 && forall i :: 0 <= i < |ds| ==> IsDecimalDigit(ds[i])
    requires |tail| == 0 || !IsDecimalDigit(tail[0])
    requires !HasHexPrefix(ds + tail)
    ensures ParseMagnitude(ds + tail) == Num(DigitsValue(ds, 10))
  {
    forall i | 0 <= i < |ds| ensures IsRadixDigit(ds[i], 10) {
      DecimalRadixDigit(ds[i]);
    }
    if |tail| > 0 {
      DecimalRadixDigit(tail[0]);
    }
    DigitsPrefixOfDigits(ds, tail, 10);
  }

  /** `parseInt` with no radix reads hexadecimal after a "0x" or "0X"
      prefix, and stops at the first character that is not a hex digit. */
  lemma {:induction false} ParseIntHex(sign: string, x: char, hs: string, tail: string)
    requires sign == "" || sign == "+" || sign == "-"
    requires x == 'x' || x == 'X'
    requires |hs| >= 1 && forall i :: 0 <= i < |hs| ==> IsRadixDigit(hs[i], 16)
    requires |tail| == 0 || !IsRadixDigit(tail[0], 16)
    ensures ParseInt(sign + ['0', x] + hs + tail) ==
              if sign == "-" then Num(-(DigitsValue(hs, 16) as int)) else Num(DigitsValue(hs, 16))
  {
    var u := ['0', x] + hs + tail;
    var s := sign + ['0', x] + hs + tail;
    assert s == sign + u;
    assert u[0] == '0';
    HexMagnitude(x, hs, tail);
    assert s[0] == (if sign == "" then '0' else sign[0]);
    ParseIntUntrimmed(s);
    SignedMagnitude(sign, u);
    if sign == "-" {
      assert ParseInt(s) == Negate(Num(DigitsValue(hs, 16)));
    } else {
      assert ParseInt(s) == Num(DigitsValue(hs, 16));
    }
  }

  /** The unsigned part of `ParseIntHex`. */
  lemma {:induction false} HexMagnitude(x: char, hs: string, tail: string)
    requires x == 'x' || x == 'X'
    requires |hs| >= 1 && forall i :: 0 <= i < |hs| ==> IsRadixDigit(hs[i], 16)
    requires |tail| == 0 || !IsRadixDigit(tail[0], 16)
    ensures ParseMagnitude(['0', x] + hs + tail) == Num(DigitsValue(hs, 16))
  {
    var u := ['0', x] + hs + tail;
    assert HasHexPrefix(u) && u[2..] == hs + tail;
    DigitsPrefixOfDigits(hs, tail, 16);
  }

  /** A hexadecimal prefix without a hex digit after it reads as NaN. */
  lemma {:induction false} ParseIntEmptyHex(sign: string, x: char, tail: string)
    requires sign == "" || sign == "+" || sign == "-"
    requires x == 'x' || x == 'X'
    requires |tail| == 0 || !IsRadixDigit(tail[0], 16)
    ensures ParseInt(sign + ['0', x] + tail) == NaN
  {
    var u := ['0', x] + tail;
    assert sign + ['0', x] + tail == sign + u;
    assert HasHexPrefix(u) && u[2..] == tail;
    ParseIntSigned(sign, u);
  }

  /** Leading white space does not change what `parseInt` reads. */
  lemma {:induction false} ParseIntSkipsWhiteSpace(c: char, s: string)
    requires IsStrWhiteSpace(c)
    ensures ParseInt([c] + s) == ParseInt(s)
  {
    assert ([c] + s)[1..] == s;
  }

  /** Text that starts with anything other than white space, a sign or a
      decimal digit reads as NaN: "NaN", "undefined", a job title. */
  lemma {:induction false} ParseIntRejects(s: string)
    requires |s| > 0 && !IsStrWhiteSpace(s[0]) && !IsDecimalDigit(s[0])
    requires s[0] != '+' && s[0] != '-'
    ensures ParseInt(s) == NaN
  {
    assert TrimStart(s) == s;
  }
}
