/**
  What a string of digits is worth, place by place; what strtol of lab8/libs/string.c reads in any base; and that
  the digits lab8/libs/printfmt.c prints are the one numeral of their number.
 */
module Numerals {
  import opened FormatText
  import opened ParseText

  const SMALL: string := "0123456789abcdefghijklmnopqrstuvwxyz"
  const CAPITAL: string := "0123456789ABCDEFGHIJKLMNOPQRSTUVWXYZ"

  /** The character of each alphabet at place `k`. */
  lemma Alphabets(k: nat)
    requires k < 36
    ensures |SMALL| == 36 && SMALL[k] == if k < 10 then '0' + k as char else 'a' + (k - 10) as char
    ensures |CAPITAL| == 36 && CAPITAL[k] == if k < 10 then '0' + k as char else 'A' + (k - 10) as char
  {
  }

  /** strtol's digits are those of the two alphabets, each at its place, and no other characters. */
  lemma DigitTable(c: char, k: nat)
    requires k < 36
    ensures |SMALL| == |CAPITAL| == 36 && (DigitValue(c) == k <==> c == SMALL[k] || c == CAPITAL[k])
  {
    Alphabets(k);
  }

  predicate DigitsOf(s: string, base: nat) {
    forall i | 0 <= i < |s| :: 0 <= DigitValue(s[i]) < base
  }

  /** The worth of the digits, the last one counting ones. */
  function Value(s: string, base: nat): nat
    requires DigitsOf(s, base)
  {
    if s == [] then 0 else Value(s[..|s| - 1], base) * base + DigitValue(s[|s| - 1])
  }

  // ---------- what strtol reads ----------

  /** Digits of any base are read to what they are worth, kept to 32 bits. */
  lemma {:induction false} DigitsWorth(s: string, i: nat, j: nat, base: nat)
    requires i <= j <= |s| && DigitsOf(s[i..j], base)
    ensures Accumulate(s, i, base, 0) == Accumulate(s, j, base, Wrap(Value(s[i..j], base)))
    decreases j - i
  {
    hide Wrap, DigitValue;
    if i == j {
      WrapSame(0);
    } else {
      var t := s[i..j];
      assert t[..|t| - 1] == s[i..j - 1] && t[|t| - 1] == s[j - 1];
      assert DigitsOf(t[..|t| - 1], base);
      DigitsWorth(s, i, j - 1, base);
      AccumulateStep(s, j - 1, base, Wrap(Value(s[i..j - 1], base)));
      WrapStep(Value(s[i..j - 1], base), base, DigitValue(s[j - 1]));
    }
  }

  predicate BlankChar(c: char) {
    c == ' ' || c == '\t'
  }

  predicate Blank(s: string) {
    forall i | 0 <= i < |s| :: BlankChar(s[i])
  }

  lemma {:induction false} BlanksRead(s: string, i: nat, j: nat)
    requires i <= j <= |s| && (forall x | i <= x < j :: BlankChar(s[x])) && (j < |s| ==> !BlankChar(s[j]))
    ensures SkipBlanks(s, i) == j
    decreases j - i
  {
    if i < j {
      BlanksRead(s, i + 1, j);
    }
  }

  /** The prefix that `base` allows before digits of base `b`: "0x" is always taken as one, and so is "0" in base 0. */
  predicate Prefix(base: nat, prefix: string, digits: string, rest: string, b: nat) {
    if base == 0 then
      || (prefix == "0x" && b == 16)
      || (prefix == "0" && b == 8 && !(digits == "" && "x" <= rest))
      || (prefix == "" && b == 10 && !("0" <= digits))
    else b == base && (prefix == "" || (prefix == "0x" && b == 16))
         && (b == 16 && prefix == "" ==> !(digits == "0" && "x" <= rest))
  }

  lemma PrefixSeen(s: string, j: nat, base: nat)
    requires j <= |s|
    ensures Prefixed(s, j, base) ==
            if (base == 0 || base == 16) && "0x" <= s[j..] then (j + 2, 16)
            else if base == 0 && "0" <= s[j..] then (j + 1, 8)
            else (j, if base == 0 then 10 else base)
  {
    var t := s[j..];
    assert (j < |s| ==> s[j] == t[0]) && (j + 1 < |s| ==> s[j + 1] == t[1]);
  }

  /** Digits with what follows them look like the prefix "0x" only if they are a single zero. */
  lemma NoPrefix(digits: string, rest: string, b: nat)
    requires DigitsOf(digits, b) && 0 < b <= 16 && (rest == "" || !(0 <= DigitValue(rest[0]) < b))
    ensures "0x" <= digits + rest ==> (digits == "0" && "x" <= rest)
    ensures "0" <= digits + rest ==> "0" <= digits
  {
    var t := digits + rest;
    assert DigitValue('0') == 0 && DigitValue('x') == 33;
    if digits == "" {
      assert t == rest;
    } else if |digits| > 1 {
      assert t[1] == digits[1] && DigitValue(digits[1]) < b;
    } else {
      assert t[0] == digits[0] && (|t| > 1 ==> t[1] == rest[0]);
    }
  }

  lemma NoLetterX(digits: string, rest: string, b: nat)
    requires DigitsOf(digits, b) && b <= 16 && !(digits == "" && "x" <= rest)
    ensures !("0x" <= "0" + (digits + rest))
  {
    var t := "0" + (digits + rest);
    assert digits != "" ==> t[1] == digits[0] && DigitValue(t[1]) < b;
    assert digits == "" && rest != "" ==> t[1] == rest[0];
  }

  /** With the prefix before them, digits look like no other prefix. */
  lemma PrefixLooks(base: nat, prefix: string, digits: string, rest: string, b: nat)
    requires Prefix(base, prefix, digits, rest, b)
    requires DigitsOf(digits, b) && (rest == "" || !(0 <= DigitValue(rest[0]) < b))
    ensures var t := prefix + digits + rest;
      && ((base == 0 || base == 16) && "0x" <= t <==> prefix == "0x")
      && (base == 0 && prefix != "0x" && "0" <= t <==> prefix == "0")
  {
    var t := digits + rest;
    if b <= 16 {
      NoPrefix(digits, rest, b);
    }
    if prefix == "" {
      assert prefix + digits + rest == t;
    } else if prefix == "0" {
      NoLetterX(digits, rest, b);
      hide DigitValue;
      assert prefix + digits + rest == "0" + t;
    } else {
      hide DigitValue;
      assert prefix + digits + rest == "0x" + t;
    }
  }

  lemma PrefixRead(s: string, j: nat, base: nat, prefix: string, digits: string, rest: string, b: nat)
    requires j <= |s| && s[j..] == prefix + digits + rest && Prefix(base, prefix, digits, rest, b)
    requires DigitsOf(digits, b) && (rest == "" || !(0 <= DigitValue(rest[0]) < b))
    ensures Prefixed(s, j, base) == (j + |prefix|, b)
  {
    PrefixSeen(s, j, base);
    PrefixLooks(base, prefix, digits, rest, b);
    hide DigitValue, Prefixed, DigitsOf;
  }

  /** What follows the blanks: no blank, and with no sign before it, no sign. */
  predicate Starts(sign: string, body: string) {
    sign == "" && body != "" ==> !BlankChar(body[0]) && body[0] != '+' && body[0] != '-'
  }

  lemma DigitStarts(digits: string, b: nat)
    requires DigitsOf(digits, b) && digits != ""
    ensures !BlankChar(digits[0]) && digits[0] != '+' && digits[0] != '-'
  {
    assert 0 <= DigitValue(digits[0]);
  }

  lemma SignRead(s: string, i: nat, sign: string, body: string)
    requires i <= |s| && s[i..] == sign + body && sign in ["", "+", "-"] && Starts(sign, body)
    ensures i + |sign| <= |s| && s[i + |sign|..] == body && (i < |s| ==> !BlankChar(s[i]))
    ensures At(s, i) == '-' && i < |s| <==> sign == "-"
    ensures i < |s| && (s[i] == '+' || s[i] == '-') <==> sign != ""
  {
    assert i < |s| ==> s[i] == (sign + body)[0];
    assert sign == "" ==> sign + body == body;
  }

  lemma ParseParts(s: string, base: nat, i: nat, j: nat, k: nat, b: nat, v: int, e: nat)
    requires i <= |s| && SkipBlanks(s, 0) == i && j == i + (if i < |s| && (s[i] == '+' || s[i] == '-') then 1 else 0)
    requires Prefixed(s, j, base) == (k, b) && Accumulate(s, k, b, 0) == (v, e)
    ensures ParseLong(s, base) == (if At(s, i) == '-' && i < |s| then Wrap(-v) else v, e)
  {
    hide SkipBlanks, Prefixed, Accumulate, Wrap;
  }

  /** strtol skips blanks and tabs, takes a sign and the prefix of the base, and gives what the digits are worth, kept
    * to 32 bits, up to the first character that is no digit of the base.
    */
  lemma StrtolReads(blanks: string, sign: string, prefix: string, digits: string, rest: string, base: nat, b: nat)
    requires Blank(blanks) && sign in ["", "+", "-"] && DigitsOf(digits, b) && Prefix(base, prefix, digits, rest, b)
    requires (rest == "" || !(0 <= DigitValue(rest[0]) < b)) && Starts(sign, prefix + digits + rest)
    ensures var n := Value(digits, b);
      ParseLong(blanks + sign + prefix + digits + rest, base)
      == (if sign == "-" then Wrap(-Wrap(n)) else Wrap(n), |blanks + sign + prefix + digits|)
  {
    hide Wrap, Value, Accumulate, SkipBlanks, Prefix, Prefixed, DigitValue, Starts, ParseLong;
    var body := prefix + digits + rest;
    var s := blanks + sign + prefix + digits + rest;
    var i, j, e := |blanks|, |blanks + sign|, |blanks + sign + prefix + digits|;
    assert s[i..] == sign + body;
    SignRead(s, i, sign, body);
    BlanksRead(s, 0, i);
    PrefixRead(s, j, base, prefix, digits, rest, b);
    assert s[e - |digits|..e] == digits && s[e..] == rest;
    DigitsWorth(s, e - |digits|, e, b);
    assert e < |s| ==> s[e] == rest[0];
    AccumulateStep(s, e, b, Wrap(Value(digits, b)));
    ParseParts(s, base, i, j, j + |prefix|, b, Wrap(Value(digits, b)), e);
  }

  function Capitals(s: string): (t: string)
    ensures |t| == |s|
  {
    seq(|s|, i requires 0 <= i < |s| => if 'a' <= s[i] <= 'z' then s[i] - 'a' + 'A' else s[i])
  }

  /** Capitals are worth what the small letters are. */
  lemma {:induction false} CapitalsWorth(s: string, base: nat)
    requires DigitsOf(s, base)
    ensures DigitsOf(Capitals(s), base) && Value(Capitals(s), base) == Value(s, base)
  {
    var t := Capitals(s);
    assert DigitsOf(t, base);
    if s != "" {
      CapitalsWorth(s[..|s| - 1], base);
      assert Capitals(s[..|s| - 1]) == t[..|t| - 1];
    }
  }

  /** A capital X makes no prefix, against the comment in string.c: reading stops in front of it. */
  lemma CapitalPrefixStops(rest: string, base: nat)
    requires base == 0 || base == 16
    ensures ParseLong("0X" + rest, base) == (0, 1)
  {
    hide ParseLong, Wrap;
    var s := "0X" + rest;
    WrapSame(0);
    assert ("X" + rest)[0] == 'X' && DigitValue('X') == 33;
    if base == 16 {
      assert "" + "" + "" + "0" + ("X" + rest) == s;
      StrtolReads("", "", "", "0", "X" + rest, 16, 16);
      assert "0"[..0] == "";
    } else {
      assert "" + "" + "0" + "" + ("X" + rest) == s;
      StrtolReads("", "", "0", "", "X" + rest, 0, 8);
    }
  }

  // ---------- printed digits ----------

  /** `s` is how `n` is written: small digits, and no zero in front. */
  predicate Numeral(s: string, n: nat, base: nat) {
    && s != "" && DigitsOf(s, base) && (s[0] == '0' ==> |s| == 1)
    && (forall i | 0 <= i < |s| :: !('A' <= s[i] <= 'Z')) && Value(s, base) == n
  }

  lemma {:induction false} DigitsNumeral(n: nat, base: nat)
    requires Base(base)
    ensures Numeral(Digits(n, base), n, base) && (Digits(n, base)[0] == '0' ==> n == 0)
    decreases n
  {
    hide Digit, DigitValue, Split;
    var (q, d) := Split(n, base);
    var s := Digits(n, base);
    SmallDigit(d);
    if n < base {
      SmallDigit(n);
      assert s[..0] == "";
      assert Value(s, base) == Value(s[..0], base) * base + DigitValue(s[0]);
    } else {
      DigitsNumeral(q, base);
      SplitGrows(n, base);
      assert s[..|s| - 1] == Digits(q, base);
      assert Value(s, base) == Value(s[..|s| - 1], base) * base + DigitValue(s[|s| - 1]);
    }
  }

  lemma SplitGrows(n: nat, base: nat)
    requires Base(base)
    ensures n >= base ==> Split(n, base).0 > 0
  {
  }

  lemma SmallDigit(d: nat)
    requires d < 16
    ensures DigitValue(Digit(d)) == d && !('A' <= Digit(d) <= 'Z') && (Digit(d) == '0' ==> d == 0)
  {
    DigitReads(d);
  }

  lemma SameDigit(c: char, d: char)
    requires DigitValue(c) == DigitValue(d) >= 0 && !('A' <= c <= 'Z') && !('A' <= d <= 'Z')
    ensures c == d
  {
  }

  lemma TimesMore(v: nat, w: nat, base: nat)
    requires v < w
    ensures v * base + base <= w * base
  {
    assert (v + 1) * base <= w * base;
  }

  lemma UniqueSplit(v: nat, d: nat, w: nat, e: nat, base: nat)
    requires d < base && e < base && v * base + d == w * base + e
    ensures v == w && d == e
  {
    if v < w {
      TimesMore(v, w, base);
    } else if w < v {
      TimesMore(w, v, base);
    }
  }

  lemma {:induction false} FirstCounts(s: string, base: nat)
    requires s != "" && DigitsOf(s, base) && s[0] != '0' && !('A' <= s[0] <= 'Z')
    ensures Value(s, base) > 0
  {
    var s' := s[..|s| - 1];
    if s' == "" {
      if DigitValue(s[0]) == 0 { SameDigit(s[0], '0'); }
    } else {
      FirstCounts(s', base);
      TimesMore(0, Value(s', base), base);
      assert 0 <= DigitValue(s[0]) < base;
    }
  }

  /** A longer numeral has a greater part in front of its last digit than a single digit has. */
  lemma FrontCounts(s: string, n: nat, base: nat)
    requires Numeral(s, n, base)
    ensures var s' := s[..|s| - 1];
      && DigitsOf(s', base) && (s' == "" <==> Value(s', base) == 0) && (s' != "" ==> Numeral(s', Value(s', base), base))
  {
    var s' := s[..|s| - 1];
    if s' != "" {
      FirstCounts(s', base);
    }
  }

  /** A number has one numeral. */
  lemma {:induction false} NumeralUnique(s: string, t: string, n: nat, base: nat)
    requires Numeral(s, n, base) && Numeral(t, n, base)
    ensures s == t
    decreases |s|
  {
    var s', t' := s[..|s| - 1], t[..|t| - 1];
    FrontCounts(s, n, base);
    FrontCounts(t, n, base);
    var v, w := Value(s', base), Value(t', base);
    UniqueSplit(v, DigitValue(s[|s| - 1]), w, DigitValue(t[|t| - 1]), base);
    SameDigit(s[|s| - 1], t[|t| - 1]);
    if s' != "" {
      NumeralUnique(s', t', v, base);
    }
    assert s == s' + [s[|s| - 1]] && t == t' + [t[|t| - 1]];
  }

  function Signs(sign: string, n: nat): int {
    if sign == "-" then Wrap(-Wrap(n)) else Wrap(n)
  }

  lemma ReadsWhole(blanks: string, sign: string, prefix: string, digits: string, base: nat, b: nat)
    requires Blank(blanks) && sign in ["", "+", "-"] && DigitsOf(digits, b) && Prefix(base, prefix, digits, "", b)
    ensures var s := blanks + sign + prefix + digits;
      ParseLong(s, base) == (Signs(sign, Value(digits, b)), |s|)
  {
    var s := blanks + sign + prefix + digits;
    if prefix == "" && digits != "" {
      DigitStarts(digits, b);
      assert (prefix + digits + "")[0] == digits[0];
    }
    assert s + "" == s;
    StrtolReads(blanks, sign, prefix, digits, "", base, b);
  }

  /** Base 0: the digits of a number are read back in base 16 behind "0x", in base 8 behind "0", and in base 10. */
  lemma BaseZeroReads(blanks: string, sign: string, n: nat)
    requires Blank(blanks) && sign in ["", "+", "-"]
    ensures var s := blanks + sign + "0x" + Digits(n, 16); ParseLong(s, 0) == (Signs(sign, n), |s|)
    ensures var s := blanks + sign + "0" + Digits(n, 8); ParseLong(s, 0) == (Signs(sign, n), |s|)
    ensures var s := blanks + sign + Digits(n, 10); ParseLong(s, 0) == (Signs(sign, n), |s|)
  {
    hide ParseLong, Wrap, Digits, DigitValue, Signs;
    DigitsNumeral(n, 16);
    DigitsNumeral(n, 8);
    DigitsNumeral(n, 10);
    ReadsWhole(blanks, sign, "0x", Digits(n, 16), 0, 16);
    ReadsWhole(blanks, sign, "0", Digits(n, 8), 0, 8);
    if n > 0 {
      ReadsWhole(blanks, sign, "", Digits(n, 10), 0, 10);
      assert blanks + sign + "" + Digits(n, 10) == blanks + sign + Digits(n, 10);
    } else {
      assert Digits(0, 10) == "0" by { ZeroDigit(); }
      ReadsWhole(blanks, sign, "0", "", 0, 8);
      assert blanks + sign + "0" + "" == blanks + sign + "0";
    }
  }

  lemma ZeroDigit()
    ensures Digits(0, 10) == "0"
  {
  }

  /** In every base capitals are read as the small letters are, except in a prefix. */
  lemma CapitalsRead(blanks: string, sign: string, prefix: string, digits: string, base: nat, b: nat)
    requires Blank(blanks) && sign in ["", "+", "-"] && DigitsOf(digits, b) && Prefix(base, prefix, digits, "", b)
    ensures ParseLong(blanks + sign + prefix + Capitals(digits), base)
            == ParseLong(blanks + sign + prefix + digits, base)
  {
    hide ParseLong, Value;
    CapitalsWorth(digits, b);
    if "0" <= Capitals(digits) {
      assert Capitals(digits)[0] == '0';
      assert "0" <= digits;
    }
    ReadsWhole(blanks, sign, prefix, digits, base, b);
    ReadsWhole(blanks, sign, prefix, Capitals(digits), base, b);
  }
}
