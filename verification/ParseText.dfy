/** strtol, and the round trip from printing a number to reading it back (lab8/libs/string.c,
  * lab8/libs/printfmt.c). A long has 32 bits and wraps.
  */
module ParseText {
  import opened ShiftDivision
  import opened FormatText

  function Wrap(v: int): (w: int)
    ensures -0x8000_0000 <= w < 0x8000_0000
  {
    Signed(Low(v))
  }

  /** The value of a digit or letter, -1 for any other character. */
  function DigitValue(c: char): (d: int)
    ensures -1 <= d < 36
  {
    if '0' <= c <= '9' then (c - '0') as int
    else if 'a' <= c <= 'z' then (c - 'a') as int + 10
    else if 'A' <= c <= 'Z' then (c - 'A') as int + 10
    else -1
  }

  /** Read digits of the base from position i on. */
  function Accumulate(s: string, i: nat, base: nat, val: int): (r: (int, nat))
    requires i <= |s|
    ensures i <= r.1 <= |s|
    decreases |s| - i
  {
    if i < |s| && 0 <= DigitValue(s[i]) < base then Accumulate(s, i + 1, base, Wrap(val * base + DigitValue(s[i])))
    else (val, i)
  }

  function SkipBlanks(s: string, i: nat): (r: nat)
    requires i <= |s|
    ensures i <= r <= |s|
    decreases |s| - i
  {
    if i < |s| && (s[i] == ' ' || s[i] == '\t') then SkipBlanks(s, i + 1) else i
  }

  function Prefixed(s: string, i: nat, base: nat): (r: (nat, nat))
    requires i <= |s|
    ensures i <= r.0 <= |s|
  {
    if (base == 0 || base == 16) && At(s, i) == '0' && i < |s| && At(s, i + 1) == 'x' then (i + 2, 16)
    else if base == 0 && At(s, i) == '0' && i < |s| then (i + 1, 8)
    else if base == 0 then (i, 10)
    else (i, base)
  }

  /** The value strtol returns and the position it stops at. */
  function ParseLong(s: string, base: nat): (int, nat) {
    var i := SkipBlanks(s, 0);
    var neg := At(s, i) == '-' && i < |s|;
    var j := if i < |s| && (s[i] == '+' || s[i] == '-') then i + 1 else i;
    var (k, b) := Prefixed(s, j, base);
    var (val, end) := Accumulate(s, k, b, 0);
    (if neg then Wrap(-val) else val, end)
  }

  method Strtol(s: string, base: nat) returns (value: int, end: nat)
    ensures (value, end) == ParseLong(s, base)
  {
    hide Accumulate, Wrap, DigitValue;
    var i, neg, val, b := 0, false, 0, base;
    while i < |s| && (s[i] == ' ' || s[i] == '\t')
      invariant i <= |s| && SkipBlanks(s, 0) == SkipBlanks(s, i)
    {
      i := i + 1;
    }
    if At(s, i) == '+' && i < |s| {
      i := i + 1;
    } else if At(s, i) == '-' && i < |s| {
      i, neg := i + 1, true;
    }
    if (b == 0 || b == 16) && At(s, i) == '0' && i < |s| && At(s, i + 1) == 'x' {
      i, b := i + 2, 16;
    } else if b == 0 && At(s, i) == '0' && i < |s| {
      i, b := i + 1, 8;
    } else if b == 0 {
      b := 10;
    }
    ghost var start := i;
    while true
      invariant start <= i <= |s| && Accumulate(s, start, b, 0) == Accumulate(s, i, b, val)
      decreases |s| - i
    {
      AccumulateStep(s, i, b, val);
      var dig := DigitValue(At(s, i));
      if i == |s| || dig < 0 || dig >= b {
        break;
      }
      i, val := i + 1, Wrap(val * b + dig);
    }
    end := i;
    value := if neg then Wrap(-val) else val;
  }

  lemma AccumulateStep(s: string, i: nat, base: nat, val: int)
    requires i <= |s|
    ensures Accumulate(s, i, base, val) ==
            if i < |s| && 0 <= DigitValue(s[i]) < base
              then Accumulate(s, i + 1, base, Wrap(val * base + DigitValue(s[i]))) else (val, i)
  {
  }

  // ---- wrapping ----

  lemma WrapShift(x: int, k: int)
    ensures Wrap(x + WORD * k) == Wrap(x)
  {
    hide Low;
    var j := LowSplit(x);
    LowIs(x + WORD * k, Low(x), j + k);
  }

  lemma WrapSplit(x: int) returns (k: int)
    ensures Wrap(x) == x + WORD * k
  {
    hide Low;
    var j := LowSplit(x);
    k := if Low(x) < 0x8000_0000 then -j else -j - 1;
  }

  lemma WrapSame(x: int)
    requires -0x8000_0000 <= x < 0x8000_0000
    ensures Wrap(x) == x
  {
  }

  /** Wrapping at every digit is wrapping once at the end. */
  lemma WrapStep(a: int, base: nat, d: nat)
    ensures Wrap(Wrap(a) * base + d) == Wrap(a * base + d)
  {
    hide Wrap;
    var k := WrapSplit(a);
    assert (a + WORD * k) * base == a * base + WORD * (k * base);
    assert Wrap(a) * base + d == a * base + d + WORD * (k * base);
    WrapShift(a * base + d, k * base);
  }

  // ---- reading what was printed ----

  lemma DigitReads(d: nat)
    requires d < 16
    ensures DigitValue(Digit(d)) == d
  {
  }

  /** The printed digits of n, at positions i to j, add up to n. */
  lemma {:induction false} DigitsRead(s: string, i: nat, j: nat, n: nat, base: nat)
    requires Base(base) && i <= j <= |s| && s[i..j] == Digits(n, base)
    ensures Accumulate(s, i, base, 0) == Accumulate(s, j, base, Wrap(n))
    decreases n
  {
    hide Wrap, DigitValue, Digit, Split;
    var (q, d) := Split(n, base);
    DigitReads(d);
    assert s[j - 1] == s[i..j][j - 1 - i];
    if n < base {
      DigitReads(n);
      WrapSame(n);
      AccumulateStep(s, i, base, 0);
    } else {
      assert s[i..j - 1] == s[i..j][..j - 1 - i];
      DigitsRead(s, i, j - 1, q, base);
      AccumulateStep(s, j - 1, base, Wrap(q));
      WrapStep(q, base, d);
    }
  }

  lemma {:induction false} ZerosRead(s: string, i: nat, j: nat, base: nat)
    requires Base(base) && i <= j <= |s| && forall x :: i <= x < j ==> s[x] == '0'
    ensures Accumulate(s, i, base, 0) == Accumulate(s, j, base, 0)
    decreases j - i
  {
    if i < j {
      AccumulateStep(s, i, base, 0);
      ZerosRead(s, i + 1, j, base);
    }
  }

  lemma {:induction false} BlanksSkipped(s: string, i: nat, j: nat)
    requires i <= j < |s| && (forall x :: i <= x < j ==> s[x] == ' ') && s[j] != ' ' && s[j] != '\t'
    ensures SkipBlanks(s, i) == j
    decreases j - i
  {
    if i < j {
      BlanksSkipped(s, i + 1, j);
    }
  }

  predicate DigitChar(c: char) {
    '0' <= c <= '9' || 'a' <= c <= 'f'
  }

  /** Every character of a printed number is a digit or one of a to f. */
  lemma {:induction false} DigitsOnly(n: nat, base: nat, k: nat)
    requires Base(base) && k < |Digits(n, base)|
    ensures DigitChar(Digits(n, base)[k])
    decreases n
  {
    hide Split;
    if n >= base && k < |Digits(n, base)| - 1 {
      DigitsOnly(Split(n, base).0, base, k);
    }
  }

  /** From the first digit, or a zero before it, to the end: reading gives the number. */
  lemma ReadsFrom(s: string, i: nat, p: nat, n: nat, base: nat)
    requires Base(base) && i + p + |Digits(n, base)| == |s|
    requires s[i + p..] == Digits(n, base) && forall x :: i <= x < i + p ==> s[x] == '0'
    ensures Prefixed(s, i, base) == (i, base)
    ensures Accumulate(s, i, base, 0) == (Wrap(n), |s|)
  {
    hide Wrap, Digits, DigitValue;
    if i + 1 < |s| && p <= 1 {
      DigitsOnly(n, base, 1 - p);
      assert s[i + 1] == s[i + p..][1 - p];
    }
    ZerosRead(s, i, i + p, base);
    assert s[i + p..|s|] == s[i + p..];
    DigitsRead(s, i + p, |s|, n, base);
    AccumulateStep(s, |s|, base, Wrap(n));
  }

  /** Padding that reading takes back: none, zeros, or blanks; and the one case of a single '-'. */
  predicate Readable(n: nat, base: nat, width: int, padc: char)
    requires Base(base)
  {
    || width <= |Digits(n, base)| || padc == '0' || padc == ' '
    || (padc == '-' && width == |Digits(n, base)| + 1 && Wrap(-Wrap(n)) == Wrap(n))
  }

  lemma PadSplit(n: nat, base: nat, width: int, padc: char) returns (p: nat)
    requires Base(base)
    ensures p == (if width > |Digits(n, base)| then width - |Digits(n, base)| else 0)
    ensures var s := NumberText(n, base, width, padc);
            |s| == p + |Digits(n, base)| && s[p..] == Digits(n, base) && (forall x :: 0 <= x < p ==> s[x] == padc)
    ensures var s := NumberText(n, base, width, padc); s[p] != ' ' && s[p] != '\t' && s[p] != '-' && s[p] != '+'
  {
    hide Digits;
    DigitsOnly(n, base, 0);
    p := if width > |Digits(n, base)| then width - |Digits(n, base)| else 0;
    var s := NumberText(n, base, width, padc);
    assert s[p] == Digits(n, base)[0];
  }

  /** Reading back %x, %o and %u text: the value as a wrapped long and the whole text, exactly when the
    * padding is readable.
    */
  lemma UnsignedRoundTrip(n: nat, base: nat, width: int, padc: char)
    requires Base(base) && padc in [' ', '0', '-']
    ensures var s := NumberText(n, base, width, padc);
            ParseLong(s, base) == (Wrap(n), |s|) <==> Readable(n, base, width, padc)
  {
    hide Wrap, Digits, DigitValue, NumberText, Accumulate;
    var s := NumberText(n, base, width, padc);
    var p := PadSplit(n, base, width, padc);
    if p == 0 || padc == '0' {
      BlanksSkipped(s, 0, 0);
      ReadsFrom(s, 0, p, n, base);
    } else if padc == ' ' {
      BlanksSkipped(s, 0, p);
      ReadsFrom(s, p, 0, n, base);
    } else {
      BlanksSkipped(s, 0, 0);
      if p == 1 {
        ReadsFrom(s, 1, 0, n, base);
      } else {
        AccumulateStep(s, 1, base, 0);
        MinusIsNoDigit();
      }
    }
  }

  lemma MinusIsNoDigit()
    ensures DigitValue('-') == -1 && DigitValue(' ') == -1
  {
  }

  /** Reading back %d text gives the number and stops at the end exactly when no padding was printed,
    * or it is zeros, or blanks before a number that is not negative; a single '-' before zero also
    * reads back.
    */
  lemma DecimalRoundTrip(v: int, width: int, padc: char)
    requires -0x8000_0000 <= v < 0x8000_0000 && padc in [' ', '0', '-']
    ensures var s := DecimalText(v, width, padc);
            var d := |Digits(if v < 0 then -v else v, 10)|;
            ParseLong(s, 10) == (v, |s|)
            <==> width <= d || padc == '0' || (padc == ' ' && v >= 0) || (padc == '-' && v == 0 && width == 2)
  {
    hide Wrap, Digits, DigitValue, NumberText, Accumulate;
    WrapSame(v);
    if v >= 0 {
      UnsignedRoundTrip(v, 10, width, padc);
      NegatedSame(v);
      ZeroDigits(v);
    } else {
      NegativeRead(v, width, padc);
    }
  }

  /** -5 in four places: the blanks come after the sign, and reading stops at them. */
  lemma PaddedMinusFive()
    ensures DecimalText(-5, 4, ' ') == "-   5"
    ensures ParseLong("-   5", 10) != (-5, 5)
  {
    assert Digits(5, 10) == "5";
    assert NumberText(5, 10, 4, ' ') == "   5";
    DecimalRoundTrip(-5, 4, ' ');
  }

  lemma NegatedSame(v: int)
    requires 0 <= v < 0x8000_0000
    ensures Wrap(-v) == v <==> v == 0
  {
    WrapSame(-v);
  }

  lemma ZeroDigits(v: nat)
    ensures v == 0 ==> |Digits(v, 10)| == 1
  {
  }

  lemma NegativeRead(v: int, width: int, padc: char)
    requires -0x8000_0000 <= v < 0 && padc in [' ', '0', '-']
    ensures var s := DecimalText(v, width, padc);
            ParseLong(s, 10) == (v, |s|) <==> width <= |Digits(-v, 10)| || padc == '0'
  {
    hide Wrap, Digits, DigitValue, NumberText, Accumulate;
    var t := NumberText(-v, 10, width, padc);
    var s := "-" + t;
    var p := PadSplit(-v, 10, width, padc);
    assert s[1..] == t;
    BlanksSkipped(s, 0, 0);
    if p == 0 || padc == '0' {
      forall x | 1 <= x < 1 + p ensures s[x] == '0' {
        assert s[x] == t[x - 1];
      }
      assert s[1 + p..] == t[p..];
      ReadsFrom(s, 1, p, -v, 10);
      NegativeWraps(v);
    } else {
      assert s[1] == t[0] == padc;
      AccumulateStep(s, 1, 10, 0);
      MinusIsNoDigit();
    }
  }

  lemma NegativeWraps(v: int)
    requires -0x8000_0000 <= v < 0
    ensures Wrap(-Wrap(-v)) == v
  {
    if v == -0x8000_0000 {
      assert Wrap(0x8000_0000) == -0x8000_0000;
    } else {
      WrapSame(-v);
      WrapSame(v);
    }
  }

  /** What "%d" prints, strtol reads back, for every 32-bit argument. */
  lemma PercentDReadsBack(messages: Messages, w: nat)
    requires w < WORD
    ensures var s := Expand(messages, "%d", [Word(w)], 0, 0);
            s == DecimalText(Signed(w), -1, ' ') && ParseLong(s, 10) == (Signed(w), |s|)
  {
    hide Digits, NumberText, ParseLong;
    var fmt := "%d";
    assert Flags(fmt, [Word(w)], 1, 0, PLAIN) == (PLAIN, 1, 0);
    ExpandKnown(messages, fmt, [Word(w)], 0, 0);
    ExpandEnd(messages, fmt, [Word(w)]);
    DecimalRoundTrip(Signed(w), -1, ' ');
  }
}
