/** printnum, vprintfmt and vsnprintf: printing character by character into a bounded buffer
  * (lab8/libs/printfmt.c), proved against the text of FormatText.
  */
module Printing {
  import opened ShiftDivision
  import opened FormatText

  const E_INVAL: int := 3

  function Min(a: int, b: int): int {
    if a < b then a else b
  }

  /** What an int counter holds after n steps from 0. */
  function Counted(n: nat): int {
    Signed(n % WORD)
  }

  lemma CountedIs(n: nat)
    ensures Counted(n) == n <==> n < 0x8000_0000
  {
  }

  /** The buffer of snprintf: `ebuf` is the place kept for the terminating zero. */
  class SprintBuf {
    const str: array<char>
    const ebuf: nat
    var buf: nat
    var cnt: int
    /** Everything printed so far. */
    ghost var out: string

    ghost predicate Valid()
      reads this, str
    {
      && ebuf < str.Length && cnt == Counted(|out|) && buf == Min(|out|, ebuf) && str[..buf] == out[..buf]
    }

    constructor (str: array<char>, size: nat)
      requires 0 < size <= str.Length
      ensures Valid() && this.str == str && ebuf == size - 1 && out == []
    {
      this.str, ebuf, buf, cnt, out := str, size - 1, 0, 0, [];
    }

    /** sprintputch: count the character, keep it only while there is room. */
    method Putch(ch: char)
      requires Valid()
      modifies this, str
      ensures Valid() && out == old(out) + [ch]
      ensures Beyond()
    {
      cnt := if cnt == 0x7fff_ffff then -0x8000_0000 else cnt + 1;
      if buf < ebuf {
        str[buf] := ch;
        buf := buf + 1;
      }
      out := out + [ch];
    }

    /** Characters from the writing position on are as they were. */
    twostate predicate Beyond()
      reads this, str
    {
      old(buf) <= buf && forall i :: buf <= i < str.Length ==> str[i] == old(str[i])
    }

    method PutRepeat(ch: char, n: int)
      requires Valid()
      modifies this, str
      ensures Valid() && Beyond() && out == old(out) + Repeat(ch, n)
    {
      var i := 0;
      while i < n
        invariant 0 <= i && (i == 0 || i <= n) && Valid() && Beyond() && out == old(out) + Repeat(ch, i)
      {
        Putch(ch);
        i := i + 1;
      }
      assert n <= 0 ==> Repeat(ch, n) == [] == Repeat(ch, 0);
    }
  }

  /** One more digit: the padding goes before the digits already printed. */
  lemma NumberGrows(n: nat, base: nat, width: int, padc: char)
    requires Base(base) && n >= base
    ensures NumberText(n, base, width, padc)
      == NumberText(Split(n, base).0, base, width - 1, padc) + [Digit(Split(n, base).1)]
  {
    hide Split;
  }

  lemma DigitsOf(n: nat, base: nat)
    requires Base(base)
    ensures n < base ==> Split(n, base).1 == n && Digits(n, base) == [Digit(n)]
  {
  }

  /** do_div in the three bases it is used with. */
  method DivideDigit(num: nat, base: nat) returns (result: nat, mod: nat)
    requires Base(base) && num < DOUBLE && (base == 10 ==> num < TEN_LIMIT)
    ensures (result, mod) == Split(num, base)
  {
    result, mod := DoDiv(num, base);
  }

  method PrintNum(b: SprintBuf, num: nat, base: nat, width: int, padc: char)
    requires b.Valid() && Base(base) && num < DOUBLE && (base == 10 ==> num < TEN_LIMIT)
    modifies b, b.str
    ensures b.Valid() && b.Beyond() && b.out == old(b.out) + NumberText(num, base, width, padc)
    decreases num
  {
    hide Split, Digits, Digit, Repeat;
    var result, mod := DivideDigit(num, base);
    DigitsOf(num, base);
    if num >= base {
      PrintNum(b, result, base, width - 1, padc);
      NumberGrows(num, base, width, padc);
    } else {
      b.PutRepeat(padc, width - 1);
    }
    b.Putch(Digit(mod));
  }

  /** The part of a string the precision lets through. */
  function Body(s: string, precision: int): string {
    if 0 <= precision < |s| then s[..precision] else s
  }

  /** strnlen: the length of the string, at most len; a negative precision is no limit. */
  method Strnlen(s: string, precision: int) returns (n: nat)
    ensures n == |Body(s, precision)|
  {
    n := 0;
    while (precision < 0 || n < precision) && n < |s|
      invariant n <= |s| && (precision >= 0 ==> n <= precision)
    {
      n := n + 1;
    }
  }

  /** The copying loop of the string conversion; it counts the width down. */
  method CopyString(b: SprintBuf, s: string, alt: bool, precision: int, width: int) returns (rest: int)
    requires b.Valid()
    modifies b, b.str
    ensures b.Valid() && b.Beyond() && b.out == old(b.out) + Shown(alt, Body(s, precision))
    ensures rest == width - |Body(s, precision)|
  {
    hide Shown;
    var left, p := precision, 0;
    rest := width;
    ShownNone(alt);
    while p < |s| && (left < 0 || left > 0)
      invariant 0 <= p <= |Body(s, precision)| && rest == width - p
      invariant b.Valid() && b.Beyond() && b.out == old(b.out) + Shown(alt, s[..p])
      invariant if precision < 0 then left == precision else left == precision - p
    {
      var ch := s[p];
      b.Putch(if alt && (ch < ' ' || ch > '~') then '?' else ch);
      ShownGrows(alt, s, p);
      p, left, rest := p + 1, if left < 0 then left else left - 1, rest - 1;
    }
    assert s[..p] == Body(s, precision);
  }

  lemma ShownNone(alt: bool)
    ensures forall s: string :: Shown(alt, s[..0]) == []
  {
  }

  /** The string conversion: pad, copy at most precision characters, fill up with blanks. */
  method PutString(b: SprintBuf, s: string, sp: Spec)
    requires b.Valid()
    modifies b, b.str
    ensures b.Valid() && b.Beyond() && b.out == old(b.out) + StringText(s, sp)
  {
    hide Shown, Repeat, SprintBuf.Valid;
    var width := sp.width;
    if width > 0 && sp.padc != '-' {
      var n := Strnlen(s, sp.precision);
      width := width - n;
      b.PutRepeat(sp.padc, width);
      RepeatNone(sp.padc, width);
      width := if width > 0 then 0 else width;
    }
    width := CopyString(b, s, sp.alt, sp.precision, width);
    b.PutRepeat(' ', width);
    RepeatNone(' ', width);
    RepeatNone(' ', sp.width - |Body(s, sp.precision)|);
  }

  lemma ShownGrows(alt: bool, s: string, p: nat)
    requires p < |s|
    ensures Shown(alt, s[..p + 1]) == Shown(alt, s[..p]) + Shown(alt, [s[p]])
    ensures Shown(alt, [s[p]]) == [if alt && (s[p] < ' ' || s[p] > '~') then '?' else s[p]]
  {
  }

  lemma RepeatNone(c: char, n: int)
    ensures n <= 0 ==> Repeat(c, n) == []
  {
  }

  method PutText(b: SprintBuf, s: string)
    requires b.Valid()
    modifies b, b.str
    ensures b.Valid() && b.Beyond() && b.out == old(b.out) + s
  {
    var p := 0;
    while p < |s|
      invariant p <= |s| && b.Valid() && b.Beyond() && b.out == old(b.out) + s[..p]
    {
      b.Putch(s[p]);
      assert s[..p + 1] == s[..p] + [s[p]];
      p := p + 1;
    }
    assert s[..p] == s;
  }

  method PutDecimal(b: SprintBuf, v: int, width: int, padc: char)
    requires b.Valid() && 0 < v + TEN_LIMIT && v < TEN_LIMIT
    modifies b, b.str
    ensures b.Valid() && b.Beyond() && b.out == old(b.out) + DecimalText(v, width, padc)
  {
    hide NumberText, SprintBuf.Valid;
    var num := v;
    if num < 0 {
      b.Putch('-');
      num := -num;
    }
    PrintNum(b, num, 10, width, padc);
  }

  method PutError(b: SprintBuf, messages: Messages, v: int)
    requires b.Valid() && -0x8000_0000 <= v < 0x8000_0000
    modifies b, b.str
    ensures b.Valid() && b.Beyond() && b.out == old(b.out) + ErrorText(messages, v)
  {
    hide DecimalText, SprintBuf.Valid;
    var err := v;
    if err < 0 && err > -0x8000_0000 {
      err := -err;
    }
    if err in messages {
      PutText(b, messages[err]);
    } else {
      PutText(b, "error ");
      PutDecimal(b, err, -1, ' ');
    }
  }

  /** The conversions that print an argument, and "%%". */
  method PutConversion(b: SprintBuf, messages: Messages, args: seq<Arg>, sp: Spec, c: char, k: nat) returns (k': nat)
    requires b.Valid() && Known(c) && Divisible(args, sp, c, k)
    modifies b, b.str
    ensures b.Valid() && b.Beyond()
    ensures b.out == old(b.out) + Convert(messages, args, sp, c, k).0 && k' == Convert(messages, args, sp, c, k).1
  {
    hide NumberText, DecimalText, StringText, ErrorText, SprintBuf.Valid;
    k' := k + 1;
    match c
    case 'c' => b.Putch((Bits(args, k) % 256) as char);
    case 'e' => PutError(b, messages, Signed(Bits(args, k)));
    case 's' => PutString(b, Str(args, k), sp);
    case 'd' => PutDecimal(b, Number(args, k, sp.lflag), sp.width, sp.padc);
    case 'u' => PrintNum(b, Unsigned(args, k, sp.lflag), 10, sp.width, sp.padc);
    case 'o' => PrintNum(b, Unsigned(args, k, sp.lflag), 8, sp.width, sp.padc);
    case 'p' => {
      PutText(b, "0x");
      PrintNum(b, Bits(args, k), 16, sp.width, sp.padc);
    }
    case 'x' => PrintNum(b, Unsigned(args, k, sp.lflag), 16, sp.width, sp.padc);
    case _ => {
      b.Putch('%');
      k' := k;
    }
  }

  /** The digits of a width or precision. */
  method ScanNumber(fmt: string, start: nat) returns (v: nat, i: nat)
    requires start <= |fmt|
    ensures (v, i) == ReadNumber(fmt, start, 0)
  {
    v, i := 0, start;
    while i < |fmt| && IsDigit(fmt[i])
      invariant start <= i <= |fmt| && ReadNumber(fmt, start, 0) == ReadNumber(fmt, i, v)
    {
      v, i := v * 10 + (fmt[i] - '0') as nat, i + 1;
    }
  }

  /** The switch on flag characters, which goes round until another character comes. */
  method ScanFlags(fmt: string, args: seq<Arg>, start: nat, used: nat) returns (sp: Spec, i: nat, k: nat)
    requires start <= |fmt|
    ensures (sp, i, k) == Flags(fmt, args, start, used, PLAIN)
  {
    hide ReadNumber;
    sp, i, k := PLAIN, start, used;
    var scanning := true;
    while scanning
      invariant start <= i <= |fmt| && Flags(fmt, args, start, used, PLAIN) == Flags(fmt, args, i, k, sp)
      invariant !scanning ==> Flags(fmt, args, i, k, sp) == (sp, i, k)
      decreases |fmt| - i, scanning
    {
      if i == |fmt| {
        scanning := false;
      } else if fmt[i] == '-' {
        i, sp := i + 1, sp.(padc := '-');
      } else if fmt[i] == '0' {
        i, sp := i + 1, sp.(padc := '0');
      } else if IsDigit(fmt[i]) {
        var v, j := ScanNumber(fmt, i);
        i, sp := j, Sized(sp, v);
      } else if fmt[i] == '*' {
        i, k, sp := i + 1, k + 1, Sized(sp, Signed(Bits(args, k)));
      } else if fmt[i] == '.' {
        i, sp := i + 1, if sp.width < 0 then sp.(width := 0) else sp;
      } else if fmt[i] == '#' {
        i, sp := i + 1, sp.(alt := true);
      } else if fmt[i] == 'l' {
        i, sp := i + 1, sp.(lflag := sp.lflag + 1);
      } else {
        scanning := false;
      }
    }
  }

  /** Step back to just after the '%' that began the escape. */
  method StepBack(fmt: string, start: nat, end: nat) returns (i: nat)
    requires 0 < start <= end <= |fmt| && fmt[start - 1] == '%'
    requires forall j :: start <= j < end ==> fmt[j] != '%'
    ensures i == start
  {
    i := end;
    while fmt[i - 1] != '%'
      invariant start <= i <= end
      decreases i
    {
      i := i - 1;
    }
  }

  method Vprintfmt(b: SprintBuf, messages: Messages, fmt: string, args: seq<Arg>)
    requires b.Valid() && Divides(messages, fmt, args, 0, 0)
    modifies b, b.str
    ensures b.Valid() && b.Beyond() && b.out == old(b.out) + Expand(messages, fmt, args, 0, 0)
  {
    hide SprintBuf.Valid, Flags, Convert, Known, Expand, Divides, Divisible;
    ExpandEnd(messages, fmt, args);
    var i, k := 0, 0;
    while i < |fmt|
      invariant i <= |fmt| && b.Valid() && b.Beyond() && Divides(messages, fmt, args, i, k)
      invariant b.out + Expand(messages, fmt, args, i, k) == old(b.out) + Expand(messages, fmt, args, 0, 0)
    {
      DividesStep(messages, fmt, args, i, k);
      if fmt[i] != '%' {
        ExpandChar(messages, fmt, args, i, k);
        b.Putch(fmt[i]);
        i := i + 1;
      } else {
        ExpandKnown(messages, fmt, args, i, k);
        ExpandUnknown(messages, fmt, args, i, k);
        var sp, j, k1 := ScanFlags(fmt, args, i + 1, k);
        if j < |fmt| && Known(fmt[j]) {
          k := PutConversion(b, messages, args, sp, fmt[j], k1);
          i := j + 1;
        } else {
          b.Putch('%');
          i := StepBack(fmt, i + 1, j);
          k := k1;
        }
      }
    }
  }

  /** The buffer holds the first characters of the text, as many as fit before the zero, then the
    * zero; nothing behind it is written; the count is that of the whole text, as far as an int goes.
    */
  method Vsnprintf(str: array?<char>, size: nat, messages: Messages, fmt: string, args: seq<Arg>) returns (cnt: int)
    requires (str != null ==> size <= str.Length) && Divides(messages, fmt, args, 0, 0)
    modifies if str == null then {} else {str}
    ensures str == null || size == 0 ==> cnt == -3 && (str != null ==> str[..] == old(str[..]))
    ensures str != null && size > 0 ==>
              var text := Expand(messages, fmt, args, 0, 0);
              var kept := Min(|text|, size - 1);
              && cnt == Counted(|text|) && (cnt == |text| <==> |text| < 0x8000_0000)
              && str[..] == text[..kept] + ['\0'] + old(str[kept + 1..])
  {
    hide Expand, Divides, Counted;
    if str == null || size == 0 {
      return -E_INVAL;
    }
    var b := new SprintBuf(str, size);
    Vprintfmt(b, messages, fmt, args);
    ghost var text := Expand(messages, fmt, args, 0, 0);
    CountedIs(|text|);
    assert str[..b.buf] == text[..b.buf];
    str[b.buf] := '\0';
    cnt := b.cnt;
    assert str[b.buf + 1..] == old(str[..])[b.buf + 1..];
    assert str[..] == str[..b.buf] + [str[b.buf]] + str[b.buf + 1..];
  }

  /** Two numbers of the greatest width: the count comes out as -2. */
  lemma CountOverflows(messages: Messages)
    ensures var text := Expand(messages, "%*d%*d", [Word(0x7fff_ffff), Word(1), Word(0x7fff_ffff), Word(1)], 0, 0);
            |text| == 0xffff_fffe && Counted(|text|) == -2
  {
    hide NumberText, Expand;
    var fmt, args := "%*d%*d", [Word(0x7fff_ffff), Word(1), Word(0x7fff_ffff), Word(1)];
    var sp := PLAIN.(width := 0x7fff_ffff);
    NumberLength(1, 10, 0x7fff_ffff, ' ');
    assert Flags(fmt, args, 2, 1, sp) == (sp, 2, 1) && Flags(fmt, args, 5, 3, sp) == (sp, 5, 3);
    ExpandKnown(messages, fmt, args, 0, 0);
    ExpandKnown(messages, fmt, args, 3, 2);
    ExpandEnd(messages, fmt, args);
  }
}
