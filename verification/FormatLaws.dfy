/**
  What vprintfmt (lab8/libs/printfmt.c) prints for every conversion behind any flags, widths and precisions, said
  without the functions that compute it: numbers come out as their numeral, strings cut and padded, and the rest of
  the format and of the arguments is left for what follows.
 */
module FormatLaws {
  import opened ShiftDivision
  import opened FormatText
  import opened ParseText
  import opened Numerals

  /** A width or precision: not there, written out, or an argument behind a star. */
  datatype Field = Absent | Literal(n: nat) | Starred(v: int)

  /** What stands between '%' and the conversion character. */
  datatype Directive =
    Directive(alt: bool, minus: bool, zero: bool, width: Field, precision: Field, longs: nat)

  /** A field that begins with '0' would be read as a flag, and a star takes an int. */
  predicate ProperField(f: Field) {
    match f
    case Absent => true
    case Literal(n) => n > 0
    case Starred(v) => -0x8000_0000 <= v < 0x8000_0000
  }

  predicate Proper(d: Directive) {
    ProperField(d.width) && ProperField(d.precision)
  }

  // ---------- a directive as text, and the arguments its stars take ----------

  function FieldText(f: Field): string {
    match f
    case Absent => ""
    case Literal(n) => Digits(n, 10)
    case Starred(_) => "*"
  }

  function Longs(n: nat, rest: string): string {
    if n == 0 then rest else "l" + Longs(n - 1, rest)
  }

  function FromPrecision(d: Directive, rest: string): string {
    if d.precision.Absent? then Longs(d.longs, rest) else "." + (FieldText(d.precision) + Longs(d.longs, rest))
  }

  function FromWidth(d: Directive, rest: string): string {
    FieldText(d.width) + FromPrecision(d, rest)
  }

  function Flag(set_: bool, c: char, rest: string): string {
    if set_ then [c] + rest else rest
  }

  /** The directive with `rest` behind it. */
  function Render(d: Directive, rest: string): string {
    Flag(d.alt, '#', Flag(d.minus, '-', Flag(d.zero, '0', FromWidth(d, rest))))
  }

  function FieldArgs(f: Field, more: seq<Arg>): seq<Arg> {
    if f.Starred? then [Word(f.v % WORD)] + more else more
  }

  function Args(d: Directive, more: seq<Arg>): seq<Arg> {
    FieldArgs(d.width, FieldArgs(d.precision, more))
  }

  // ---------- what it asks for ----------

  function FieldValue(f: Field): int {
    match f
    case Absent => -1
    case Literal(n) => n
    case Starred(v) => v
  }

  function PadOf(d: Directive): char {
    if d.zero then '0' else if d.minus then '-' else ' '
  }

  function Max(a: int, b: int): int {
    if a < b then b else a
  }

  /** A numeral of `n`, padded in front to the width. */
  ghost predicate Padded(d: Directive, text: string, n: nat, base: nat) {
    exists p | 0 <= p <= |text| ::
      && Numeral(text[p..], n, base) && |text| == Max(FieldValue(d.width), |text| - p)
      && forall x | 0 <= x < p :: text[x] == PadOf(d)
  }

  ghost predicate PaddedInteger(d: Directive, text: string, v: int) {
    if v < 0 then text != "" && text[0] == '-' && Padded(d, text[1..], -v, 10) else Padded(d, text, v, 10)
  }

  /** What '#' makes of the characters of a string. */
  predicate ShownAs(d: Directive, s: string, shown: string) {
    |shown| == |s| && forall x | 0 <= x < |s| :: shown[x] == if d.alt && !(' ' <= s[x] <= '~') then '?' else s[x]
  }

  predicate All(s: string, c: char) {
    forall x | 0 <= x < |s| :: s[x] == c
  }

  function CutAt(d: Directive, s: string): (n: nat)
    ensures n <= |s|
  {
    if 0 <= FieldValue(d.precision) < |s| then FieldValue(d.precision) else |s|
  }

  /** The first characters of `s`, as many as the precision lets through, at the right end behind the padding, or
    * at the left end in front of blanks.
    */
  predicate CutAndPadded(d: Directive, text: string, s: string) {
    var n := CutAt(d, s);
    && |text| == Max(FieldValue(d.width), n)
    && if PadOf(d) == '-' then ShownAs(d, s[..n], text[..n]) && All(text[n..], ' ')
       else ShownAs(d, s[..n], text[|text| - n..]) && All(text[..|text| - n], PadOf(d))
  }

  /** The arguments that a conversion takes: a long long behind two 'l'. */
  predicate Fits(c: char, longs: nat, arg: Arg) {
    match c
    case 's' => arg.Text? || arg.NoText?
    case 'd' | 'u' | 'o' | 'x' => if longs >= 2 then arg.Long? && arg.bits < DOUBLE else arg.Word? && arg.bits < WORD
    case _ => c in ['c', 'e', 'p'] && arg.Word? && arg.bits < WORD
  }

  /** The bits of an argument as an integer with sign. */
  function TwosComplement(arg: Arg): int
    requires arg.Word? || arg.Long?
  {
    var modulus := if arg.Long? then DOUBLE else WORD;
    if 2 * arg.bits < modulus then arg.bits else arg.bits - modulus
  }

  ghost predicate Means(messages: Messages, d: Directive, c: char, arg: Arg, text: string)
    requires Fits(c, d.longs, arg)
  {
    match c
    case 'c' => text == [(arg.bits % 256) as char]
    case 's' => CutAndPadded(d, text, if arg.Text? then arg.text else "(null)")
    case 'd' => PaddedInteger(d, text, TwosComplement(arg))
    case 'u' => Padded(d, text, arg.bits, 10)
    case 'o' => Padded(d, text, arg.bits, 8)
    case 'x' => Padded(d, text, arg.bits, 16)
    case 'p' => "0x" <= text && Padded(d, text[2..], arg.bits, 16)
    case _ =>
      var v := TwosComplement(arg);
      var err := if v == -0x8000_0000 || v >= 0 then v else -v;
      if err in messages then text == messages[err]
      else "error " <= text && PaddedInteger(Directive(false, false, false, Absent, Absent, 0), text[6..], err)
  }

  // ---------- a format is read from where it stands ----------

  lemma {:induction false} ReadNumberShift(p: string, fmt: string, i: nat, acc: nat)
    requires i <= |fmt|
    ensures var (v, j) := ReadNumber(fmt, i, acc); ReadNumber(p + fmt, |p| + i, acc) == (v, |p| + j)
    decreases |fmt| - i
  {
    if i < |fmt| {
      assert (p + fmt)[|p| + i] == fmt[i];
      if IsDigit(fmt[i]) {
        ReadNumberShift(p, fmt, i + 1, acc * 10 + (fmt[i] - '0') as nat);
      }
    }
  }

  lemma ArgShift(q: seq<Arg>, args: seq<Arg>, k: nat)
    ensures Bits(q + args, |q| + k) == Bits(args, k) && Wide(q + args, |q| + k) == Wide(args, k)
    ensures Str(q + args, |q| + k) == Str(args, k)
  {
    assert k < |args| ==> (q + args)[|q| + k] == args[k];
  }

  /** The settings after one flag character. */
  function Flagged(sp: Spec, c: char): Spec {
    match c
    case '-' => sp.(padc := '-')
    case '0' => sp.(padc := '0')
    case '.' => sp.(width := if sp.width < 0 then 0 else sp.width)
    case '#' => sp.(alt := true)
    case _ => sp.(lflag := sp.lflag + 1)
  }

  /** One turn of the switch on flags: where it goes on, or that it ends. */
  function Turn(fmt: string, args: seq<Arg>, i: nat, k: nat, sp: Spec): (r: (Spec, nat, nat))
    requires i <= |fmt|
    ensures i <= r.1 <= |fmt|
  {
    if i == |fmt| then (sp, i, k)
    else if '1' <= fmt[i] <= '9' then var (v, j) := ReadNumber(fmt, i, 0); (Sized(sp, v), j, k)
    else if fmt[i] == '*' then (Sized(sp, Signed(Bits(args, k))), i + 1, k + 1)
    else if fmt[i] in "-0.#l" then (Flagged(sp, fmt[i]), i + 1, k)
    else (sp, i, k)
  }

  lemma FlagsTurn(fmt: string, args: seq<Arg>, i: nat, k: nat, sp: Spec)
    requires i <= |fmt|
    ensures var (sp', j, k') := Turn(fmt, args, i, k, sp);
      Flags(fmt, args, i, k, sp) == if j == i then (sp, i, k) else Flags(fmt, args, j, k', sp')
  {
    hide ReadNumber;
  }

  lemma TurnShift(p: string, fmt: string, q: seq<Arg>, args: seq<Arg>, i: nat, k: nat, sp: Spec)
    requires i <= |fmt|
    ensures var (sp', j, k') := Turn(fmt, args, i, k, sp);
      Turn(p + fmt, q + args, |p| + i, |q| + k, sp) == (sp', |p| + j, |q| + k')
  {
    hide ReadNumber;
    if i < |fmt| {
      assert (p + fmt)[|p| + i] == fmt[i];
      ArgShift(q, args, k);
      ReadNumberShift(p, fmt, i, 0);
    }
  }

  lemma {:induction false} FlagsShift(p: string, fmt: string, q: seq<Arg>, args: seq<Arg>, i: nat, k: nat, sp: Spec)
    requires i <= |fmt|
    ensures var (sp', j, k') := Flags(fmt, args, i, k, sp);
      Flags(p + fmt, q + args, |p| + i, |q| + k, sp) == (sp', |p| + j, |q| + k')
    decreases |fmt| - i
  {
    hide Flags, Turn;
    FlagsTurn(fmt, args, i, k, sp);
    FlagsTurn(p + fmt, q + args, |p| + i, |q| + k, sp);
    TurnShift(p, fmt, q, args, i, k, sp);
    var (sp', j, k') := Turn(fmt, args, i, k, sp);
    if j != i {
      FlagsShift(p, fmt, q, args, j, k', sp');
    }
  }

  lemma ConvertShift(messages: Messages, q: seq<Arg>, args: seq<Arg>, sp: Spec, c: char, k: nat)
    requires Known(c)
    ensures var (text, k') := Convert(messages, args, sp, c, k);
      Convert(messages, q + args, sp, c, |q| + k) == (text, |q| + k')
  {
    hide NumberText, DecimalText, StringText, ErrorText;
    ArgShift(q, args, k);
  }

  /** What is printed from a place in the format on depends on the rest of the format and of the arguments alone. */
  lemma {:induction false} ExpandShift(messages: Messages, p: string, fmt: string, q: seq<Arg>, args: seq<Arg>,
                                       i: nat, k: nat)
    requires i <= |fmt|
    ensures Expand(messages, p + fmt, q + args, |p| + i, |q| + k) == Expand(messages, fmt, args, i, k)
    decreases |fmt| - i
  {
    hide Expand, Flags, Convert, Known;
    var all, given := p + fmt, q + args;
    if i == |fmt| {
      ExpandEnd(messages, fmt, args);
      ExpandEnd(messages, all, given);
      assert |all| == |p| + i;
    } else {
      assert all[|p| + i] == fmt[i];
      if fmt[i] != '%' {
        ExpandChar(messages, fmt, args, i, k);
        ExpandChar(messages, all, given, |p| + i, |q| + k);
        ExpandShift(messages, p, fmt, q, args, i + 1, k);
      } else {
        var (sp, j, k1) := Flags(fmt, args, i + 1, k, PLAIN);
        FlagsShift(p, fmt, q, args, i + 1, k, PLAIN);
        assert j < |fmt| ==> all[|p| + j] == fmt[j];
        if j < |fmt| && Known(fmt[j]) {
          ExpandKnown(messages, fmt, args, i, k);
          ExpandKnown(messages, all, given, |p| + i, |q| + k);
          ConvertShift(messages, q, args, sp, fmt[j], k1);
          ExpandShift(messages, p, fmt, q, args, j + 1, Convert(messages, args, sp, fmt[j], k1).1);
        } else {
          ExpandUnknown(messages, fmt, args, i, k);
          ExpandUnknown(messages, all, given, |p| + i, |q| + k);
          ExpandShift(messages, p, fmt, q, args, i + 1, k1);
        }
      }
    }
  }

  // ---------- the flags are read as they are written ----------

  predicate FlagChar(c: char) {
    c in "-*.#l" || '0' <= c <= '9'
  }

  /** The flags of `fmt` turn `sp` into `end`, and leave `tail` of the text and `more` of the arguments. */
  ghost predicate FlagsAre(fmt: string, args: seq<Arg>, sp: Spec, end: Spec, tail: string, more: seq<Arg>) {
    && |tail| <= |fmt| && |more| <= |args| && fmt[|fmt| - |tail|..] == tail && args[|args| - |more|..] == more
    && Flags(fmt, args, 0, 0, sp) == (end, |fmt| - |tail|, |args| - |more|)
  }

  lemma TailHere(tail: string, more: seq<Arg>, sp: Spec)
    requires tail != "" && !FlagChar(tail[0])
    ensures FlagsAre(tail, more, sp, sp, tail, more)
  {
  }

  lemma OneFlag(c: char, fmt: string, args: seq<Arg>, sp: Spec, end: Spec, tail: string, more: seq<Arg>)
    requires c in "-0.#l" && FlagsAre(fmt, args, Flagged(sp, c), end, tail, more)
    ensures FlagsAre([c] + fmt, args, sp, end, tail, more)
  {
    var all := [c] + fmt;
    FlagsShift([c], fmt, [], args, 0, 0, Flagged(sp, c));
    assert [] + args == args;
    OneStep(all, args, sp, c);
    hide Flags;
    assert all[|all| - |tail|..] == fmt[|fmt| - |tail|..];
  }

  lemma OneStep(fmt: string, args: seq<Arg>, sp: Spec, c: char)
    requires c in "-0.#l" && fmt != "" && fmt[0] == c
    ensures Flags(fmt, args, 0, 0, sp) == Flags(fmt, args, 1, 0, Flagged(sp, c))
  {
  }

  lemma StarField(v: int, fmt: string, args: seq<Arg>, sp: Spec, end: Spec, tail: string, more: seq<Arg>)
    requires -0x8000_0000 <= v < 0x8000_0000 && FlagsAre(fmt, args, Sized(sp, v), end, tail, more)
    ensures FlagsAre("*" + fmt, [Word(v % WORD)] + args, sp, end, tail, more)
  {
    var all, given := "*" + fmt, [Word(v % WORD)] + args;
    FlagsShift("*", fmt, [Word(v % WORD)], args, 0, 0, Sized(sp, v));
    assert Signed(Bits(given, 0)) == v;
    assert Flags(all, given, 0, 0, sp) == Flags(all, given, 1, 1, Sized(sp, v));
    hide Flags;
    assert all[|all| - |tail|..] == fmt[|fmt| - |tail|..];
    assert given[|given| - |more|..] == args[|args| - |more|..];
  }

  lemma ReadStep(fmt: string, i: nat, acc: nat, d: nat)
    requires i < |fmt| && d < 10 && fmt[i] == Digit(d)
    ensures ReadNumber(fmt, i, acc) == ReadNumber(fmt, i + 1, acc * 10 + d)
  {
    DecimalDigit(d);
  }

  /** A number written out is read as that number. */
  lemma {:induction false} DigitsAreRead(fmt: string, i: nat, j: nat, n: nat)
    requires i <= j <= |fmt| && fmt[i..j] == Digits(n, 10)
    ensures ReadNumber(fmt, i, 0) == ReadNumber(fmt, j, n)
    decreases n
  {
    hide ReadNumber, Digit, Split;
    var t := fmt[i..j];
    var (q, d) := Split(n, 10);
    assert fmt[j - 1] == t[|t| - 1];
    if n < 10 {
      ReadStep(fmt, i, 0, n);
    } else {
      assert fmt[i..j - 1] == t[..|t| - 1];
      DigitsAreRead(fmt, i, j - 1, q);
      ReadStep(fmt, j - 1, q, d);
    }
  }

  lemma DecimalDigit(d: nat)
    requires d < 10
    ensures IsDigit(Digit(d)) && (Digit(d) - '0') as int == d
  {
  }

  lemma {:induction false} DecimalDigits(n: nat, k: nat)
    requires k < |Digits(n, 10)|
    ensures IsDigit(Digits(n, 10)[k])
    decreases n
  {
    DecimalDigit(Split(n, 10).1);
    if n >= 10 && k < |Digits(n, 10)| - 1 {
      DecimalDigits(Split(n, 10).0, k);
    }
  }

  lemma NumberHere(n: nat, fmt: string)
    requires n > 0 && fmt != "" && !IsDigit(fmt[0])
    ensures var t := Digits(n, 10); ReadNumber(t + fmt, 0, 0) == (n, |t|) && IsDigit((t + fmt)[0]) && t[0] != '0'
  {
    var t := Digits(n, 10);
    var all := t + fmt;
    DigitsNumeral(n, 10);
    DecimalDigits(n, 0);
    assert all[0] == t[0] && all[0..|t|] == t && all[|t|] == fmt[0];
    hide Digits;
    DigitsAreRead(all, 0, |t|, n);
  }

  lemma NumberField(n: nat, fmt: string, args: seq<Arg>, sp: Spec, end: Spec, tail: string, more: seq<Arg>)
    requires n > 0 && FlagsAre(fmt, args, Sized(sp, n), end, tail, more) && fmt != "" && !IsDigit(fmt[0])
    ensures FlagsAre(Digits(n, 10) + fmt, args, sp, end, tail, more)
  {
    hide ReadNumber, Digits, Flags, IsDigit;
    var t := Digits(n, 10);
    var all := t + fmt;
    NumberHere(n, fmt);
    FlagsShift(t, fmt, [], args, 0, 0, Sized(sp, n));
    assert [] + args == args;
    assert all[0] == t[0];
    NumberStep(all, args, sp);
    assert all[|all| - |tail|..] == fmt[|fmt| - |tail|..];
  }

  lemma NumberStep(fmt: string, args: seq<Arg>, sp: Spec)
    requires fmt != "" && IsDigit(fmt[0]) && fmt[0] != '0'
    ensures var (v, j) := ReadNumber(fmt, 0, 0); Flags(fmt, args, 0, 0, sp) == Flags(fmt, args, j, 0, Sized(sp, v))
  {
    hide ReadNumber;
  }

  lemma OneField(f: Field, fmt: string, args: seq<Arg>, sp: Spec, end: Spec, tail: string, more: seq<Arg>)
    requires ProperField(f) && !f.Absent? && FlagsAre(fmt, args, Sized(sp, FieldValue(f)), end, tail, more)
    requires fmt != "" && !IsDigit(fmt[0])
    ensures FlagsAre(FieldText(f) + fmt, FieldArgs(f, args), sp, end, tail, more)
  {
    hide FlagsAre, Digits;
    match f
    case Literal(n) => NumberField(n, fmt, args, sp, end, tail, more);
    case Starred(v) => StarField(v, fmt, args, sp, end, tail, more);
  }

  // ---------- a whole directive ----------

  /** The settings that a directive stands for. */
  function SpecOf(d: Directive): Spec {
    var width := FieldValue(d.width);
    Spec(PadOf(d), if d.precision.Absent? then width else Max(width, 0), FieldValue(d.precision), d.longs, d.alt)
  }

  lemma {:induction false} LongsRead(n: nat, sp: Spec, tail: string, more: seq<Arg>)
    requires tail != "" && !FlagChar(tail[0])
    ensures FlagsAre(Longs(n, tail), more, sp, sp.(lflag := sp.lflag + n), tail, more)
    ensures Longs(n, tail) != "" && !IsDigit(Longs(n, tail)[0])
  {
    hide FlagsAre;
    if n == 0 {
      TailHere(tail, more, sp);
    } else {
      LongsRead(n - 1, sp.(lflag := sp.lflag + 1), tail, more);
      OneFlag('l', Longs(n - 1, tail), more, sp, sp.(lflag := sp.lflag + n), tail, more);
    }
  }

  lemma PrecisionRead(d: Directive, sp: Spec, tail: string, more: seq<Arg>)
    requires Proper(d) && tail != "" && !FlagChar(tail[0])
    ensures var end := if d.precision.Absent? then sp
                       else sp.(width := Max(sp.width, 0), precision := FieldValue(d.precision));
      FlagsAre(FromPrecision(d, tail), FieldArgs(d.precision, more), sp, end.(lflag := sp.lflag + d.longs), tail, more)
    ensures FromPrecision(d, tail) != "" && !IsDigit(FromPrecision(d, tail)[0])
  {
    hide FlagsAre, Longs;
    if d.precision.Absent? {
      LongsRead(d.longs, sp, tail, more);
    } else {
      var sp1 := sp.(width := Max(sp.width, 0));
      var sp2 := sp1.(precision := FieldValue(d.precision));
      var end := sp2.(lflag := sp.lflag + d.longs);
      var after := Longs(d.longs, tail);
      LongsRead(d.longs, sp2, tail, more);
      OneField(d.precision, after, more, sp1, end, tail, more);
      OneFlag('.', FieldText(d.precision) + after, FieldArgs(d.precision, more), sp, end, tail, more);
    }
  }

  lemma WidthRead(d: Directive, sp: Spec, tail: string, more: seq<Arg>)
    requires Proper(d) && tail != "" && !FlagChar(tail[0]) && sp.width == sp.precision == -1
    ensures FlagsAre(FromWidth(d, tail), Args(d, more), sp,
                     SpecOf(d).(padc := sp.padc, alt := sp.alt, lflag := sp.lflag + d.longs), tail, more)
  {
    hide FlagsAre, FromPrecision, FieldText;
    if d.width.Absent? {
      PrecisionRead(d, sp, tail, more);
      assert FromWidth(d, tail) == FromPrecision(d, tail) by { NoText(d.width); }
    } else {
      var sp1 := Sized(sp, FieldValue(d.width));
      PrecisionRead(d, sp1, tail, more);
      OneField(d.width, FromPrecision(d, tail), FieldArgs(d.precision, more), sp,
               SpecOf(d).(padc := sp.padc, alt := sp.alt, lflag := sp.lflag + d.longs), tail, more);
    }
  }

  lemma NoText(f: Field)
    requires f.Absent?
    ensures FieldText(f) == ""
  {
  }

  lemma MaybeFlag(set_: bool, c: char, fmt: string, args: seq<Arg>, sp: Spec, end: Spec, tail: string, more: seq<Arg>)
    requires c in "-0#" && FlagsAre(fmt, args, if set_ then Flagged(sp, c) else sp, end, tail, more)
    ensures FlagsAre(Flag(set_, c, fmt), args, sp, end, tail, more)
  {
    hide FlagsAre;
    if set_ {
      OneFlag(c, fmt, args, sp, end, tail, more);
    }
  }

  /** Flags, width, precision and 'l's are read as they were written, up to the conversion character. */
  lemma DirectiveRead(d: Directive, tail: string, more: seq<Arg>)
    requires Proper(d) && tail != "" && !FlagChar(tail[0])
    ensures FlagsAre(Render(d, tail), Args(d, more), PLAIN, SpecOf(d), tail, more)
  {
    hide FlagsAre, FromWidth, Args;
    var sp1 := if d.alt then Flagged(PLAIN, '#') else PLAIN;
    var sp2 := if d.minus then Flagged(sp1, '-') else sp1;
    var sp3 := if d.zero then Flagged(sp2, '0') else sp2;
    WidthRead(d, sp3, tail, more);
    var t := FromWidth(d, tail);
    MaybeFlag(d.zero, '0', t, Args(d, more), sp2, SpecOf(d), tail, more);
    MaybeFlag(d.minus, '-', Flag(d.zero, '0', t), Args(d, more), sp1, SpecOf(d), tail, more);
    MaybeFlag(d.alt, '#', Flag(d.minus, '-', Flag(d.zero, '0', t)), Args(d, more), PLAIN, SpecOf(d), tail, more);
  }

  function Uses(c: char): nat {
    if c == '%' then 0 else 1
  }

  lemma EndsWith<T>(s: seq<T>, tail: seq<T>, n: nat)
    requires n == |s| - |tail| && s[n..] == tail
    ensures s == s[..n] + tail
  {
  }

  lemma FlagsTail(fmt: string, args: seq<Arg>, sp: Spec, end: Spec, tail: string, more: seq<Arg>)
    requires FlagsAre(fmt, args, sp, end, tail, more)
    ensures |tail| <= |fmt| && |more| <= |args| && fmt[|fmt| - |tail|..] == tail && args[|args| - |more|..] == more
    ensures Flags(fmt, args, 0, 0, sp) == (end, |fmt| - |tail|, |args| - |more|)
    ensures ("%" + fmt)[1 + |fmt| - |tail|..] == tail
  {
    hide Flags;
    var s := "%" + fmt;
    assert s[1..] == fmt;
    assert s[1 + |fmt| - |tail|..] == fmt[|fmt| - |tail|..];
  }

  lemma FlagsBehindPercent(flags: string, args: seq<Arg>, sp: Spec, tail: string, given: seq<Arg>, j: int, k: int)
    requires FlagsAre(flags, args, PLAIN, sp, tail, given) && j == 1 + |flags| - |tail| && k == |args| - |given|
    ensures 1 <= j && 0 <= k && Flags("%" + flags, args, 1, 0, PLAIN) == (sp, j, k)
  {
    hide Flags, FlagsAre;
    FlagsTail(flags, args, PLAIN, sp, tail, given);
    FlagsShift("%", flags, [], args, 0, 0, PLAIN);
    assert [] + args == args;
  }

  lemma ConvertUses(messages: Messages, args: seq<Arg>, sp: Spec, c: char, k: nat)
    requires Known(c)
    ensures Convert(messages, args, sp, c, k).1 == k + Uses(c) && !FlagChar(c)
  {
    hide NumberText, DecimalText, StringText, ErrorText;
  }

  lemma FlagsExpand(messages: Messages, flags: string, args: seq<Arg>, sp: Spec, c: char, rest: string, given: seq<Arg>)
    requires FlagsAre(flags, args, PLAIN, sp, [c] + rest, given) && Known(c) && Uses(c) <= |given|
    ensures Expand(messages, "%" + flags, args, 0, 0)
            == Convert(messages, given, sp, c, 0).0 + Expand(messages, rest, given[Uses(c)..], 0, 0)
  {
    hide Expand, Flags, FlagsAre, Convert, Known, FlagChar, Uses;
    var tail := [c] + rest;
    var fmt := "%" + flags;
    var j, k := |fmt| - |tail|, |args| - |given|;
    ConvertUses(messages, given, sp, c, 0);
    FlagsBehindPercent(flags, args, sp, tail, given, j, k);
    FlagsTail(flags, args, PLAIN, sp, tail, given);
    EndsWith(fmt, tail, j);
    EndsWith(args, given, k);
    assert fmt[j] == c && fmt[0] == '%';
    ExpandKnown(messages, fmt, args, 0, 0);
    ConvertShift(messages, args[..k], given, sp, c, 0);
    assert fmt == fmt[..j + 1] + rest && args == args[..k + Uses(c)] + given[Uses(c)..];
    ExpandShift(messages, fmt[..j + 1], rest, args[..k + Uses(c)], given[Uses(c)..], 0, 0);
  }

  /** A directive is done with where its conversion character stands; the rest is printed from the arguments left. */
  lemma DirectiveExpands(messages: Messages, d: Directive, c: char, rest: string, given: seq<Arg>)
    requires Proper(d) && Known(c) && Uses(c) <= |given|
    ensures Expand(messages, "%" + Render(d, [c] + rest), Args(d, given), 0, 0)
            == Convert(messages, given, SpecOf(d), c, 0).0 + Expand(messages, rest, given[Uses(c)..], 0, 0)
  {
    hide Expand, FlagsAre, Convert, Known, SpecOf, Render, Args, FlagChar, Uses;
    ConvertUses(messages, given, SpecOf(d), c, 0);
    DirectiveRead(d, [c] + rest, given);
    FlagsExpand(messages, Render(d, [c] + rest), Args(d, given), SpecOf(d), c, rest, given);
  }

  // ---------- what each conversion prints ----------

  lemma NumberMeans(d: Directive, n: nat, base: nat, width: int)
    requires Base(base) && Max(width, 0) == Max(FieldValue(d.width), 0)
    ensures Padded(d, NumberText(n, base, width, PadOf(d)), n, base)
  {
    hide Numeral, Digits;
    DigitsNumeral(n, base);
    var text, digits := NumberText(n, base, width, PadOf(d)), Digits(n, base);
    var p := |text| - |digits|;
    assert text[p..] == digits;
  }

  lemma IntegerMeans(d: Directive, v: int, width: int)
    requires Max(width, 0) == Max(FieldValue(d.width), 0)
    ensures PaddedInteger(d, DecimalText(v, width, PadOf(d)), v)
  {
    hide NumberText, Padded;
    NumberMeans(d, if v < 0 then -v else v, 10, width);
    if v < 0 {
      var t := NumberText(-v, 10, width, PadOf(d));
      assert ("-" + t)[1..] == t;
    }
  }

  lemma ShownMeans(d: Directive, s: string)
    ensures ShownAs(d, s, Shown(d.alt, s))
  {
  }

  lemma StringLaid(d: Directive, s: string)
    ensures var shown, gap := Shown(d.alt, s[..CutAt(d, s)]), FieldValue(d.width) - CutAt(d, s);
      StringText(s, SpecOf(d)) == if PadOf(d) == '-' then shown + Repeat(' ', gap) else Repeat(PadOf(d), gap) + shown
  {
    hide Shown, Repeat;
    var w := SpecOf(d).width - CutAt(d, s);
    NoPadding(PadOf(d), w);
    NoPadding(' ', w);
    NoPadding(PadOf(d), FieldValue(d.width) - CutAt(d, s));
    NoPadding(' ', FieldValue(d.width) - CutAt(d, s));
    assert s[..|s|] == s;
  }

  lemma StringMeans(d: Directive, s: string)
    ensures CutAndPadded(d, StringText(s, SpecOf(d)), s)
  {
    hide Shown, ShownAs, Repeat, StringText, SpecOf, PadOf, FieldValue;
    var n := CutAt(d, s);
    var shown, text := Shown(d.alt, s[..n]), StringText(s, SpecOf(d));
    StringLaid(d, s);
    ShownMeans(d, s[..n]);
    if PadOf(d) == '-' {
      assert text[..n] == shown && text[n..] == Repeat(' ', FieldValue(d.width) - n);
    } else {
      assert text[|text| - n..] == shown && text[..|text| - n] == Repeat(PadOf(d), FieldValue(d.width) - n);
    }
  }

  lemma NoPadding(c: char, n: int)
    ensures n <= 0 ==> Repeat(c, n) == ""
  {
  }

  lemma ErrorMeans(messages: Messages, v: int)
    requires -0x8000_0000 <= v < 0x8000_0000
    ensures var text := ErrorText(messages, v);
      var err := if v == -0x8000_0000 || v >= 0 then v else -v;
      if err in messages then text == messages[err]
      else "error " <= text && PaddedInteger(Directive(false, false, false, Absent, Absent, 0), text[6..], err)
  {
    hide DecimalText, PaddedInteger;
    var err := if v == -0x8000_0000 || v >= 0 then v else -v;
    IntegerMeans(Directive(false, false, false, Absent, Absent, 0), err, -1);
    var t := DecimalText(err, -1, ' ');
    assert ("error " + t)[6..] == t;
  }

  lemma WidthOf(d: Directive)
    ensures Max(SpecOf(d).width, 0) == Max(FieldValue(d.width), 0) && SpecOf(d).padc == PadOf(d)
    ensures SpecOf(d).lflag == d.longs
  {
  }

  lemma ConvertMeans(messages: Messages, d: Directive, c: char, arg: Arg, more: seq<Arg>)
    requires Fits(c, d.longs, arg)
    ensures Known(c) && Uses(c) == 1
    ensures Means(messages, d, c, arg, Convert(messages, [arg] + more, SpecOf(d), c, 0).0)
  {
    hide NumberText, DecimalText, StringText, ErrorText, Padded, PaddedInteger, CutAndPadded, SpecOf;
    var sp, args := SpecOf(d), [arg] + more;
    WidthOf(d);
    match c
    case 'c' =>
    case 's' => StringMeans(d, Str(args, 0));
    case 'd' => IntegerMeans(d, Number(args, 0, sp.lflag), sp.width);
    case 'u' => NumberMeans(d, Unsigned(args, 0, sp.lflag), 10, sp.width);
    case 'o' => NumberMeans(d, Unsigned(args, 0, sp.lflag), 8, sp.width);
    case 'x' => NumberMeans(d, Unsigned(args, 0, sp.lflag), 16, sp.width);
    case 'p' =>
      NumberMeans(d, arg.bits, 16, sp.width);
      var t := NumberText(arg.bits, 16, sp.width, sp.padc);
      assert ("0x" + t)[2..] == t;
    case 'e' => ErrorMeans(messages, TwosComplement(arg));
  }

  /** Every conversion, behind any flags, width and precision, prints what it is to mean, and leaves the rest of the
    * format and of the arguments for the rest of the text.
    */
  lemma ConversionPrints(messages: Messages, d: Directive, c: char, arg: Arg, rest: string, more: seq<Arg>)
    returns (text: string)
    requires Proper(d) && Fits(c, d.longs, arg)
    ensures Expand(messages, "%" + Render(d, [c] + rest), Args(d, [arg] + more), 0, 0)
            == text + Expand(messages, rest, more, 0, 0)
    ensures Means(messages, d, c, arg, text)
  {
    hide Expand, Convert, SpecOf, Render, Args, Means, Fits, Known;
    ConvertMeans(messages, d, c, arg, more);
    DirectiveExpands(messages, d, c, rest, [arg] + more);
    assert ([arg] + more)[1..] == more;
    text := Convert(messages, [arg] + more, SpecOf(d), c, 0).0;
  }

  /** "%%", with whatever flags, is one percent sign and takes no argument but those of stars. */
  lemma PercentPrints(messages: Messages, d: Directive, rest: string, more: seq<Arg>)
    requires Proper(d)
    ensures Expand(messages, "%" + Render(d, "%" + rest), Args(d, more), 0, 0)
            == "%" + Expand(messages, rest, more, 0, 0)
  {
    hide Expand, SpecOf, Render, Args;
    DirectiveExpands(messages, d, '%', rest, more);
    assert more[0..] == more;
  }

  /** Other characters stand for themselves. */
  lemma CharacterPrints(messages: Messages, c: char, rest: string, args: seq<Arg>)
    requires c != '%'
    ensures Expand(messages, [c] + rest, args, 0, 0) == [c] + Expand(messages, rest, args, 0, 0)
  {
    hide Expand;
    ExpandChar(messages, [c] + rest, args, 0, 0);
    ExpandShift(messages, [c], rest, [], args, 0, 0);
    assert [] + args == args;
  }

  // ---------- and reads back ----------

  function BaseOf(c: char): nat {
    if c == 'o' then 8 else if c == 'x' || c == 'p' then 16 else 10
  }

  lemma PaddedIs(d: Directive, text: string, n: nat, base: nat)
    requires Base(base) && Padded(d, text, n, base)
    ensures text == NumberText(n, base, FieldValue(d.width), PadOf(d))
  {
    hide Numeral, Digits;
    var p :| 0 <= p <= |text| && Numeral(text[p..], n, base) && |text| == Max(FieldValue(d.width), |text| - p)
      && forall x | 0 <= x < p :: text[x] == PadOf(d);
    DigitsNumeral(n, base);
    NumeralUnique(text[p..], Digits(n, base), n, base);
    assert text[..p] == Repeat(PadOf(d), p);
    assert text == text[..p] + text[p..];
    RepeatNone(PadOf(d), FieldValue(d.width) - |Digits(n, base)|);
  }

  lemma RepeatNone(c: char, n: int)
    ensures n <= 0 ==> Repeat(c, n) == Repeat(c, 0)
  {
  }

  /** How many characters the numeral of the argument takes. */
  function Places(c: char, arg: Arg): nat
    requires arg.Word?
  {
    var v := TwosComplement(arg);
    |Digits(if c == 'd' then if v < 0 then -v else v else arg.bits, BaseOf(c))|
  }

  /** What %d, %u, %o and %x print of a 32-bit argument, strtol reads back in that base to the end, exactly if the
    * padding is none or zeros, or blanks with no sign behind them; or a single '-' of padding that leaves the number
    * as it is.
    */
  lemma PrintedReadsBack(messages: Messages, d: Directive, c: char, arg: Arg) returns (s: string)
    requires Proper(d) && c in "duox" && d.longs < 2 && Fits(c, d.longs, arg)
    ensures s == Expand(messages, "%" + Render(d, [c]), Args(d, [arg]), 0, 0)
    ensures var v, gap := TwosComplement(arg), FieldValue(d.width) - Places(c, arg);
      ParseLong(s, BaseOf(c)) == (v, |s|)
      <==> gap <= 0 || PadOf(d) == '0' || (PadOf(d) == ' ' && (c != 'd' || v >= 0))
           || (PadOf(d) == '-' && gap == 1 && (v == 0 || (v == -0x8000_0000 && c != 'd')))
  {
    hide Expand, Render, Args, Digits, NumberText, ParseLong, Padded;
    assert [c] + "" == [c] && [arg] + [] == [arg];
    s := ConversionPrints(messages, d, c, arg, "", []);
    ExpandEnd(messages, "", []);
    assert s + "" == s;
    var n := arg.bits;
    if c == 'd' {
      IntegerIs(d, s, TwosComplement(arg));
      DecimalRoundTrip(TwosComplement(arg), FieldValue(d.width), PadOf(d));
      ZeroDigits(0);
    } else {
      PaddedIs(d, s, n, BaseOf(c));
      UnsignedRoundTrip(n, BaseOf(c), FieldValue(d.width), PadOf(d));
      NegatedTwice(n);
    }
  }

  lemma IntegerIs(d: Directive, text: string, v: int)
    requires PaddedInteger(d, text, v)
    ensures text == DecimalText(v, FieldValue(d.width), PadOf(d))
  {
    hide Padded, NumberText;
    if v < 0 {
      PaddedIs(d, text[1..], -v, 10);
      assert text == "-" + text[1..];
    } else {
      PaddedIs(d, text, v, 10);
    }
  }

  lemma NegatedTwice(n: nat)
    requires n < WORD
    ensures Wrap(n) == TwosComplement(Word(n))
    ensures Wrap(-Wrap(n)) == Wrap(n) <==> n == 0 || n == 0x8000_0000
  {
  }

  lemma {:induction false} ZerosWorth(zeros: string, digits: string, base: nat)
    requires base > 0 && All(zeros, '0') && DigitsOf(digits, base)
    ensures DigitsOf(zeros + digits, base) && Value(zeros + digits, base) == Value(digits, base)
    decreases |digits|, |zeros|
  {
    var s := zeros + digits;
    assert DigitValue('0') == 0;
    assert DigitsOf(s, base);
    if digits != "" {
      ZerosWorth(zeros, digits[..|digits| - 1], base);
      assert s[..|s| - 1] == zeros + digits[..|digits| - 1];
    } else if zeros != "" {
      ZerosWorth(zeros[..|zeros| - 1], "", base);
      assert s[..|s| - 1] == zeros[..|zeros| - 1] + "";
    }
  }

  /** What %p prints, strtol reads back in base 16 and in base 0, to the end, exactly if the padding is none or
    * zeros.
    */
  lemma PointerReadsBack(messages: Messages, d: Directive, arg: Arg, base: nat) returns (s: string)
    requires Proper(d) && Fits('p', d.longs, arg) && (base == 0 || base == 16)
    ensures s == Expand(messages, "%" + Render(d, "p"), Args(d, [arg]), 0, 0)
    ensures ParseLong(s, base) == (TwosComplement(arg), |s|)
            <==> FieldValue(d.width) <= Places('p', arg) || PadOf(d) == '0'
  {
    hide Expand, Render, Args, Digits, ParseLong, Padded, Wrap, Value, DigitValue;
    assert ['p'] + "" == "p" && [arg] + [] == [arg];
    s := ConversionPrints(messages, d, 'p', arg, "", []);
    ExpandEnd(messages, "", []);
    assert s + "" == s;
    var t := s[2..];
    assert s == "0x" + t;
    PaddedIs(d, t, arg.bits, 16);
    NegatedTwice(arg.bits);
    var digits := Digits(arg.bits, 16);
    var pad := Repeat(PadOf(d), FieldValue(d.width) - |digits|);
    assert t == pad + digits;
    DigitsNumeral(arg.bits, 16);
    if pad == "" || PadOf(d) == '0' {
      ZerosWorth(pad, digits, 16);
      ReadsWhole("", "", "0x", t, base, 16);
      assert "" + "" + "0x" + t == s;
    } else {
      NoDigit();
      assert t[0] == PadOf(d);
      StrtolReads("", "", "0x", "", t, base, 16);
      assert "" + "" + "0x" + "" + t == s;
    }
  }

  lemma NoDigit()
    ensures DigitValue(' ') < 0 && DigitValue('-') < 0
  {
  }

  // ---------- a precision of 0 ----------

  /** A directive without precision, but with ".0" where the precision would be. */
  function WithDotZero(d: Directive, rest: string): string {
    Flag(d.alt, '#', Flag(d.minus, '-', Flag(d.zero, '0', FieldText(d.width) + ("." + ("0" + Longs(d.longs, rest))))))
  }

  lemma DotZeroRead(d: Directive, tail: string, more: seq<Arg>)
    requires Proper(d) && d.precision.Absent? && tail != "" && !FlagChar(tail[0])
    ensures FlagsAre(WithDotZero(d, tail), Args(d, more), PLAIN, SpecOf(d.(zero := true, precision := Starred(-1))),
                     tail, more)
  {
    hide FlagsAre, Longs, FieldText;
    var sp1 := if d.alt then Flagged(PLAIN, '#') else PLAIN;
    var sp2 := if d.minus then Flagged(sp1, '-') else sp1;
    var sp3 := if d.zero then Flagged(sp2, '0') else sp2;
    var sp4 := if d.width.Absent? then sp3 else Sized(sp3, FieldValue(d.width));
    var end := SpecOf(d.(zero := true, precision := Starred(-1)));
    var longs := Longs(d.longs, tail);
    LongsRead(d.longs, Flagged(Flagged(sp4, '.'), '0'), tail, more);
    OneFlag('0', longs, more, Flagged(sp4, '.'), end, tail, more);
    OneFlag('.', "0" + longs, more, sp4, end, tail, more);
    var t := FieldText(d.width) + ("." + ("0" + longs));
    if d.width.Absent? {
      NoText(d.width);
      assert t == "." + ("0" + longs);
    } else {
      OneField(d.width, "." + ("0" + longs), more, sp3, end, tail, more);
    }
    MaybeFlag(d.zero, '0', t, Args(d, more), sp2, end, tail, more);
    MaybeFlag(d.minus, '-', Flag(d.zero, '0', t), Args(d, more), sp1, end, tail, more);
    MaybeFlag(d.alt, '#', Flag(d.minus, '-', Flag(d.zero, '0', t)), Args(d, more), PLAIN, end, tail, more);
  }

  /** A precision written as 0 is read as the flag: the string is printed whole, padded with zeros in front. Behind a
    * star it cuts the string to nothing, as ConversionPrints says.
    */
  lemma ZeroPrecisionLost(messages: Messages, d: Directive, s: string, rest: string, more: seq<Arg>)
    returns (text: string)
    requires Proper(d) && d.precision.Absent?
    ensures Expand(messages, "%" + WithDotZero(d, "s" + rest), Args(d, [Text(s)] + more), 0, 0)
            == text + Expand(messages, rest, more, 0, 0)
    ensures |text| == Max(FieldValue(d.width), |s|) && ShownAs(d, s, text[|text| - |s|..])
    ensures All(text[..|text| - |s|], '0')
  {
    hide Expand, FlagsAre, StringText, WithDotZero, Args, SpecOf, ShownAs;
    var d' := d.(zero := true, precision := Starred(-1));
    var given := [Text(s)] + more;
    DotZeroRead(d, "s" + rest, given);
    FlagsExpand(messages, WithDotZero(d, "s" + rest), Args(d, given), SpecOf(d'), 's', rest, given);
    assert given[1..] == more;
    text := StringText(s, SpecOf(d'));
    StringMeans(d', s);
    assert s[..|s|] == s;
    ShownSame(d, d', s, text[|text| - |s|..]);
  }

  lemma ShownSame(d: Directive, d': Directive, s: string, shown: string)
    requires d.alt == d'.alt && ShownAs(d', s, shown)
    ensures ShownAs(d, s, shown)
  {
  }
}
