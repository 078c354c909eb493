/** The text a format string and its arguments stand for, as vprintfmt of lab8/libs/printfmt.c
  * produces it: ordinary characters, escapes with flags, and unknown escapes left as they are.
  */
module FormatText {
  import opened ShiftDivision

  /** An argument as it is passed: a 32-bit word, a long long, or a string that may be missing. */
  datatype Arg = Word(bits: nat) | Long(bits: nat) | Text(text: string) | NoText

  datatype Spec = Spec(padc: char, width: int, precision: int, lflag: nat, alt: bool)

  /** Messages for error numbers; numbers outside print as "error n". */
  type Messages = map<int, string>

  /** Reading at the end gives the terminating zero. */
  function At(s: string, i: nat): char
    requires i <= |s|
  {
    if i < |s| then s[i] else '\0'
  }

  function Bits(args: seq<Arg>, k: nat): (w: nat)
    ensures w < WORD
  {
    if k < |args| && args[k].Word? then args[k].bits % WORD else 0
  }

  function Signed(w: nat): (v: int)
    requires w < WORD
    ensures -0x8000_0000 <= v < 0x8000_0000
  {
    if w < 0x8000_0000 then w else w - WORD
  }

  function Wide(args: seq<Arg>, k: nat): (w: nat)
    ensures w < DOUBLE
  {
    if k < |args| && args[k].Long? then args[k].bits % DOUBLE else 0
  }

  /** getuint: two 'l' ask for a long long. */
  function Unsigned(args: seq<Arg>, k: nat, lflag: nat): (n: nat)
    ensures n < DOUBLE
  {
    if lflag >= 2 then Wide(args, k) else Bits(args, k)
  }

  /** getint */
  function Number(args: seq<Arg>, k: nat, lflag: nat): (v: int)
    ensures 0 <= 2 * v + DOUBLE && 2 * v < DOUBLE
  {
    if lflag < 2 then Signed(Bits(args, k))
    else if 2 * Wide(args, k) < DOUBLE then Wide(args, k)
    else Wide(args, k) - DOUBLE
  }

  function Str(args: seq<Arg>, k: nat): string {
    if k < |args| && args[k].Text? then args[k].text else "(null)"
  }

  // ---- numbers ----

  const DIGITS: string := "0123456789abcdef"

  function Digit(d: nat): char
    requires d < 16
  {
    DIGITS[d]
  }

  predicate Base(base: nat) {
    base == 8 || base == 10 || base == 16
  }

  /** n / base and n % base. */
  function Split(n: nat, base: nat): (r: (nat, nat))
    requires Base(base)
    ensures n == r.0 * base + r.1 && r.1 < base && (n >= base ==> r.0 < n)
  {
    if base == 8 then (n / 8, n % 8) else if base == 16 then (n / 16, n % 16) else (n / 10, n % 10)
  }

  /** The digits of n, most significant first. */
  function Digits(n: nat, base: nat): (s: string)
    requires Base(base)
    ensures |s| >= 1
    decreases n
  {
    if n < base then [Digit(n)] else Digits(Split(n, base).0, base) + [Digit(Split(n, base).1)]
  }

  function Repeat(c: char, n: int): (s: string)
    ensures |s| == if n < 0 then 0 else n
    ensures forall i :: 0 <= i < |s| ==> s[i] == c
    decreases n
  {
    if n <= 0 then [] else Repeat(c, n - 1) + [c]
  }

  /** A number padded on the left to the width. */
  function NumberText(n: nat, base: nat, width: int, padc: char): string
    requires Base(base)
  {
    Repeat(padc, width - |Digits(n, base)|) + Digits(n, base)
  }

  function DecimalText(v: int, width: int, padc: char): string {
    if v < 0 then "-" + NumberText(-v, 10, width, padc) else NumberText(v, 10, width, padc)
  }

  // ---- escapes ----

  predicate IsDigit(c: char) {
    '0' <= c <= '9'
  }

  /** The decimal number at position i, and where it ends. */
  function ReadNumber(fmt: string, i: nat, acc: nat): (r: (nat, nat))
    requires i <= |fmt|
    ensures i <= r.1 <= |fmt| && (i < |fmt| && IsDigit(fmt[i]) ==> i < r.1)
    ensures forall j :: i <= j < r.1 ==> fmt[j] != '%'
    decreases |fmt| - i
  {
    if i < |fmt| && IsDigit(fmt[i]) then ReadNumber(fmt, i + 1, acc * 10 + (fmt[i] - '0') as nat) else (acc, i)
  }

  /** A number is the width, or the precision once there is a width. */
  function Sized(sp: Spec, v: int): Spec {
    if sp.width < 0 then sp.(width := v, precision := -1) else sp.(precision := v)
  }

  /** Read flags from position i on: the settings, the position of the conversion character, and
    * the number of arguments used so far.
    */
  function Flags(fmt: string, args: seq<Arg>, i: nat, k: nat, sp: Spec): (r: (Spec, nat, nat))
    requires i <= |fmt|
    ensures i <= r.1 <= |fmt|
    ensures forall j :: i <= j < r.1 ==> fmt[j] != '%'
    decreases |fmt| - i
  {
    if i == |fmt| then (sp, i, k)
    else if fmt[i] == '-' then Flags(fmt, args, i + 1, k, sp.(padc := '-'))
    else if fmt[i] == '0' then Flags(fmt, args, i + 1, k, sp.(padc := '0'))
    else if IsDigit(fmt[i]) then
      var (v, j) := ReadNumber(fmt, i, 0); Flags(fmt, args, j, k, Sized(sp, v))
    else if fmt[i] == '*' then Flags(fmt, args, i + 1, k + 1, Sized(sp, Signed(Bits(args, k))))
    else if fmt[i] == '.' then Flags(fmt, args, i + 1, k, if sp.width < 0 then sp.(width := 0) else sp)
    else if fmt[i] == '#' then Flags(fmt, args, i + 1, k, sp.(alt := true))
    else if fmt[i] == 'l' then Flags(fmt, args, i + 1, k, sp.(lflag := sp.lflag + 1))
    else (sp, i, k)
  }

  predicate Known(c: char) {
    c in ['c', 'e', 's', 'd', 'u', 'o', 'p', 'x', '%']
  }

  function Shown(alt: bool, s: string): (r: string)
    ensures |r| == |s|
  {
    seq(|s|, i requires 0 <= i < |s| => if alt && (s[i] < ' ' || s[i] > '~') then '?' else s[i])
  }

  /** A string cut to the precision and padded to the width: on the left, or on the right with
    * blanks after the flag '-'.
    */
  function StringText(s: string, sp: Spec): string {
    var body := if 0 <= sp.precision < |s| then s[..sp.precision] else s;
    if sp.width > 0 && sp.padc != '-' then Repeat(sp.padc, sp.width - |body|) + Shown(sp.alt, body)
    else Shown(sp.alt, body) + Repeat(' ', sp.width - |body|)
  }

  function ErrorText(messages: Messages, v: int): string {
    var err := if -0x8000_0000 < v < 0 then -v else v;
    if err in messages then messages[err] else "error " + DecimalText(err, -1, ' ')
  }

  /** The text of a known conversion, and the arguments used. */
  function Convert(messages: Messages, args: seq<Arg>, sp: Spec, c: char, k: nat): (string, nat)
    requires Known(c)
  {
    match c
    case 'c' => ([(Bits(args, k) % 256) as char], k + 1)
    case 'e' => (ErrorText(messages, Signed(Bits(args, k))), k + 1)
    case 's' => (StringText(Str(args, k), sp), k + 1)
    case 'd' => (DecimalText(Number(args, k, sp.lflag), sp.width, sp.padc), k + 1)
    case 'u' => (NumberText(Unsigned(args, k, sp.lflag), 10, sp.width, sp.padc), k + 1)
    case 'o' => (NumberText(Unsigned(args, k, sp.lflag), 8, sp.width, sp.padc), k + 1)
    case 'p' => ("0x" + NumberText(Bits(args, k), 16, sp.width, sp.padc), k + 1)
    case 'x' => (NumberText(Unsigned(args, k, sp.lflag), 16, sp.width, sp.padc), k + 1)
    case _ => ("%", k)
  }

  const PLAIN: Spec := Spec(' ', -1, -1, 0, false)

  /** The text of the format from position i on, with k arguments used. */
  function Expand(messages: Messages, fmt: string, args: seq<Arg>, i: nat, k: nat): string
    requires i <= |fmt|
    decreases |fmt| - i
  {
    if i == |fmt| then []
    else if fmt[i] != '%' then [fmt[i]] + Expand(messages, fmt, args, i + 1, k)
    else
      var (sp, j, k1) := Flags(fmt, args, i + 1, k, PLAIN);
      if j < |fmt| && Known(fmt[j]) then
        var (text, k2) := Convert(messages, args, sp, fmt[j], k1);
        text + Expand(messages, fmt, args, j + 1, k2)
      else "%" + Expand(messages, fmt, args, i + 1, k1)
  }

  /** A conversion to decimal gets a number that the division by ten is right for. */
  predicate Divisible(args: seq<Arg>, sp: Spec, c: char, k: nat) {
    && (c == 'd' ==> 0 < Number(args, k, sp.lflag) + TEN_LIMIT && Number(args, k, sp.lflag) < TEN_LIMIT)
    && (c == 'u' ==> Unsigned(args, k, sp.lflag) < TEN_LIMIT)
  }

  /** So do all conversions from position i on. */
  predicate Divides(messages: Messages, fmt: string, args: seq<Arg>, i: nat, k: nat)
    requires i <= |fmt|
    decreases |fmt| - i
  {
    if i == |fmt| then true
    else if fmt[i] != '%' then Divides(messages, fmt, args, i + 1, k)
    else
      var (sp, j, k1) := Flags(fmt, args, i + 1, k, PLAIN);
      if j < |fmt| && Known(fmt[j]) then
        && Divisible(args, sp, fmt[j], k1)
        && Divides(messages, fmt, args, j + 1, Convert(messages, args, sp, fmt[j], k1).1)
      else Divides(messages, fmt, args, i + 1, k1)
  }

  // ---- properties ----

  lemma WordDivides(args: seq<Arg>, sp: Spec, c: char, k: nat)
    requires forall x :: 0 <= x < |args| ==> !args[x].Long?
    ensures Divisible(args, sp, c, k)
  {
  }

  /** Arguments of 32 bits are all small enough, whatever the format. */
  lemma {:induction false} WordsDivide(messages: Messages, fmt: string, args: seq<Arg>, i: nat, k: nat)
    requires i <= |fmt| && forall x :: 0 <= x < |args| ==> !args[x].Long?
    ensures Divides(messages, fmt, args, i, k)
    decreases |fmt| - i
  {
    hide Flags, Known, Convert, Divisible;
    if i < |fmt| {
      if fmt[i] != '%' {
        WordsDivide(messages, fmt, args, i + 1, k);
      } else {
        var (sp, j, k1) := Flags(fmt, args, i + 1, k, PLAIN);
        if j < |fmt| && Known(fmt[j]) {
          WordDivides(args, sp, fmt[j], k1);
          WordsDivide(messages, fmt, args, j + 1, Convert(messages, args, sp, fmt[j], k1).1);
        } else {
          WordsDivide(messages, fmt, args, i + 1, k1);
        }
      }
    }
  }

  lemma DividesStep(messages: Messages, fmt: string, args: seq<Arg>, i: nat, k: nat)
    requires i < |fmt| && Divides(messages, fmt, args, i, k)
    ensures fmt[i] != '%' ==> Divides(messages, fmt, args, i + 1, k)
    ensures var (sp, j, k1) := Flags(fmt, args, i + 1, k, PLAIN);
            fmt[i] == '%' ==>
              if j < |fmt| && Known(fmt[j]) then
                && Divisible(args, sp, fmt[j], k1)
                && Divides(messages, fmt, args, j + 1, Convert(messages, args, sp, fmt[j], k1).1)
              else Divides(messages, fmt, args, i + 1, k1)
  {
    hide Flags, Known, Convert, Divisible;
  }

  lemma ExpandChar(messages: Messages, fmt: string, args: seq<Arg>, i: nat, k: nat)
    requires i < |fmt| && fmt[i] != '%'
    ensures Expand(messages, fmt, args, i, k) == [fmt[i]] + Expand(messages, fmt, args, i + 1, k)
  {
  }

  /** Text without an escape stands for itself. */
  lemma {:induction false} PlainText(messages: Messages, fmt: string, args: seq<Arg>, i: nat, k: nat, j: nat)
    requires i <= j <= |fmt| && forall x :: i <= x < j ==> fmt[x] != '%'
    ensures Expand(messages, fmt, args, i, k) == fmt[i..j] + Expand(messages, fmt, args, j, k)
    decreases j - i
  {
    hide Expand;
    if i < j {
      ExpandChar(messages, fmt, args, i, k);
      PlainText(messages, fmt, args, i + 1, k, j);
      assert fmt[i..j] == [fmt[i]] + fmt[i + 1..j];
    }
  }

  lemma ExpandKnown(messages: Messages, fmt: string, args: seq<Arg>, i: nat, k: nat)
    requires i < |fmt| && fmt[i] == '%'
    ensures var (sp, j, k1) := Flags(fmt, args, i + 1, k, PLAIN);
            j < |fmt| && Known(fmt[j]) ==>
              Expand(messages, fmt, args, i, k) == Convert(messages, args, sp, fmt[j], k1).0
                                                   + Expand(messages, fmt, args, j + 1,
                                                     Convert(messages, args, sp, fmt[j], k1).1)
  {
    hide Convert, Flags, Known;
  }

  lemma ExpandEnd(messages: Messages, fmt: string, args: seq<Arg>)
    ensures forall k: nat :: Expand(messages, fmt, args, |fmt|, k) == []
  {
  }

  lemma ExpandUnknown(messages: Messages, fmt: string, args: seq<Arg>, i: nat, k: nat)
    requires i < |fmt| && fmt[i] == '%'
    ensures var (sp, j, k1) := Flags(fmt, args, i + 1, k, PLAIN);
            j == |fmt| || !Known(fmt[j]) ==>
              Expand(messages, fmt, args, i, k) == "%" + Expand(messages, fmt, args, i + 1, k1)
  {
    hide Convert, Flags, Known;
  }

  /** An unknown escape is printed as it stands, flags and all; only the arguments of its stars are used. */
  lemma UnknownEscape(messages: Messages, fmt: string, args: seq<Arg>, i: nat, k: nat)
    requires i < |fmt| && fmt[i] == '%'
    ensures var (sp, j, k1) := Flags(fmt, args, i + 1, k, PLAIN);
            j == |fmt| || !Known(fmt[j]) ==>
              Expand(messages, fmt, args, i, k) == fmt[i..j] + Expand(messages, fmt, args, j, k1)
  {
    hide Expand, Flags, Known;
    var (sp, j, k1) := Flags(fmt, args, i + 1, k, PLAIN);
    ExpandUnknown(messages, fmt, args, i, k);
    PlainText(messages, fmt, args, i + 1, k1, j);
    assert fmt[i..j] == [fmt[i]] + fmt[i + 1..j];
  }

  /** A padded number has max(width, number of digits) characters. */
  lemma NumberLength(n: nat, base: nat, width: int, padc: char)
    requires Base(base)
    ensures |NumberText(n, base, width, padc)| == if width > |Digits(n, base)| then width else |Digits(n, base)|
  {
  }
}
