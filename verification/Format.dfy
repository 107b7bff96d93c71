/** The text that the formatter of lib/vsprintf.c produces, without any bound on the buffer. */
module FormatText {
  import opened Machine
  import opened PowersOfTwo
  import opened Options

  /** The flag bits of a conversion. */
  datatype Flags = Flags(zeropad: bool, sign: bool, plus: bool, space: bool, left: bool, special: bool, large: bool)

  const NO_FLAGS := Flags(false, false, false, false, false, false, false)

  function Repeated(c: char, n: int): (s: seq<char>)
    ensures |s| == Larger(n, 0) && forall i :: 0 <= i < |s| ==> s[i] == c
  {
    if n <= 0 then [] else seq(n, _ => c)
  }

  function Larger(a: int, b: int): int { if a < b then b else a }

  /** Entry `d` of the digit table. */
  function DigitChar(d: nat, large: bool): char
    requires d < 36
  {
    if d < 10 then '0' + d as char else if large then 'A' + (d - 10) as char else 'a' + (d - 10) as char
  }

  /** Splitting off the last digit. */
  lemma DivideStep(value: nat, base: nat)
    requires base >= 2
    ensures value / base * base + value % base == value && 0 <= value % base < base && 2 * (value / base) <= value
    ensures if value < base then value / base == 0 && value % base == value else 0 < value / base
  {
    var q, r := value / base, value % base;
    assert q * base + r == value;
    QuotientBounds(value, base, q, r);
  }

  lemma QuotientBounds(value: nat, base: nat, q: int, r: int)
    requires base >= 2 && q * base + r == value && 0 <= r < base
    ensures q >= 0 && 2 * q <= value && (value < base <==> q == 0)
  {
    if q < 0 { MulAtLeast(-q, base); }
    if q > 0 {
      MulAtLeast(q, base);
      assert q * base == q * 2 + q * (base - 2);
      if base > 2 { MulAtLeast(base - 2, q); }
    }
  }

  /** Positional notation, most significant digit first; nothing for zero. */
  function Digits(value: nat, base: nat, large: bool): (s: seq<char>)
    requires 2 <= base <= 36
    ensures value == 0 <==> s == []
  {
    if value == 0 then [] else Digits(value / base, base, large) + [DigitChar(value % base, large)]
  }

  function Numeral(value: nat, base: nat, large: bool): (s: seq<char>)
    requires 2 <= base <= 36
    ensures |s| > 0
  {
    if value == 0 then ['0'] else Digits(value, base, large)
  }

  /** Is the 64-bit pattern negative when read as signed? */
  predicate Negative(num: nat, f: Flags) { f.sign && num >= WORD / 2 }

  function Magnitude(num: nat, f: Flags): nat
    requires num < WORD
  {
    if Negative(num, f) then WORD - num else num
  }

  function SignText(num: nat, f: Flags): seq<char> {
    if !f.sign then [] else if num >= WORD / 2 then ['-'] else if f.plus then ['+'] else if f.space then [' '] else []
  }

  function Prefix(base: nat, f: Flags): seq<char> {
    if !f.special then []
    else if base == 8 then ['0']
    else if base == 16 then ['0', if f.large then 'X' else 'x']
    else []
  }

  /** The digits, extended with zeros to the precision. */
  function Body(num: nat, base: nat, precision: int, f: Flags): (s: seq<char>)
    requires num < WORD && 2 <= base <= 36
    ensures |s| == Larger(precision, |Numeral(Magnitude(num, f), base, f.large)|)
  {
    var digits := Numeral(Magnitude(num, f), base, f.large);
    Repeated('0', precision - |digits|) + digits
  }

  /** A numeric field. */
  function NumberText(num: nat, base: nat, width: int, precision: int, f: Flags): (s: seq<char>)
    requires num < WORD && 2 <= base <= 36
    ensures |s| == Larger(width, |SignText(num, f)| + |Prefix(base, f)| +
                                 Larger(precision, |Numeral(Magnitude(num, f), base, f.large)|))
  {
    var head, body := SignText(num, f) + Prefix(base, f), Body(num, base, precision, f);
    var pad := width - |head| - |body|;
    if f.left then head + body + Repeated(' ', pad)
    else if f.zeropad then head + Repeated('0', pad) + body
    else Repeated(' ', pad) + head + body
  }

  /** An argument of a variadic call: an `int`, a 64-bit word or pointer, or a string pointer. */
  datatype Arg = Int(i: int) | Long(w: nat) | Str(s: seq<char>) | NullStr

  predicate ArgOk(a: Arg) {
    match a
    case Int(i) => -0x8000_0000 <= i < 0x8000_0000
    case Long(w) => w < WORD
    case _ => true
  }

  /** The character at `i`; strings end in NUL. */
  function CharAt(s: seq<char>, i: nat): char { if i < |s| then s[i] else '\0' }

  predicate IsDigit(c: char) { '0' <= c <= '9' }

  /** A conversion specification as far as it has been read, up to position `at`. */
  datatype Directive = Directive(f: Flags, width: int, precision: int, qualifier: char, at: nat, args: seq<Arg>)

  function WithFlag(f: Flags, c: char): Flags {
    match c
    case '-' => f.(left := true)
    case '+' => f.(plus := true)
    case ' ' => f.(space := true)
    case '#' => f.(special := true)
    case '0' => f.(zeropad := true)
    case _ => f
  }

  predicate IsFlag(c: char) { c == '-' || c == '+' || c == ' ' || c == '#' || c == '0' }

  function FlagRun(fmt: seq<char>, i: nat, f: Flags): (r: (Flags, nat))
    ensures i <= r.1 && (i <= |fmt| ==> r.1 <= |fmt|)
    decreases |fmt| - i
  {
    if i < |fmt| && IsFlag(fmt[i]) then FlagRun(fmt, i + 1, WithFlag(f, fmt[i])) else (f, i)
  }

  /** A run of decimal digits, added to what is already read. */
  function DigitRun(fmt: seq<char>, i: nat, acc: nat): (r: (nat, nat))
    ensures i <= r.1 && (i <= |fmt| ==> r.1 <= |fmt|)
    decreases |fmt| - i
  {
    if i < |fmt| && IsDigit(fmt[i]) then DigitRun(fmt, i + 1, acc * 10 + (fmt[i] - '0') as nat) else (acc, i)
  }

  /** Field width: digits, or an argument whose sign means left justification, or none (-1). A width beyond `int` has no
      meaning, and neither has an argument that is no `int`. */
  function WidthPart(fmt: seq<char>, f: Flags, i: nat, args: seq<Arg>): (r: Option<Directive>)
    ensures r.Some? ==> i <= r.value.at && (i <= |fmt| ==> r.value.at <= |fmt|)
  {
    if IsDigit(CharAt(fmt, i)) then
      var (w, j) := DigitRun(fmt, i, 0);
      if w <= INT_MAX then Some(Directive(f, w, -1, ' ', j, args)) else None
    else if CharAt(fmt, i) == '*' then
      if args == [] || !args[0].Int? || !ArgOk(args[0]) || args[0].i == -0x8000_0000 then None
      else if args[0].i < 0 then Some(Directive(f.(left := true), -args[0].i, -1, ' ', i + 1, args[1..]))
      else Some(Directive(f, args[0].i, -1, ' ', i + 1, args[1..]))
    else Some(Directive(f, -1, -1, ' ', i, args))
  }

  /** Precision: none (-1), or what follows the dot, at least zero and within `int`. */
  function PrecisionPart(fmt: seq<char>, d: Directive): (r: Option<Directive>)
    ensures r.Some? ==> d.at <= r.value.at && (d.at <= |fmt| ==> r.value.at <= |fmt|)
  {
    if CharAt(fmt, d.at) != '.' then Some(d)
    else if IsDigit(CharAt(fmt, d.at + 1)) then
      var (p, j) := DigitRun(fmt, d.at + 1, 0);
      if p <= INT_MAX then Some(d.(precision := p, at := j)) else None
    else if CharAt(fmt, d.at + 1) == '*' then
      if d.args == [] || !d.args[0].Int? || !ArgOk(d.args[0]) then None
      else Some(d.(precision := Larger(d.args[0].i, 0), at := d.at + 2, args := d.args[1..]))
    else Some(d.(precision := 0, at := d.at + 1))
  }

  predicate IsQualifier(c: char) { c == 'h' || c == 'l' || c == 'L' || c == 'Z' }

  function QualifierPart(fmt: seq<char>, d: Directive): (r: Directive)
    ensures d.at <= r.at && (d.at <= |fmt| ==> r.at <= |fmt|)
  {
    if IsQualifier(CharAt(fmt, d.at)) then d.(qualifier := CharAt(fmt, d.at), at := d.at + 1) else d
  }

  /** Everything between the percent sign, at `i`, and the conversion character. */
  function ReadDirective(fmt: seq<char>, i: nat, args: seq<Arg>): (r: Option<Directive>)
    requires i < |fmt|
    ensures r.Some? ==> i < r.value.at <= |fmt|
  {
    var (f, j) := FlagRun(fmt, i + 1, NO_FLAGS);
    var w := WidthPart(fmt, f, j, args);
    if w.None? then None else
      var p := PrecisionPart(fmt, w.value);
      if p.None? then None else Some(QualifierPart(fmt, p.value))
  }

  /** A signed value of `bits` in 64 bits. */
  function Extend(v: nat, bits: nat): nat
    requires v < bits <= WORD
  {
    if v < bits / 2 then v else WORD - bits + v
  }

  /** The 64-bit pattern that an integer conversion prints. */
  function IntegerArg(d: Directive, signed: bool): (r: Option<nat>)
    ensures r.Some? ==> r.value < WORD && d.args != []
  {
    if d.args == [] || !ArgOk(d.args[0]) then None
    else if d.qualifier == 'L' || d.qualifier == 'l' || d.qualifier == 'Z' then
      if d.args[0].Long? then Some(d.args[0].w) else None
    else if !d.args[0].Int? then None
    else if d.qualifier == 'h' then
      var v := d.args[0].i % 0x1_0000; Some(if signed then Extend(v, 0x1_0000) else v)
    else
      var v := d.args[0].i % 0x1_0000_0000; Some(if signed then Extend(v, 0x1_0000_0000) else v)
  }

  /** Length of a string up to NUL, at most `limit` unless that is negative. */
  function StringLength(s: seq<char>, i: nat, limit: int): (n: nat)
    requires i <= |s|
    ensures i <= n <= |s|
    ensures forall k :: i <= k < n ==> s[k] != '\0'
    ensures limit < i || n <= limit
    ensures n == |s| || n == limit || s[n] == '\0'
    decreases |s| - i
  {
    if i == |s| || i == limit || s[i] == '\0' then i else StringLength(s, i + 1, limit)
  }

  function Padded(text: seq<char>, width: int, left: bool): (s: seq<char>)
    ensures |s| == Larger(width, |text|)
  {
    var pad := Repeated(' ', width - |text|);
    if left then text + pad else pad + text
  }

  function StringText(d: Directive, s: seq<char>): seq<char> {
    Padded(s[..StringLength(s, 0, d.precision)], d.width, d.f.left)
  }

  /** Flags, base and signedness of the integer conversions. */
  predicate IsInteger(c: char) { c == 'o' || c == 'x' || c == 'X' || c == 'd' || c == 'i' || c == 'u' }

  function BaseOf(c: char): nat { if c == 'o' then 8 else if c == 'x' || c == 'X' then 16 else 10 }

  function FlagsOf(c: char, f: Flags): Flags {
    if c == 'X' then f.(large := true) else if c == 'd' || c == 'i' then f.(sign := true) else f
  }

  /** The longest text: its length, and the counters that run a little past it, stay within `int`. */
  const TEXT_LIMIT: nat := INT_MAX - 16

  /** What one conversion prints, the position after it, and the arguments left. Nothing for %n, and nothing
      where the arguments do not fit the format. */
  function Convert(fmt: seq<char>, d: Directive): (r: Option<(seq<char>, nat, seq<Arg>)>)
    requires d.at <= |fmt|
    ensures r.Some? ==> d.at <= r.value.1 <= |fmt|
  {
    var c := CharAt(fmt, d.at);
    if c == '\0' then Some((['%'], d.at, d.args))
    else if c == 'c' then
      if d.args == [] || !d.args[0].Int? || !ArgOk(d.args[0]) then None
      else Some((Padded([(d.args[0].i % 256) as char], d.width, d.f.left), d.at + 1, d.args[1..]))
    else if c == 's' then
      if d.args == [] then None
      else match d.args[0] {
        case Str(s) => Some((StringText(d, s), d.at + 1, d.args[1..]))
        case NullStr => Some((StringText(d, "<NULL>"), d.at + 1, d.args[1..]))
        case _ => None
      }
    else if c == 'p' then
      if d.args == [] || !ArgOk(d.args[0]) || !d.args[0].Long? then None
      else if d.width == -1 then
        Some((NumberText(d.args[0].w, 16, 16, d.precision, d.f.(zeropad := true)), d.at + 1, d.args[1..]))
      else Some((NumberText(d.args[0].w, 16, d.width, d.precision, d.f), d.at + 1, d.args[1..]))
    else if c == 'n' then None
    else if c == '%' then Some((['%'], d.at + 1, d.args))
    else if IsInteger(c) then
      var f := FlagsOf(c, d.f);
      var num := IntegerArg(d, f.sign);
      if num.None? then None
      else Some((NumberText(num.value, BaseOf(c), d.width, d.precision, f), d.at + 1, d.args[1..]))
    else Some((['%', c], d.at + 1, d.args))
  }

  /** The whole text of a format from position `i` on. */
  function Render(fmt: seq<char>, i: nat, args: seq<Arg>): Option<seq<char>>
    decreases |fmt| - i
  {
    var c := CharAt(fmt, i);
    if c == '\0' then Some([])
    else if c != '%' then Prepend([c], Render(fmt, i + 1, args))
    else
      var d := ReadDirective(fmt, i, args);
      if d.None? then None else
        var r := Convert(fmt, d.value);
        if r.None? then None else Prepend(r.value.0, Render(fmt, r.value.1, r.value.2))
  }

  function Prepend(s: seq<char>, rest: Option<seq<char>>): Option<seq<char>> {
    if rest.None? then None else Some(s + rest.value)
  }
}
