/** What the formatter prints, in literal characters: digits, fields, specifications and conversions (lib/vsprintf.c). */
module FormatLaws {
  import opened Machine
  import opened Options
  import opened PowersOfTwo
  import opened FormatText
  import opened Strtoul

  /** The two digit tables. */
  lemma DigitTables(d: nat)
    requires d < 36
    ensures DigitChar(d, false) == "0123456789abcdefghijklmnopqrstuvwxyz"[d]
    ensures DigitChar(d, true) == "0123456789ABCDEFGHIJKLMNOPQRSTUVWXYZ"[d]
  {
  }

  lemma DigitInTable(d: nat, large: bool)
    requires d < 36
    ensures DigitChar(d, large) == Table(large)[d]
  {
    DigitTables(d);
  }

  function Table(large: bool): (s: seq<char>)
    ensures |s| == 36
  {
    if large then "0123456789ABCDEFGHIJKLMNOPQRSTUVWXYZ" else "0123456789abcdefghijklmnopqrstuvwxyz"
  }

  function Power(base: nat, k: nat): (r: nat)
    ensures base > 0 ==> r > 0
  {
    if k == 0 then 1 else base * Power(base, k - 1)
  }

  lemma DivTwice(v: nat, a: nat, b: nat)
    requires a > 0 && b > 0
    ensures a * b > 0 && v / a / b == v / (a * b)
  {
    var q, r := v / a, v % a;
    var p, s := q / b, q % b;
    TwoSteps(v, a, b, q, r, p, s);
    DivModUnique(v, a * b, p, s * a + r);
  }

  lemma TwoSteps(v: nat, a: nat, b: nat, q: nat, r: nat, p: nat, s: nat)
    requires v == q * a + r && q == p * b + s && r < a && s < b
    ensures a * b > 0 && v == p * (a * b) + (s * a + r) && s * a + r < a * b
  {
    Distribute(a, b, p, s);
    MulMonotone(a, s, b - 1);
    assert a * (b - 1) == a * b - a;
  }

  lemma Distribute(a: nat, b: nat, p: nat, s: nat)
    ensures (p * b + s) * a == p * (a * b) + s * a
  {
  }

  lemma MulMonotone(a: nat, s: nat, t: nat)
    requires s <= t
    ensures 0 <= a * s <= a * t
  {
  }

  /** The digit of the value in place `k` from the right, counted from zero. */
  function Place(value: nat, base: nat, k: nat): (d: nat)
    requires base > 0
    ensures d < base
  {
    value / Power(base, k) % base
  }

  lemma NextPlace(value: nat, base: nat, k: nat)
    requires base > 0 && k > 0
    ensures Place(value, base, k) == Place(value / base, base, k - 1)
  {
    DivTwice(value, base, Power(base, k - 1));
  }

  lemma {:induction false} DigitsAt(value: nat, base: nat, large: bool, i: nat)
    requires 2 <= base <= 36 && i < |Digits(value, base, large)|
    ensures var s := Digits(value, base, large); s[i] == DigitChar(Place(value, base, |s| - 1 - i), large)
    decreases value
  {
    var s := Digits(value, base, large);
    DivideStep(value, base);
    if i < |s| - 1 {
      hide DigitChar, Place;
      DigitsAt(value / base, base, large, i);
      NextPlace(value, base, |s| - 1 - i);
    }
  }

  lemma {:induction false} DigitsLength(value: nat, base: nat, large: bool)
    requires 2 <= base <= 36
    ensures var n := |Digits(value, base, large)|; value < Power(base, n) && (n > 0 ==> Power(base, n - 1) <= value)
    decreases value
  {
    hide DigitChar;
    if value > 0 {
      DivideStep(value, base);
      DigitsLength(value / base, base, large);
      var n := |Digits(value, base, large)|;
      ScaledBounds(value, base, value / base, value % base, Power(base, n - 1), if n > 1 then Power(base, n - 2) else 0);
    }
  }

  lemma ScaledBounds(value: nat, base: nat, q: nat, r: nat, hi: nat, lo: nat)
    requires value == q * base + r && r < base && lo <= q < hi
    ensures base * lo <= value < base * hi
  {
    MulMonotone(base, lo, q);
    MulMonotone(base, q + 1, hi);
  }

  /** A numeral has at least one digit, and no more than the value needs. */
  lemma NumeralLength(value: nat, base: nat, large: bool)
    requires 2 <= base <= 36
    ensures var n := |Numeral(value, base, large)|;
            n > 0 && value < Power(base, n) && (n > 1 ==> Power(base, n - 1) <= value)
  {
    hide Digits;
    DigitsLength(value, base, large);
  }

  /** A numeral is positional notation: character `i` is the table's entry for the digit of the value in its place. */
  lemma NumeralLaw(value: nat, base: nat, large: bool, i: nat)
    requires 2 <= base <= 36 && i < |Numeral(value, base, large)|
    ensures var s := Numeral(value, base, large); s[i] == Table(large)[Place(value, base, |s| - 1 - i)]
  {
    hide DigitChar, Numeral, Place, Table;
    NumeralDigit(value, base, large, i);
    DigitInTable(Place(value, base, |Numeral(value, base, large)| - 1 - i), large);
  }

  lemma NumeralDigit(value: nat, base: nat, large: bool, i: nat)
    requires 2 <= base <= 36 && i < |Numeral(value, base, large)|
    ensures var s := Numeral(value, base, large); s[i] == DigitChar(Place(value, base, |s| - 1 - i), large)
  {
    PlaceOfZero(base);
    hide DigitChar, Digits, Place;
    if value > 0 { DigitsAt(value, base, large, i); }
  }

  lemma PlaceOfZero(base: nat)
    requires base >= 2
    ensures Place(0, base, 0) == 0 && DigitChar(0, false) == DigitChar(0, true) == '0'
  {
  }

  /** What stands before the digits of a numeric field. */
  lemma HeadLaw(num: nat, base: nat, f: Flags)
    requires num < 0x1_0000_0000_0000_0000
    ensures var negative := f.sign && num >= 0x8000_0000_0000_0000;
            && SignText(num, f) == (if negative then "-" else if f.sign && f.plus then "+" else if f.sign && f.space then " " else "")
            && Magnitude(num, f) == if negative then 0x1_0000_0000_0000_0000 - num else num
    ensures Prefix(base, f) ==
            if f.special && base == 8 then "0" else if f.special && base == 16 then if f.large then "0X" else "0x" else ""
  {
  }

  ghost function Spaces(n: nat): seq<char> { seq(n, _ => ' ') }

  ghost function Zeros(n: nat): seq<char> { seq(n, _ => '0') }

  lemma RepeatedLaw(n: int)
    ensures Repeated(' ', n) == Spaces(Larger(n, 0)) && Repeated('0', n) == Zeros(Larger(n, 0))
  {
  }

  /** A numeric field: sign, prefix, zeros up to the precision and the digits, padded to the width with spaces behind when
      left justified, otherwise with zeros after the prefix or with spaces in front. */
  lemma FieldLaw(num: nat, base: nat, width: int, precision: int, f: Flags) returns (lead: nat, zeros: nat, trail: nat)
    requires num < WORD && 2 <= base <= 36
    ensures var sign, prefix, digits := SignText(num, f), Prefix(base, f), Numeral(Magnitude(num, f), base, f.large);
            var text := NumberText(num, base, width, precision, f);
            && text == Spaces(lead) + sign + prefix + Zeros(zeros) + digits + Spaces(trail)
            && |text| == Larger(width, |sign| + |prefix| + Larger(precision, |digits|))
            && (lead > 0 ==> !f.left && !f.zeropad) && (trail > 0 ==> f.left)
            && (zeros > Larger(precision - |digits|, 0) ==> f.zeropad && !f.left) && zeros + |digits| >= precision
  {
    hide Numeral, SignText, Prefix, Magnitude, Repeated;
    var sign, prefix, digits := SignText(num, f), Prefix(base, f), Numeral(Magnitude(num, f), base, f.large);
    var more := precision - |digits|;
    var pad := width - |sign + prefix| - |Body(num, base, precision, f)|;
    RepeatedLaw(more);
    RepeatedLaw(pad);
    assert PadOf(num, base, width, precision, f, pad, Larger(more, 0));
    hide Spaces, Zeros, NumberText, PadOf;
    lead, zeros, trail := 0, Larger(more, 0), 0;
    if f.left {
      trail := Larger(pad, 0);
      LeftField(num, base, width, precision, f, pad, zeros);
    } else if f.zeropad {
      zeros := Larger(pad, 0) + zeros;
      ZeroField(num, base, width, precision, f, pad, Larger(more, 0));
    } else {
      lead := Larger(pad, 0);
      SpaceField(num, base, width, precision, f, pad, zeros);
    }
  }

  ghost predicate PadOf(num: nat, base: nat, width: int, precision: int, f: Flags, pad: int, more: nat)
    requires num < WORD && 2 <= base <= 36
  {
    && pad == width - |SignText(num, f) + Prefix(base, f)| - |Body(num, base, precision, f)|
    && Body(num, base, precision, f) == Zeros(more) + Numeral(Magnitude(num, f), base, f.large)
  }

  lemma LeftField(num: nat, base: nat, width: int, precision: int, f: Flags, pad: int, more: nat)
    requires num < WORD && 2 <= base <= 36 && f.left && PadOf(num, base, width, precision, f, pad, more)
    ensures NumberText(num, base, width, precision, f) ==
            Spaces(0) + SignText(num, f) + Prefix(base, f) + Zeros(more) + Numeral(Magnitude(num, f), base, f.large) +
            Spaces(Larger(pad, 0))
  {
    hide Numeral, SignText, Prefix, Magnitude, Repeated, Body, Spaces, Zeros;
    NoSpaces();
    RepeatedLaw(pad);
    Group([], SignText(num, f), Prefix(base, f), Zeros(more), Numeral(Magnitude(num, f), base, f.large), Spaces(Larger(pad, 0)));
  }

  lemma ZeroField(num: nat, base: nat, width: int, precision: int, f: Flags, pad: int, more: nat)
    requires num < WORD && 2 <= base <= 36 && !f.left && f.zeropad && PadOf(num, base, width, precision, f, pad, more)
    ensures NumberText(num, base, width, precision, f) ==
            Spaces(0) + SignText(num, f) + Prefix(base, f) + Zeros(Larger(pad, 0) + more) +
            Numeral(Magnitude(num, f), base, f.large) + Spaces(0)
  {
    hide Numeral, SignText, Prefix, Magnitude, Repeated, Body, Spaces, Zeros;
    NoSpaces();
    RepeatedLaw(pad);
    JoinZeros(Larger(pad, 0), more);
    Group(SignText(num, f), Prefix(base, f), Zeros(Larger(pad, 0)), Zeros(more), Numeral(Magnitude(num, f), base, f.large), []);
    NothingBefore(SignText(num, f));
  }

  lemma SpaceField(num: nat, base: nat, width: int, precision: int, f: Flags, pad: int, more: nat)
    requires num < WORD && 2 <= base <= 36 && !f.left && !f.zeropad && PadOf(num, base, width, precision, f, pad, more)
    ensures NumberText(num, base, width, precision, f) ==
            Spaces(Larger(pad, 0)) + SignText(num, f) + Prefix(base, f) + Zeros(more) +
            Numeral(Magnitude(num, f), base, f.large) + Spaces(0)
  {
    hide Numeral, SignText, Prefix, Magnitude, Repeated, Body, Spaces, Zeros;
    NoSpaces();
    RepeatedLaw(pad);
    Group(Spaces(Larger(pad, 0)), SignText(num, f), Prefix(base, f), Zeros(more), Numeral(Magnitude(num, f), base, f.large), []);
  }

  lemma NoSpaces()
    ensures Spaces(0) == []
  {
  }

  lemma JoinZeros(m: nat, n: nat)
    ensures Zeros(m) + Zeros(n) == Zeros(m + n)
  {
  }

  lemma Group(a: seq<char>, b: seq<char>, c: seq<char>, d: seq<char>, e: seq<char>, g: seq<char>)
    ensures a + b + c + d + e + g == a + (b + c) + (d + e) + g == (a + b) + c + (d + e) + g == (a + b) + (c + d) + e + g
    ensures a + b + c + d + e + [] == a + b + c + d + e && [] + b == b
  {
  }

  /** What may follow a specification, and what may follow its parts. */
  ghost predicate EndsSpec(c: char) { c !in "-+ #0123456789*.hlLZ" }

  ghost predicate EndsPrecision(c: char) { c !in "-+ #0123456789*." }

  ghost predicate EndsWidth(c: char) { c !in "-+ #0123456789*" }

  ghost predicate EndsFlags(c: char) { c !in "-+ #0" }

  /** The flags after those in `f` and the flag characters. */
  ghost function Flagged(f: Flags, flags: seq<char>): Flags {
    Flags(f.zeropad || '0' in flags, f.sign, f.plus || '+' in flags, f.space || ' ' in flags, f.left || '-' in flags,
          f.special || '#' in flags, f.large)
  }

  ghost predicate AreFlags(flags: seq<char>) { forall i :: 0 <= i < |flags| ==> flags[i] in "-+ #0" }

  lemma OneFlag(f: Flags, c: char, rest: seq<char>)
    requires c in "-+ #0"
    ensures IsFlag(c) && Flagged(WithFlag(f, c), rest) == Flagged(f, [c] + rest)
  {
  }

  lemma {:induction false} FlagsRead(fmt: seq<char>, i: nat, flags: seq<char>, f: Flags)
    requires Stands(fmt, i, flags) && AreFlags(flags) && EndsFlags(CharAt(fmt, i + |flags|))
    ensures FlagRun(fmt, i, f) == (Flagged(f, flags), i + |flags|)
    decreases |flags|
  {
    if flags == [] {
      assert !IsFlag(CharAt(fmt, i));
    } else {
      var c, rest := flags[0], flags[1..];
      assert flags == [c] + rest;
      StandsSplit(fmt, i, [c], rest);
      StandsFirst(fmt, i, c);
      OneFlag(f, c, rest);
      FlagsRead(fmt, i + 1, rest, WithFlag(f, c));
    }
  }

  /** A field width, or a precision after its dot: nothing, a number, or a star. */
  datatype Count = Nothing | Number(n: nat) | Star

  ghost function CountText(n: Count): seq<char> {
    match n
    case Nothing => []
    case Number(v) => Numeral(v, 10, false)
    case Star => "*"
  }

  ghost function PrecisionText(p: Option<Count>): seq<char> { if p.None? then [] else "." + CountText(p.value) }

  /** A number is an `int`; a star takes an `int` argument, and a width can be negated. */
  ghost predicate CountFits(n: Count, args: seq<Arg>, least: int) {
    match n
    case Nothing => true
    case Number(v) => v <= 0x7fff_ffff
    case Star => args != [] && args[0].Int? && least <= args[0].i <= 0x7fff_ffff
  }

  ghost function ArgsAfter(n: Count, args: seq<Arg>): seq<Arg> { if n.Star? && args != [] then args[1..] else args }

  /** The character that follows `x` if nothing does, else the first of `x`. */
  lemma FirstOf(fmt: seq<char>, i: nat, x: seq<char>)
    requires Stands(fmt, i, x)
    ensures CharAt(fmt, i) == if x == [] then CharAt(fmt, i + |x|) else x[0]
  {
    if x != [] { assert fmt[i..i + |x|][0] == fmt[i]; }
  }

  lemma {:induction false} FirstDecimal(v: nat)
    ensures var c := Numeral(v, 10, false)[0]; IsDigit(c) && (v > 0 ==> c != '0')
  {
    if v > 0 { LeadingDigit(v, 10, false); }
  }

  /** A specification read up to its width; a negative argument means left justification. */
  ghost function WidthRead(f: Flags, w: Count, at: nat, args: seq<Arg>): Directive
    requires CountFits(w, args, -0x7fff_ffff)
  {
    var d := Directive(f, -1, -1, ' ', at, ArgsAfter(w, args));
    match w
    case Nothing => d
    case Number(v) => d.(width := v)
    case Star => if args[0].i < 0 then d.(f := f.(left := true), width := -args[0].i) else d.(width := args[0].i)
  }

  /** A width is read as it is written. */
  lemma WidthReads(fmt: seq<char>, f: Flags, i: nat, w: Count, args: seq<Arg>)
    requires Stands(fmt, i, CountText(w)) && CountFits(w, args, -0x7fff_ffff)
    requires EndsWidth(CharAt(fmt, i + |CountText(w)|))
    ensures WidthPart(fmt, f, i, args) == Some(WidthRead(f, w, i + |CountText(w)|, args))
  {
    FirstOf(fmt, i, CountText(w));
    if w.Number? {
      FirstDecimal(w.n);
      NoDigit(CharAt(fmt, i + |CountText(w)|));
      hide Stands, CharAt, Numeral, DigitRun;
      AtoiNumeral(fmt, i, w.n, false);
    } else {
      NoDigit(CharAt(fmt, i + |CountText(w)|));
    }
  }

  lemma NoDigit(c: char)
    requires EndsWidth(c)
    ensures !IsDigit(c) && c != '*'
  {
  }

  /** A specification read up to its precision; a dot alone means zero, and so does a negative argument. */
  ghost function PrecisionRead(d: Directive, p: Option<Count>, at: nat): Directive
    requires p.Some? ==> CountFits(p.value, d.args, -0x8000_0000)
  {
    if p.None? then d.(at := at) else
      var r := d.(precision := 0, at := at, args := ArgsAfter(p.value, d.args));
      match p.value
      case Nothing => r
      case Number(v) => r.(precision := v)
      case Star => if d.args[0].i > 0 then r.(precision := d.args[0].i) else r
  }

  /** A precision is read as it is written. */
  lemma PrecisionReads(fmt: seq<char>, d: Directive, p: Option<Count>)
    requires Stands(fmt, d.at, PrecisionText(p)) && (p.Some? ==> CountFits(p.value, d.args, -0x8000_0000))
    requires EndsPrecision(CharAt(fmt, d.at + |PrecisionText(p)|))
    ensures PrecisionPart(fmt, d) == Some(PrecisionRead(d, p, d.at + |PrecisionText(p)|))
  {
    hide Stands, CharAt, Numeral, DigitRun, EndsPrecision, IsDigit;
    FirstOf(fmt, d.at, PrecisionText(p));
    NoDot(CharAt(fmt, d.at + |PrecisionText(p)|));
    DigitChars();
    if p.Some? {
      var n := p.value;
      StandsSplit(fmt, d.at, ".", CountText(n));
      FirstOf(fmt, d.at + 1, CountText(n));
      if n.Number? {
        FirstDecimal(n.n);
        AtoiNumeral(fmt, d.at + 1, n.n, false);
      }
    }
  }

  lemma DigitChars()
    ensures !IsDigit('*') && !IsDigit('.')
  {
  }

  lemma NoDot(c: char)
    requires EndsPrecision(c)
    ensures !IsDigit(c) && c != '*' && c != '.'
  {
  }

  ghost function SpecText(flags: seq<char>, w: Count, p: Option<Count>, q: seq<char>): seq<char> {
    "%" + (flags + (CountText(w) + (PrecisionText(p) + q)))
  }

  /** The arguments for the stars are there, and width and precision are in range. */
  ghost predicate StarsFit(w: Count, p: Option<Count>, args: seq<Arg>) {
    CountFits(w, args, -0x7fff_ffff) && (p.Some? ==> CountFits(p.value, ArgsAfter(w, args), -0x8000_0000))
  }

  /** The specification that flags, width, precision and qualifier mean. */
  ghost function SpecOf(flags: seq<char>, w: Count, p: Option<Count>, q: seq<char>, at: nat, args: seq<Arg>): Directive
    requires StarsFit(w, p, args)
  {
    var left := '-' in flags || (w.Star? && args[0].i < 0);
    var width := match w case Nothing => -1 case Number(v) => v case Star => if args[0].i < 0 then -args[0].i else args[0].i;
    var more := ArgsAfter(w, args);
    var precision := if p.None? then -1 else match p.value case Nothing => 0 case Number(v) => v case Star => Larger(more[0].i, 0);
    Directive(Flags('0' in flags, false, '+' in flags, ' ' in flags, left, '#' in flags, false), width, precision,
              if q == [] then ' ' else q[0], at, if p.None? then more else ArgsAfter(p.value, more))
  }

  lemma SpecComposes(flags: seq<char>, w: Count, p: Option<Count>, q: seq<char>, k: nat, l: nat, at: nat, args: seq<Arg>)
    requires StarsFit(w, p, args)
    ensures var v := WidthRead(Flagged(NO_FLAGS, flags), w, k, args);
            && v.args == ArgsAfter(w, args) && v.at == k && PrecisionRead(v, p, l).at == l && PrecisionRead(v, p, l).qualifier == ' '
            && PrecisionRead(v, p, l).(qualifier := if q == [] then ' ' else q[0], at := at) == SpecOf(flags, w, p, q, at, args)
  {
  }

  ghost predicate IsQualifierText(q: seq<char>) { q in ["", "h", "l", "L", "Z"] }

  lemma QualifierReads(fmt: seq<char>, d: Directive, q: seq<char>)
    requires Stands(fmt, d.at, q) && IsQualifierText(q) && EndsSpec(CharAt(fmt, d.at + |q|)) && d.qualifier == ' '
    ensures EndsPrecision(CharAt(fmt, d.at))
    ensures QualifierPart(fmt, d) == d.(qualifier := if q == [] then ' ' else q[0], at := d.at + |q|)
  {
    FirstOf(fmt, d.at, q);
  }

  lemma BeforePrecision(fmt: seq<char>, i: nat, p: Option<Count>)
    requires Stands(fmt, i, PrecisionText(p)) && EndsPrecision(CharAt(fmt, i + |PrecisionText(p)|))
    ensures EndsWidth(CharAt(fmt, i))
  {
    FirstOf(fmt, i, PrecisionText(p));
  }

  lemma BeforeWidth(fmt: seq<char>, i: nat, w: Count)
    requires Stands(fmt, i, CountText(w)) && w != Number(0) && EndsWidth(CharAt(fmt, i + |CountText(w)|))
    ensures EndsFlags(CharAt(fmt, i))
  {
    FirstOf(fmt, i, CountText(w));
    if w.Number? { FirstDecimal(w.n); }
  }

  /** Reading a specification is the inverse of writing it: any flags in any order, a width that is absent, a number or a
      star, likewise a precision, and a qualifier. */
  lemma SpecReads(fmt: seq<char>, i: nat, flags: seq<char>, w: Count, p: Option<Count>, q: seq<char>, args: seq<Arg>)
    requires Stands(fmt, i, SpecText(flags, w, p, q)) && AreFlags(flags) && w != Number(0) && IsQualifierText(q)
    requires EndsSpec(CharAt(fmt, i + |SpecText(flags, w, p, q)|)) && StarsFit(w, p, args)
    ensures ReadDirective(fmt, i, args) == Some(SpecOf(flags, w, p, q, i + |SpecText(flags, w, p, q)|, args))
  {
    var wt, pt := CountText(w), PrecisionText(p);
    var j, k, l, at := i + 1, i + 1 + |flags|, i + 1 + |flags| + |wt|, i + 1 + |flags| + |wt| + |pt|;
    hide CharAt, Stands, CountText, PrecisionText, FlagRun, WidthPart, PrecisionPart, QualifierPart, WidthRead, PrecisionRead;
    hide EndsSpec, EndsPrecision, EndsWidth, EndsFlags, SpecOf, AreFlags, CountFits, ArgsAfter, Flagged, IsQualifierText;
    StandsSplit(fmt, i, "%", flags + (wt + (pt + q)));
    StandsSplit(fmt, j, flags, wt + (pt + q));
    StandsSplit(fmt, k, wt, pt + q);
    StandsSplit(fmt, l, pt, q);
    SpecComposes(flags, w, p, q, l, at, at + |q|, args);
    var f := Flagged(NO_FLAGS, flags);
    var v := WidthRead(f, w, l, args);
    var d := PrecisionRead(v, p, at);
    QualifierReads(fmt, d, q);
    BeforePrecision(fmt, l, p);
    BeforeWidth(fmt, k, w);
    FlagsRead(fmt, j, flags, NO_FLAGS);
    WidthReads(fmt, f, k, w, args);
    PrecisionReads(fmt, v, p);
  }

  /** `num`, a 64-bit pattern, is what the argument means under the qualifier: a 64-bit word with l, L or Z; otherwise the
      number equal to the `int` modulo 2^16 (with h) or 2^32 that is in the range of its signed or unsigned type. */
  ghost predicate Denotes(a: Arg, q: char, signed: bool, num: nat) {
    && num < 0x1_0000_0000_0000_0000
    && if q in "lLZ" then a == Long(num) else
         && a.Int?
         && var value: int := if signed && num >= 0x8000_0000_0000_0000 then num - 0x1_0000_0000_0000_0000 else num;
            if q == 'h' then
              (value - a.i) % 0x1_0000 == 0 && if signed then -0x8000 <= value < 0x8000 else value < 0x1_0000
            else if signed then value == a.i
            else (value - a.i) % 0x1_0000_0000 == 0 && value < 0x1_0000_0000
  }

  /** An argument of the type that the qualifier asks for. */
  ghost predicate Typed(a: Arg, q: char) {
    if q in "lLZ" then a.Long? && a.w < 0x1_0000_0000_0000_0000 else a.Int? && -0x8000_0000 <= a.i < 0x8000_0000
  }

  ghost predicate QualifierOk(q: char) { q in " hlLZ" }

  ghost predicate IntegerChar(c: char) { c in "diouxX" }

  lemma ArgumentLaw(d: Directive, signed: bool)
    requires QualifierOk(d.qualifier)
    ensures d.args == [] || !Typed(d.args[0], d.qualifier) ==> IntegerArg(d, signed) == None
    ensures d.args != [] && Typed(d.args[0], d.qualifier) ==>
              IntegerArg(d, signed).Some? && Denotes(d.args[0], d.qualifier, signed, IntegerArg(d, signed).value)
  {
  }

  /** The integer conversions: signed decimal for d and i, unsigned decimal for u, octal for o, hexadecimal for x in lower
      and for X in upper case. */
  lemma IntegerLaw(fmt: seq<char>, d: Directive) returns (num: nat)
    requires d.at < |fmt| && IntegerChar(fmt[d.at]) && QualifierOk(d.qualifier) && !d.f.sign && !d.f.large
    ensures d.args == [] || !Typed(d.args[0], d.qualifier) ==> Convert(fmt, d) == None
    ensures d.args != [] && Typed(d.args[0], d.qualifier) ==>
              var c := fmt[d.at];
              var f := d.f.(sign := c == 'd' || c == 'i', large := c == 'X');
              var base := if c == 'o' then 8 else if c == 'x' || c == 'X' then 16 else 10;
              && Denotes(d.args[0], d.qualifier, f.sign, num)
              && Convert(fmt, d) == Some((NumberText(num, base, d.width, d.precision, f), d.at + 1, d.args[1..]))
  {
    hide NumberText, Denotes, Typed, IntegerArg, StringText, Padded;
    var signed := fmt[d.at] == 'd' || fmt[d.at] == 'i';
    ArgumentLaw(d, signed);
    num := match IntegerArg(d, signed) case Some(v) => v case None => 0;
  }

  /** A pointer is sixteen hexadecimal digits unless a width is given. */
  lemma PointerLaw(fmt: seq<char>, d: Directive)
    requires d.at < |fmt| && fmt[d.at] == 'p'
    ensures Convert(fmt, d) ==
            if d.args == [] || !d.args[0].Long? || d.args[0].w >= 0x1_0000_0000_0000_0000 then None
            else
              var w := d.args[0].w;
              var text := if d.width == -1 then NumberText(w, 16, 16, d.precision, d.f.(zeropad := true))
                          else NumberText(w, 16, d.width, d.precision, d.f);
              Some((text, d.at + 1, d.args[1..]))
  {
    hide NumberText;
  }

  /** `text` padded with spaces to the width: behind when left justified, else in front. */
  ghost predicate PaddedTo(text: seq<char>, width: int, left: bool, field: seq<char>) {
    exists lead: nat, trail: nat ::
      && field == Spaces(lead) + text + Spaces(trail) && |field| == Larger(width, |text|)
      && (lead > 0 ==> !left) && (trail > 0 ==> left)
  }

  lemma PaddedLaw(text: seq<char>, width: int, left: bool)
    ensures PaddedTo(text, width, left, Padded(text, width, left))
  {
    var n := Larger(width - |text|, 0);
    RepeatedLaw(width - |text|);
    assert Spaces(0) == [] && [] + text == text && text + [] == text;
    assert Padded(text, width, left) == Spaces(if left then 0 else n) + text + Spaces(if left then n else 0);
  }

  /** Printing a string takes its characters up to the terminating NUL, and no more than the precision. */
  ghost predicate Clipped(s: seq<char>, precision: int, text: seq<char>) {
    && |text| <= |s| && text == s[..|text|] && '\0' !in text
    && (precision >= 0 ==> |text| <= precision)
    && (|text| < |s| && |text| != precision ==> s[|text|] == '\0')
  }

  /** The string conversion; a null pointer prints as <NULL>. */
  lemma StringLaw(fmt: seq<char>, d: Directive)
    requires d.at < |fmt| && fmt[d.at] == 's' && d.args != [] && (d.args[0].Str? || d.args[0].NullStr?)
    ensures var s := match d.args[0] case Str(s) => s case _ => "<NULL>";
            var r := Convert(fmt, d);
            && r.Some? && r.value.1 == d.at + 1 && r.value.2 == d.args[1..]
            && exists text :: Clipped(s, d.precision, text) && PaddedTo(text, d.width, d.f.left, r.value.0)
  {
    var s := match d.args[0] case Str(s) => s case _ => "<NULL>";
    var text := s[..StringLength(s, 0, d.precision)];
    PaddedLaw(text, d.width, d.f.left);
    hide PaddedTo, StringLength, Padded;
    assert Clipped(s, d.precision, text);
  }

  /** The other conversions: a character, a percent sign, a format that ends after the percent sign, an unknown character,
      which is printed after the percent sign, and %n, which is not modelled. */
  lemma OtherLaw(fmt: seq<char>, d: Directive)
    requires d.at <= |fmt|
    ensures var c, r := CharAt(fmt, d.at), Convert(fmt, d);
            && (c == '\0' ==> r == Some(("%", d.at, d.args)))
            && (c == '%' ==> r == Some(("%", d.at + 1, d.args)))
            && (c !in "\0csp%ndiouxX" ==> r == Some((['%', c], d.at + 1, d.args)))
            && (c == 'c' && d.args != [] && d.args[0].Int? && -0x8000_0000 <= d.args[0].i < 0x8000_0000 ==>
                  && r.Some? && r.value.1 == d.at + 1 && r.value.2 == d.args[1..]
                  && PaddedTo([(d.args[0].i % 256) as char], d.width, d.f.left, r.value.0))
  {
    hide NumberText, PaddedTo, Padded, StringText, IntegerArg;
    if d.args != [] && d.args[0].Int? { PaddedLaw([(d.args[0].i % 256) as char], d.width, d.f.left); }
  }

  /** One conversion, and then the rest of the format. */
  lemma Conversion(fmt: seq<char>, i: nat, args: seq<Arg>, d: Directive, text: seq<char>, next: nat, rest: seq<Arg>)
    requires CharAt(fmt, i) == '%' && i < |fmt| && ReadDirective(fmt, i, args) == Some(d) && d.at <= |fmt|
    requires Convert(fmt, d) == Some((text, next, rest)) && i < next
    ensures Render(fmt, i, args) == Prepend(text, Render(fmt, next, rest))
  {
    hide ReadDirective, Convert;
  }

  lemma StandsTail(fmt: seq<char>, text: seq<char>, c: char)
    requires fmt == text + [c]
    ensures Stands(fmt, 0, text) && CharAt(fmt, |text|) == c
  {
    assert fmt[0..|text|] == text;
  }

  lemma NothingAfter(text: seq<char>)
    ensures Prepend(text, Some([])) == Some(text)
  {
    assert text + [] == text;
  }

  lemma FirstPercent(flags: seq<char>, w: Count, p: Option<Count>, q: seq<char>, c: char)
    ensures var fmt := SpecText(flags, w, p, q) + [c]; |fmt| > 1 && CharAt(fmt, 0) == '%'
  {
  }

  lemma IntegerEnds(c: char)
    requires IntegerChar(c)
    ensures EndsSpec(c)
  {
  }

  lemma SpecFacts(flags: seq<char>, w: Count, p: Option<Count>, q: seq<char>, at: nat, args: seq<Arg>)
    requires StarsFit(w, p, args) && IsQualifierText(q)
    ensures var d := SpecOf(flags, w, p, q, at, args);
            && d == SpecOf(flags, w, p, q, 0, args).(at := at) && d.at == at
            && QualifierOk(d.qualifier) && !d.f.sign && !d.f.large
  {
  }

  /** A format of one specification and a conversion character. */
  lemma OneSpec(flags: seq<char>, w: Count, p: Option<Count>, q: seq<char>, c: char, args: seq<Arg>)
    requires AreFlags(flags) && w != Number(0) && IsQualifierText(q) && EndsSpec(c) && StarsFit(w, p, args)
    ensures var spec := SpecText(flags, w, p, q);
            var fmt, d := spec + [c], SpecOf(flags, w, p, q, |spec|, args);
            && ReadDirective(fmt, 0, args) == Some(d) && CharAt(fmt, 0) == '%' && d.at == |spec| > 0 && QualifierOk(d.qualifier)
            && d == SpecOf(flags, w, p, q, 0, args).(at := |spec|) && !d.f.sign && !d.f.large
  {
    hide Stands, CharAt, Render, ReadDirective, SpecText, SpecOf, EndsSpec, StarsFit, AreFlags, IsQualifierText, QualifierOk;
    var spec := SpecText(flags, w, p, q);
    SpecFacts(flags, w, p, q, |spec|, args);
    StandsTail(spec + [c], spec, c);
    FirstPercent(flags, w, p, q, c);
    SpecReads(spec + [c], 0, flags, w, p, q, args);
  }

  lemma RenderOne(fmt: seq<char>, args: seq<Arg>, d: Directive, text: seq<char>)
    requires |fmt| > 1 && CharAt(fmt, 0) == '%' && ReadDirective(fmt, 0, args) == Some(d) && d.at <= |fmt|
    requires Convert(fmt, d) == Some((text, |fmt|, []))
    ensures Render(fmt, 0, args) == Some(text)
  {
    assert Render(fmt, |fmt|, []) == Some([]);
    hide Render, Convert, ReadDirective, CharAt;
    Conversion(fmt, 0, args, d, text, |fmt|, []);
    NothingAfter(text);
  }

  /** A format with one integer conversion, whatever its flags, width, precision and qualifier, prints that one number. */
  lemma FormatInteger(flags: seq<char>, w: Count, p: Option<Count>, q: seq<char>, c: char, args: seq<Arg>) returns (num: nat)
    requires AreFlags(flags) && w != Number(0) && IsQualifierText(q) && IntegerChar(c) && StarsFit(w, p, args)
    requires var d := SpecOf(flags, w, p, q, 0, args); |d.args| == 1 && Typed(d.args[0], d.qualifier)
    ensures var d := SpecOf(flags, w, p, q, 0, args);
            var f := d.f.(sign := c == 'd' || c == 'i', large := c == 'X');
            var base := if c == 'o' then 8 else if c == 'x' || c == 'X' then 16 else 10;
            && Denotes(d.args[0], d.qualifier, f.sign, num)
            && Render(SpecText(flags, w, p, q) + [c], 0, args) == Some(NumberText(num, base, d.width, d.precision, f))
  {
    hide CharAt, Render, Convert, ReadDirective, SpecText, SpecOf, NumberText, Denotes, Typed;
    hide EndsSpec, StarsFit, AreFlags, IntegerChar, QualifierOk, IsQualifierText;
    var spec := SpecText(flags, w, p, q);
    var fmt, d := spec + [c], SpecOf(flags, w, p, q, |spec|, args);
    IntegerEnds(c);
    OneSpec(flags, w, p, q, c, args);
    assert d.args[1..] == [];
    num := IntegerLaw(fmt, d);
    RenderOne(fmt, args, d, Convert(fmt, d).value.0);
  }

  /** The digits that the parser knows. */
  lemma HexDigitLaw(c: char)
    ensures IsXdigit(c) <==> c in "0123456789abcdefABCDEF"
    ensures IsXdigit(c) ==> var v := DigitValue(c); v < 16 && ("0123456789abcdef"[v] == c || "0123456789ABCDEF"[v] == c)
  {
  }

  /** A base is taken as given; base zero is 16 after 0x and a hexadecimal digit, 8 after any other zero, and 10 otherwise. The
      signed parser negates modulo 2^64 what follows a minus sign. */
  lemma RadixLaw(s: seq<char>, i: nat, base: nat)
    ensures base > 0 ==> Unsigned(s, i, base) == ParseDigits(s, i, base, 0)
    ensures CharAt(s, i) != '0' ==> Unsigned(s, i, 0) == ParseDigits(s, i, 10, 0)
    ensures CharAt(s, i) == '0' ==>
              if CharAt(s, i + 1) == 'x' && CharAt(s, i + 2) in "0123456789abcdefABCDEF"
              then Unsigned(s, i, 0) == ParseDigits(s, i + 2, 16, 0) else Unsigned(s, i, 0) == ParseDigits(s, i + 1, 8, 0)
    ensures CharAt(s, i) != '-' ==> Signed(s, i, base) == Unsigned(s, i, base)
    ensures CharAt(s, i) == '-' ==>
              var (v, end) := Unsigned(s, i + 1, base);
              Signed(s, i, base).1 == end && Signed(s, i, base).0 < 0x1_0000_0000_0000_0000 &&
              (Signed(s, i, base).0 + v) % 0x1_0000_0000_0000_0000 == 0
  {
    HexDigitLaw(CharAt(s, i + 2));
    hide ParseDigits, IsXdigit;
    if CharAt(s, i) == '-' { NegatedLaw(Unsigned(s, i + 1, base).0); }
  }

  lemma NegatedLaw(v: nat)
    ensures Negated(v) < 0x1_0000_0000_0000_0000 && (Negated(v) + v) % 0x1_0000_0000_0000_0000 == 0
  {
    var q, r := v / 0x1_0000_0000_0000_0000, v % 0x1_0000_0000_0000_0000;
    assert v == q * 0x1_0000_0000_0000_0000 + r;
    DivModUnique(Negated(v) + v, 0x1_0000_0000_0000_0000, if r == 0 then q else q + 1, 0);
  }

  ghost predicate AllDigits(s: seq<char>, base: nat) { forall i :: 0 <= i < |s| ==> IsDigitOf(s[i], base) }

  /** The number that a sequence of digits stands for, without any bound. */
  ghost function Value(s: seq<char>, base: nat): nat
    requires AllDigits(s, base)
  {
    if s == [] then 0 else Value(s[..|s| - 1], base) * base + DigitValue(s[|s| - 1])
  }

  /** The digit loop takes the longest run of digits below the base, and its value is theirs modulo 2^64. */
  lemma {:induction false} ParseLaw(s: seq<char>, start: nat, i: nat, base: nat, acc: nat)
    requires start <= i <= |s| && AllDigits(s[start..i], base) && acc == Value(s[start..i], base) % WORD
    ensures var (value, end) := ParseDigits(s, i, base, acc);
            && i <= end <= |s| && AllDigits(s[start..end], base)
            && !IsDigitOf(CharAt(s, end), base) && value == Value(s[start..end], base) % WORD
    decreases |s| - i
  {
    hide AllDigits, Value, DigitValue;
    if IsDigitOf(CharAt(s, i), base) {
      assert i < |s|;
      hide IsXdigit;
      OneMoreDigit(s[start..i], s[i], base);
      assert s[start..i + 1] == s[start..i] + [s[i]];
      ParseLaw(s, start, i + 1, base, (acc * base + DigitValue(s[i])) % WORD);
    }
  }

  lemma OneMoreDigit(s: seq<char>, c: char, base: nat)
    requires AllDigits(s, base) && IsDigitOf(c, base)
    ensures AllDigits(s + [c], base)
    ensures Value(s + [c], base) % WORD == (Value(s, base) % WORD * base + DigitValue(c)) % WORD
  {
    hide DigitValue, IsXdigit;
    var t := s + [c];
    assert t[..|t| - 1] == s;
    ModStep(Value(s, base), base, DigitValue(c));
  }

  lemma ModStep(v: nat, base: nat, digit: nat)
    ensures (v % WORD * base + digit) % WORD == (v * base + digit) % WORD
  {
    var q, r := v / WORD, v % WORD;
    assert v == q * WORD + r;
    var x := r * base + digit;
    assert v * base + digit == (q * base) * WORD + x by { Distribute3(q, r, base); }
    DivModUnique(v * base + digit, WORD, q * base + x / WORD, x % WORD);
  }

  lemma Distribute3(q: nat, r: nat, base: nat)
    ensures (q * WORD + r) * base == (q * base) * WORD + r * base
  {
  }
}
