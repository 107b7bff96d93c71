/** Number parsing (lib/vsprintf.c), and printing and parsing as inverses. */
module Strtoul {
  import opened Machine
  import opened Options
  import opened FormatText

  predicate IsXdigit(c: char) { IsDigit(c) || 'a' <= c <= 'f' || 'A' <= c <= 'F' }

  /** Value of a hexadecimal digit of either case. */
  function DigitValue(c: char): nat
    requires IsXdigit(c)
  {
    if IsDigit(c) then (c - '0') as nat else if 'a' <= c <= 'f' then (c - 'a') as nat + 10 else (c - 'A') as nat + 10
  }

  predicate IsDigitOf(c: char, base: nat) { IsXdigit(c) && DigitValue(c) < base }

  /** The digit loop: value modulo 2^64, and where it stopped. */
  function ParseDigits(s: seq<char>, i: nat, base: nat, acc: nat): (r: (nat, nat))
    decreases |s| - i
  {
    if IsDigitOf(CharAt(s, i), base) then ParseDigits(s, i + 1, base, (acc * base + DigitValue(s[i])) % WORD) else (acc, i)
  }

  /** Base zero looks at the prefix: 0x for hexadecimal, 0 for octal, decimal otherwise. */
  function Radix(s: seq<char>, i: nat, base: nat): (r: (nat, nat)) {
    if base != 0 then (base, i)
    else if CharAt(s, i) != '0' then (10, i)
    else if CharAt(s, i + 1) == 'x' && IsXdigit(CharAt(s, i + 2)) then (16, i + 2)
    else (8, i + 1)
  }

  /** Value and end of the unsigned number at `i`. */
  function Unsigned(s: seq<char>, i: nat, base: nat): (nat, nat) {
    var (b, j) := Radix(s, i, base);
    ParseDigits(s, j, b, 0)
  }

  function Negated(v: nat): nat { (WORD - v % WORD) % WORD }

  /** Value, as a 64-bit pattern, and end of the signed number at `i`. */
  function Signed(s: seq<char>, i: nat, base: nat): (nat, nat) {
    if CharAt(s, i) == '-' then
      var (v, j) := Unsigned(s, i + 1, base); (Negated(v), j)
    else Unsigned(s, i, base)
  }

  /** simple_strtoul, and simple_strtoull, which differs only in its types. */
  method SimpleStrtoul(s: seq<char>, i: nat, base': nat) returns (result: nat, end: nat)
    requires base' < 0x1_0000_0000
    ensures (result, end) == Unsigned(s, i, base') && result < WORD
  {
    var base, cp := base', i;
    result := 0;
    if base == 0 {
      base := 10;
      if CharAt(s, cp) == '0' {
        base := 8;
        cp := cp + 1;
        if CharAt(s, cp) == 'x' && IsXdigit(CharAt(s, cp + 1)) {
          cp := cp + 1;
          base := 16;
        }
      }
    }
    while IsDigitOf(CharAt(s, cp), base)
      invariant ParseDigits(s, cp, base, result) == Unsigned(s, i, base') && result < WORD
      decreases |s| - cp
    {
      result := (result * base + DigitValue(CharAt(s, cp))) % WORD;
      cp := cp + 1;
    }
    end := cp;
  }

  /** simple_strtol and simple_strtoll; the result is a 64-bit pattern. */
  method SimpleStrtol(s: seq<char>, i: nat, base: nat) returns (result: nat, end: nat)
    requires base < 0x1_0000_0000
    ensures (result, end) == Signed(s, i, base) && result < WORD
  {
    if CharAt(s, i) == '-' {
      result, end := SimpleStrtoul(s, i + 1, base);
      result := (WORD - result) % WORD;
    } else {
      result, end := SimpleStrtoul(s, i, base);
    }
  }

  /** `text` stands in `s` at `i`. */
  ghost predicate Stands(s: seq<char>, i: nat, text: seq<char>) {
    i + |text| <= |s| && s[i..i + |text|] == text
  }

  lemma StandsSplit(s: seq<char>, i: nat, a: seq<char>, b: seq<char>)
    requires Stands(s, i, a + b)
    ensures Stands(s, i, a) && Stands(s, i + |a|, b)
  {
    var t := a + b;
    assert s[i..i + |a|] == s[i..i + |t|][..|a|];
    assert s[i + |a|..i + |t|] == s[i..i + |t|][|a|..];
  }

  lemma DigitReadsBack(d: nat, large: bool, base: nat)
    requires d < base <= 16
    ensures IsDigitOf(DigitChar(d, large), base) && DigitValue(DigitChar(d, large)) == d
  {
  }

  /** One round of the digit loop that does not wrap. */
  lemma ParseStep(s: seq<char>, i: nat, base: nat, acc: nat, d: nat, large: bool)
    requires d < base <= 16 && Stands(s, i, [DigitChar(d, large)]) && acc * base + d < WORD
    ensures ParseDigits(s, i, base, acc) == ParseDigits(s, i + 1, base, acc * base + d)
  {
    hide DigitChar, DigitValue, IsXdigit;
    assert s[i] == s[i..i + 1][0] == DigitChar(d, large);
    DigitReadsBack(d, large, base);
    SmallMod(acc * base + d);
  }

  lemma SmallMod(n: nat)
    requires n < WORD
    ensures n % WORD == n
  {
  }

  /** After reading the digits of `value`, the loop has accumulated `value`. */
  lemma {:induction false} DigitsReadBack(s: seq<char>, i: nat, value: nat, base: nat, large: bool)
    requires 2 <= base <= 16 && value < WORD && Stands(s, i, Digits(value, base, large))
    ensures ParseDigits(s, i, base, 0) == ParseDigits(s, i + |Digits(value, base, large)|, base, value)
    decreases value
  {
    hide ParseDigits, Stands, DigitChar;
    if value > 0 {
      DivideStep(value, base);
      var front, d := Digits(value / base, base, large), value % base;
      StandsSplit(s, i, front, [DigitChar(d, large)]);
      DigitsReadBack(s, i, value / base, base, large);
      ParseStep(s, i + |front|, base, value / base, d, large);
    }
  }

  lemma {:induction false} ZerosReadBack(s: seq<char>, i: nat, n: int, base: nat)
    requires 1 <= base <= 16 && Stands(s, i, Repeated('0', n))
    ensures ParseDigits(s, i, base, 0) == ParseDigits(s, i + Larger(n, 0), base, 0)
    decreases Larger(n, 0)
  {
    hide ParseDigits, Stands;
    if n > 0 {
      assert Repeated('0', n) == ['0'] + Repeated('0', n - 1);
      hide Repeated;
      StandsSplit(s, i, ['0'], Repeated('0', n - 1));
      ParseStep(s, i, base, 0, 0, false);
      ZerosReadBack(s, i + 1, n - 1, base);
    }
  }

  /** A numeral with zeros in front. */
  ghost function Zeroed(zeros: nat, value: nat, base: nat, large: bool): seq<char>
    requires 2 <= base <= 36
  {
    Repeated('0', zeros) + Numeral(value, base, large)
  }

  /** A numeral after its zeros reads back as its value, up to the first character that is no digit of the base. */
  lemma NumeralReadsBack(s: seq<char>, i: nat, value: nat, base: nat, large: bool)
    requires 2 <= base <= 16 && value < WORD && Stands(s, i, Numeral(value, base, large))
    requires !IsDigitOf(CharAt(s, i + |Numeral(value, base, large)|), base)
    ensures ParseDigits(s, i, base, 0) == (value, i + |Numeral(value, base, large)|)
  {
    if value == 0 {
      ParseZero(s, i, base);
    } else {
      hide Digits, Stands, IsDigitOf, CharAt;
      DigitsReadBack(s, i, value, base, large);
      ParseStops(s, i + |Digits(value, base, large)|, base, value);
    }
  }

  lemma ParseStops(s: seq<char>, i: nat, base: nat, acc: nat)
    requires !IsDigitOf(CharAt(s, i), base)
    ensures ParseDigits(s, i, base, acc) == (acc, i)
  {
  }

  lemma ParseZero(s: seq<char>, i: nat, base: nat)
    requires 2 <= base <= 16 && Stands(s, i, ['0']) && !IsDigitOf(CharAt(s, i + 1), base)
    ensures ParseDigits(s, i, base, 0) == (0, i + 1)
  {
    hide IsDigitOf, CharAt, Stands;
    ParseStep(s, i, base, 0, 0, false);
    ParseStops(s, i + 1, base, 0);
  }

  lemma ZeroedReadsBack(s: seq<char>, i: nat, zeros: nat, value: nat, base: nat, large: bool)
    requires 2 <= base <= 16 && value < WORD && Stands(s, i, Zeroed(zeros, value, base, large))
    requires !IsDigitOf(CharAt(s, i + |Zeroed(zeros, value, base, large)|), base)
    ensures ParseDigits(s, i, base, 0) == (value, i + |Zeroed(zeros, value, base, large)|)
  {
    hide Stands, ParseDigits, IsDigitOf, CharAt, Numeral, Repeated;
    StandsSplit(s, i, Repeated('0', zeros), Numeral(value, base, large));
    ZerosReadBack(s, i, zeros, base);
    NumeralReadsBack(s, i + zeros, value, base, large);
  }

  /** A field with nothing but zeros between its prefix and its digits: padded with zeros, or not padded at all. */
  predicate Unspaced(num: nat, base: nat, width: int, precision: int, f: Flags)
    requires num < WORD && 2 <= base <= 36
  {
    (f.zeropad && !f.left) || width <= |SignText(num, f)| + |Prefix(base, f)| + |Body(num, base, precision, f)|
  }

  /** Such a field is sign, prefix, zeros and numeral. */
  lemma UnspacedText(num: nat, base: nat, width: int, precision: int, f: Flags) returns (zeros: nat)
    requires num < WORD && 2 <= base <= 36 && Unspaced(num, base, width, precision, f)
    ensures NumberText(num, base, width, precision, f) ==
            SignText(num, f) + (Prefix(base, f) + Zeroed(zeros, Magnitude(num, f), base, f.large))
    ensures width <= 0 && precision <= 0 ==> zeros == 0
  {
    hide Digits, Numeral, SignText, Prefix, Magnitude, Repeated;
    var sign, prefix, digits := SignText(num, f), Prefix(base, f), Numeral(Magnitude(num, f), base, f.large);
    var body := Body(num, base, precision, f);
    var pad, more := width - |sign + prefix| - |body|, precision - |digits|;
    zeros := Larger(pad, 0) + Larger(more, 0);
    JoinRepeated('0', pad, more);
    NoneRepeated(pad);
    UnpaddedText(num, base, width, precision, f, pad);
    Regroup(sign, prefix, Repeated('0', pad), Repeated('0', more), digits);
  }

  lemma UnpaddedText(num: nat, base: nat, width: int, precision: int, f: Flags, pad: int)
    requires num < WORD && 2 <= base <= 36 && Unspaced(num, base, width, precision, f)
    requires pad == width - |SignText(num, f) + Prefix(base, f)| - |Body(num, base, precision, f)|
    ensures NumberText(num, base, width, precision, f) ==
            SignText(num, f) + Prefix(base, f) + Repeated('0', pad) + Body(num, base, precision, f)
  {
    hide Digits, Numeral, SignText, Prefix, Magnitude, Repeated, Body;
    NoneRepeated(pad);
  }

  lemma JoinRepeated(c: char, m: int, n: int)
    ensures Repeated(c, m) + Repeated(c, n) == Repeated(c, Larger(m, 0) + Larger(n, 0))
  {
  }

  lemma NoneRepeated(n: int)
    ensures n <= 0 ==> forall c :: Repeated(c, n) == []
  {
  }

  lemma Regroup(a: seq<char>, b: seq<char>, c: seq<char>, d: seq<char>, e: seq<char>)
    ensures a + b + c + (d + e) == a + (b + ((c + d) + e))
  {
  }

  lemma NothingBefore(s: seq<char>)
    ensures [] + s == s
  {
  }

  /** An unsigned field is its prefix, zeros and its numeral. */
  lemma UnsignedText(num: nat, base: nat, width: int, precision: int, f: Flags) returns (zeros: nat)
    requires num < WORD && 2 <= base <= 36 && Unspaced(num, base, width, precision, f) && !f.sign
    ensures NumberText(num, base, width, precision, f) == Prefix(base, f) + Zeroed(zeros, num, base, f.large)
    ensures width <= 0 && precision <= 0 ==> zeros == 0
  {
    hide Unspaced, NumberText, Prefix, Zeroed;
    zeros := UnspacedText(num, base, width, precision, f);
    NothingBefore(Prefix(base, f) + Zeroed(zeros, num, base, f.large));
  }

  /** Printing in a base from 2 to 16, unpadded or padded with zeros, and parsing in the same base. The text may stand
      anywhere and be followed by anything that is no digit of the base. */
  lemma PrintParse(s: seq<char>, i: nat, num: nat, base: nat, width: int, precision: int, f: Flags)
    requires num < WORD && 2 <= base <= 16 && !f.sign && !f.special && Unspaced(num, base, width, precision, f)
    requires Stands(s, i, NumberText(num, base, width, precision, f))
    requires !IsDigitOf(CharAt(s, i + |NumberText(num, base, width, precision, f)|), base)
    ensures Unsigned(s, i, base) == (num, i + |NumberText(num, base, width, precision, f)|)
  {
    hide Unspaced, NumberText, Zeroed, Stands, IsDigitOf, CharAt, ParseDigits;
    var zeros := UnsignedText(num, base, width, precision, f);
    NothingBefore(Zeroed(zeros, num, base, f.large));
    ZeroedReadsBack(s, i, zeros, num, base, f.large);
  }

  /** `%#x`, lower case, read back with base zero. */
  lemma PrintParseHex(s: seq<char>, i: nat, num: nat, width: int, precision: int, f: Flags)
    requires num < WORD && !f.sign && f.special && !f.large && Unspaced(num, 16, width, precision, f)
    requires Stands(s, i, NumberText(num, 16, width, precision, f))
    requires !IsXdigit(CharAt(s, i + |NumberText(num, 16, width, precision, f)|))
    ensures Unsigned(s, i, 0) == (num, i + |NumberText(num, 16, width, precision, f)|)
  {
    hide Unspaced, NumberText, Zeroed, Stands, IsXdigit, CharAt, Unsigned;
    var zeros := UnsignedText(num, 16, width, precision, f);
    HexReadsBack(s, i, zeros, num);
  }

  lemma HexReadsBack(s: seq<char>, i: nat, zeros: nat, num: nat)
    requires num < WORD && Stands(s, i, ['0', 'x'] + Zeroed(zeros, num, 16, false))
    requires !IsXdigit(CharAt(s, i + |['0', 'x'] + Zeroed(zeros, num, 16, false)|))
    ensures Unsigned(s, i, 0) == (num, i + |['0', 'x'] + Zeroed(zeros, num, 16, false)|)
  {
    hide Zeroed, Stands, CharAt, ParseDigits, IsXdigit, DigitValue;
    StandsSplit(s, i, ['0', 'x'], Zeroed(zeros, num, 16, false));
    StandsTwo(s, i, '0', 'x');
    FirstDigit(s, i + 2, zeros, num, 16, false);
    ZeroedReadsBack(s, i + 2, zeros, num, 16, false);
  }

  lemma StandsFirst(s: seq<char>, i: nat, c: char)
    requires Stands(s, i, [c])
    ensures CharAt(s, i) == c
  {
    assert s[i] == s[i..i + 1][0];
  }

  lemma StandsTwo(s: seq<char>, i: nat, c: char, d: char)
    requires Stands(s, i, [c, d])
    ensures CharAt(s, i) == c && CharAt(s, i + 1) == d
  {
    assert [c, d] == [c] + [d];
    StandsSplit(s, i, [c], [d]);
    hide Stands, CharAt;
    StandsFirst(s, i, c);
    StandsFirst(s, i + 1, d);
  }

  /** A numeral starts with a digit, and not with zero unless it is preceded by zeros or is zero itself. */
  lemma FirstDigit(s: seq<char>, i: nat, zeros: nat, value: nat, base: nat, large: bool)
    requires 2 <= base <= 16 && Stands(s, i, Zeroed(zeros, value, base, large))
    ensures IsDigitOf(CharAt(s, i), base)
    ensures zeros == 0 && value > 0 ==> CharAt(s, i) != '0'
  {
    hide DigitValue, IsXdigit;
    var text := Zeroed(zeros, value, base, large);
    assert s[i] == s[i..i + |text|][0] == text[0];
    DigitReadsBack(0, false, base);
    if value > 0 { LeadingDigit(value, base, large); }
  }

  lemma {:induction false} LeadingDigit(value: nat, base: nat, large: bool)
    requires 2 <= base <= 16 && value > 0
    ensures var c := Digits(value, base, large)[0]; IsDigitOf(c, base) && c != '0'
    decreases value
  {
    hide DigitValue, IsXdigit;
    DivideStep(value, base);
    if value < base {
      DigitReadsBack(value, large, base);
    } else {
      LeadingDigit(value / base, base, large);
    }
  }

  /** `%#o` read back with base zero. */
  lemma PrintParseOctal(s: seq<char>, i: nat, num: nat, width: int, precision: int, f: Flags)
    requires num < WORD && !f.sign && f.special && Unspaced(num, 8, width, precision, f)
    requires Stands(s, i, NumberText(num, 8, width, precision, f))
    requires !IsDigitOf(CharAt(s, i + |NumberText(num, 8, width, precision, f)|), 8)
    ensures Unsigned(s, i, 0) == (num, i + |NumberText(num, 8, width, precision, f)|)
  {
    hide Unspaced, NumberText, Zeroed, Stands, IsDigitOf, CharAt, Unsigned;
    var zeros := UnsignedText(num, 8, width, precision, f);
    OctalReadsBack(s, i, zeros, num, f.large);
  }

  lemma OctalReadsBack(s: seq<char>, i: nat, zeros: nat, num: nat, large: bool)
    requires num < WORD && Stands(s, i, ['0'] + Zeroed(zeros, num, 8, large))
    requires !IsDigitOf(CharAt(s, i + |['0'] + Zeroed(zeros, num, 8, large)|), 8)
    ensures Unsigned(s, i, 0) == (num, i + |['0'] + Zeroed(zeros, num, 8, large)|)
  {
    hide Zeroed, Stands, CharAt, ParseDigits, IsDigitOf;
    StandsSplit(s, i, ['0'], Zeroed(zeros, num, 8, large));
    StandsFirst(s, i, '0');
    FirstDigit(s, i + 1, zeros, num, 8, large);
    NoLetter(CharAt(s, i + 1), 8);
    ZeroedReadsBack(s, i + 1, zeros, num, 8, large);
  }

  /** No digit is a minus sign or the letter of a prefix. */
  lemma NoLetter(c: char, base: nat)
    ensures IsDigitOf(c, base) ==> c != '-' && c != 'x'
  {
  }

  /** Unpadded decimal read back with base zero. */
  lemma PrintParseDecimal(s: seq<char>, i: nat, num: nat, f: Flags)
    requires num < WORD && !f.sign && Stands(s, i, NumberText(num, 10, -1, -1, f))
    requires !IsDigitOf(CharAt(s, i + |NumberText(num, 10, -1, -1, f)|), 10) && (num == 0 ==> CharAt(s, i + 1) != 'x')
    ensures Unsigned(s, i, 0) == (num, i + |NumberText(num, 10, -1, -1, f)|)
  {
    hide NumberText, Zeroed, Stands, IsDigitOf, CharAt, Unsigned;
    NotPadded(num, 10, f);
    var zeros := UnsignedText(num, 10, -1, -1, f);
    NothingBefore(Zeroed(0, num, 10, f.large));
    DecimalReadsBack(s, i, num, f.large);
  }

  lemma NotPadded(num: nat, base: nat, f: Flags)
    requires num < WORD && 2 <= base <= 36
    ensures Unspaced(num, base, -1, -1, f)
  {
    hide Body, SignText, Prefix;
  }

  lemma DecimalReadsBack(s: seq<char>, i: nat, num: nat, large: bool)
    requires num < WORD && Stands(s, i, Zeroed(0, num, 10, large))
    requires !IsDigitOf(CharAt(s, i + |Zeroed(0, num, 10, large)|), 10) && (num == 0 ==> CharAt(s, i + 1) != 'x')
    ensures Unsigned(s, i, 0) == (num, i + |Zeroed(0, num, 10, large)|)
  {
    if num == 0 {
      assert Zeroed(0, num, 10, large) == ['0'];
      hide Zeroed, Stands, CharAt, ParseDigits, IsXdigit, DigitValue;
      StandsFirst(s, i, '0');
      ParseStops(s, i + 1, 8, 0);
    } else {
      hide Zeroed, Stands, CharAt, ParseDigits, IsDigitOf;
      FirstDigit(s, i, 0, num, 10, large);
      ZeroedReadsBack(s, i, 0, num, 10, large);
    }
  }

  /** Signed decimal, unpadded or padded with zeros, read back by the signed parser. */
  lemma PrintParseSigned(s: seq<char>, i: nat, num: nat, width: int, precision: int, f: Flags)
    requires num < WORD && f.sign && !f.plus && !f.space && Unspaced(num, 10, width, precision, f)
    requires Stands(s, i, NumberText(num, 10, width, precision, f))
    requires !IsDigitOf(CharAt(s, i + |NumberText(num, 10, width, precision, f)|), 10)
    ensures Signed(s, i, 10) == (num, i + |NumberText(num, 10, width, precision, f)|)
  {
    hide Unspaced, NumberText, Zeroed, Stands, IsDigitOf, CharAt, Signed;
    var zeros := UnspacedText(num, 10, width, precision, f);
    NothingBefore(Zeroed(zeros, Magnitude(num, f), 10, f.large));
    SignedReadsBack(s, i, Negative(num, f), zeros, Magnitude(num, f), f.large);
  }

  ghost function MinusText(minus: bool): seq<char> { if minus then ['-'] else [] }

  /** An optional minus sign and then a numeral, read by the signed parser. */
  lemma SignedReadsBack(s: seq<char>, i: nat, minus: bool, zeros: nat, value: nat, large: bool)
    requires value < WORD && Stands(s, i, MinusText(minus) + Zeroed(zeros, value, 10, large))
    requires !IsDigitOf(CharAt(s, i + |MinusText(minus) + Zeroed(zeros, value, 10, large)|), 10)
    ensures Signed(s, i, 10) ==
            (if minus then Negated(value) else value, i + |MinusText(minus) + Zeroed(zeros, value, 10, large)|)
  {
    hide Zeroed, Stands, IsDigitOf, ParseDigits, CharAt, Negated;
    if minus {
      StandsSplit(s, i, ['-'], Zeroed(zeros, value, 10, large));
      StandsFirst(s, i, '-');
      ZeroedReadsBack(s, i + 1, zeros, value, 10, large);
    } else {
      NothingBefore(Zeroed(zeros, value, 10, large));
      NoLetter(CharAt(s, i), 10);
      FirstDigit(s, i, zeros, value, 10, large);
      ZeroedReadsBack(s, i, zeros, value, 10, large);
    }
  }

  /** Upper-case `%#X` never reads back with base zero: the parser knows only the lower-case prefix, takes the zero
      for an octal number and stops at the X. */
  lemma UpperPrefixLost(s: seq<char>, i: nat, num: nat, width: int, precision: int, f: Flags)
    requires num < WORD && !f.sign && f.special && f.large && Unspaced(num, 16, width, precision, f)
    requires Stands(s, i, NumberText(num, 16, width, precision, f))
    ensures Unsigned(s, i, 0) == (0, i + 1) && i + 1 < i + |NumberText(num, 16, width, precision, f)|
  {
    hide Unspaced, NumberText, Zeroed, Stands, CharAt, ParseDigits, DigitValue;
    var zeros := UnsignedText(num, 16, width, precision, f);
    StandsSplit(s, i, ['0', 'X'], Zeroed(zeros, num, 16, true));
    StandsTwo(s, i, '0', 'X');
    ParseStops(s, i + 1, 8, 0);
  }

  /** One round of the loop of skip_atoi. */
  lemma AtoiStep(s: seq<char>, i: nat, acc: nat, d: nat, large: bool)
    requires d < 10 && Stands(s, i, [DigitChar(d, large)])
    ensures DigitRun(s, i, acc) == DigitRun(s, i + 1, acc * 10 + d)
  {
    assert s[i] == s[i..i + 1][0] == DigitChar(d, large);
  }

  lemma {:induction false} AtoiDigits(s: seq<char>, i: nat, value: nat, large: bool)
    requires Stands(s, i, Digits(value, 10, large))
    ensures DigitRun(s, i, 0) == DigitRun(s, i + |Digits(value, 10, large)|, value)
    decreases value
  {
    hide DigitRun, Stands, DigitChar;
    if value > 0 {
      DivideStep(value, 10);
      var front, d := Digits(value / 10, 10, large), value % 10;
      StandsSplit(s, i, front, [DigitChar(d, large)]);
      AtoiDigits(s, i, value / 10, large);
      AtoiStep(s, i + |front|, value / 10, d, large);
    }
  }

  lemma {:induction false} AtoiZeros(s: seq<char>, i: nat, n: nat)
    requires Stands(s, i, Repeated('0', n))
    ensures DigitRun(s, i, 0) == DigitRun(s, i + n, 0)
    decreases n
  {
    hide DigitRun, Stands;
    if n > 0 {
      assert Repeated('0', n) == ['0'] + Repeated('0', n - 1);
      hide Repeated;
      StandsSplit(s, i, ['0'], Repeated('0', n - 1));
      AtoiStep(s, i, 0, 0, false);
      AtoiZeros(s, i + 1, n - 1);
    }
  }

  lemma AtoiStops(s: seq<char>, i: nat, acc: nat)
    requires !IsDigit(CharAt(s, i))
    ensures DigitRun(s, i, acc) == (acc, i)
  {
  }

  lemma AtoiNumeral(s: seq<char>, i: nat, value: nat, large: bool)
    requires Stands(s, i, Numeral(value, 10, large)) && !IsDigit(CharAt(s, i + |Numeral(value, 10, large)|))
    ensures DigitRun(s, i, 0) == (value, i + |Numeral(value, 10, large)|)
  {
    if value == 0 {
      hide DigitRun, Stands, CharAt, IsDigit;
      AtoiStep(s, i, 0, 0, false);
      AtoiStops(s, i + 1, 0);
    } else {
      hide Digits, DigitRun, Stands, CharAt, IsDigit;
      AtoiDigits(s, i, value, large);
      AtoiStops(s, i + |Digits(value, 10, large)|, value);
    }
  }

  /** skip_atoi inverts decimal printing for every value: zeros and a decimal numeral are read as the value, and exactly
      they are read. */
  lemma AtoiReadsBack(s: seq<char>, i: nat, zeros: nat, value: nat, large: bool)
    requires Stands(s, i, Zeroed(zeros, value, 10, large)) && !IsDigit(CharAt(s, i + |Zeroed(zeros, value, 10, large)|))
    ensures DigitRun(s, i, 0) == (value, i + |Zeroed(zeros, value, 10, large)|)
  {
    hide Stands, DigitRun, IsDigit, CharAt, Numeral, Repeated;
    StandsSplit(s, i, Repeated('0', zeros), Numeral(value, 10, large));
    AtoiZeros(s, i, zeros);
    AtoiNumeral(s, i + zeros, value, large);
  }

  /** What an `int` argument means to a signed conversion: its sign and its absolute value. */
  lemma IntArgument(d: Directive, f: Flags)
    requires d.args != [] && d.args[0].Int? && ArgOk(d.args[0]) && !IsQualifier(d.qualifier) && f.sign
    ensures var i, num := d.args[0].i, IntegerArg(d, true);
            num.Some? && (Negative(num.value, f) <==> i < 0) && Magnitude(num.value, f) == if i < 0 then -i else i
  {
  }

  /** What the `h` qualifier makes of an `int`: the number of 16 bits, signed or unsigned, that is equal to it modulo 2^16. */
  lemma ShortArgument(d: Directive, f: Flags)
    requires d.args != [] && d.args[0].Int? && ArgOk(d.args[0]) && d.qualifier == 'h'
    ensures var i, num := d.args[0].i, IntegerArg(d, f.sign);
            && num.Some?
            && var v: int := if Negative(num.value, f) then 0 - Magnitude(num.value, f) as int else Magnitude(num.value, f);
               (v - i) % 0x1_0000 == 0 && if f.sign then -0x8000 <= v < 0x8000 else 0 <= v < 0x1_0000
  {
  }

  /** The specification of `%l` and a conversion character. */
  ghost function LongSpec(w: nat): Directive { Directive(NO_FLAGS, -1, -1, 'l', 2, [Long(w)]) }

  lemma ReadLong(c: char, w: nat)
    ensures ReadDirective(['%', 'l', c], 0, [Long(w)]) == Some(LongSpec(w))
  {
  }

  lemma ConvertLong(c: char, w: nat)
    requires w < WORD && IsInteger(c)
    ensures Convert(['%', 'l', c], LongSpec(w)) == Some((NumberText(w, BaseOf(c), -1, -1, FlagsOf(c, NO_FLAGS)), 3, []))
  {
    hide NumberText;
    assert LongSpec(w).args[1..] == [];
  }

  /** `%l` and an integer conversion print one number. */
  lemma RenderLong(c: char, w: nat)
    requires w < WORD && IsInteger(c)
    ensures Render(['%', 'l', c], 0, [Long(w)]) == Some(NumberText(w, BaseOf(c), -1, -1, FlagsOf(c, NO_FLAGS)))
  {
    hide ReadDirective, Convert, NumberText;
    var fmt := ['%', 'l', c];
    ReadLong(c, w);
    ConvertLong(c, w);
    assert Render(fmt, 3, []) == Some([]);
    var text := NumberText(w, BaseOf(c), -1, -1, FlagsOf(c, NO_FLAGS));
    assert text + [] == text;
  }

  /** Formatting a 64-bit word with `%ld` and parsing it back. */
  lemma FormatParseLong(w: nat)
    requires w < WORD
    ensures var text := Render("%ld", 0, [Long(w)]);
            text.Some? && Signed(text.value, 0, 10) == (w, |text.value|)
  {
    hide NumberText, Render;
    RenderLong('d', w);
    var f := FlagsOf('d', NO_FLAGS);
    var text := NumberText(w, 10, -1, -1, f);
    assert text[0..|text|] == text;
    PrintParseSigned(text, 0, w, -1, -1, f);
  }

  /** Formatting a 64-bit word with `%lo`, `%lu`, `%lx` or `%lX` and parsing it in base 8, 10 or 16. */
  lemma FormatParseUnsigned(c: char, base: nat, w: nat)
    requires w < WORD && ((c, base) == ('o', 8) || (c, base) == ('u', 10) || (c, base) == ('x', 16) || (c, base) == ('X', 16))
    ensures var text := Render(['%', 'l', c], 0, [Long(w)]);
            text.Some? && Unsigned(text.value, 0, base) == (w, |text.value|)
  {
    hide NumberText, Render;
    RenderLong(c, w);
    var f := FlagsOf(c, NO_FLAGS);
    var text := NumberText(w, base, -1, -1, f);
    assert text[0..|text|] == text;
    PrintParse(text, 0, w, base, -1, -1, f);
  }
}
