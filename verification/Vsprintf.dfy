/** The bounded formatter (lib/vsprintf.c). */
module Vsprintf {
  import opened Machine
  import opened Options
  import opened PowersOfTwo
  import opened FormatText

  /** The buffer holds the part of `text` that fits into `size`; the rest of it is as it was. */
  ghost predicate Wrote(orig: seq<char>, now: seq<char>, size: nat, text: seq<char>) {
    && |now| == |orig|
    && forall i :: 0 <= i < |orig| ==> now[i] == if i < |text| && i < size then text[i] else orig[i]
  }

  /** One character, if it still fits; the position advances anyway. */
  method Put(buf: array<char>, size: nat, str: nat, c: char, ghost orig: seq<char>, ghost text: seq<char>) returns (next: nat)
    requires size <= buf.Length && Wrote(orig, buf[..], size, text) && str == |text|
    modifies buf
    ensures Wrote(orig, buf[..], size, text + [c]) && next == |text + [c]|
  {
    if str < size {
      buf[str] := c;
    }
    next := str + 1;
  }

  /** A padding loop; `n` counts down past zero. */
  method Fill(buf: array<char>, size: nat, str: nat, c: char, n: int, ghost orig: seq<char>, ghost text: seq<char>)
    returns (next: nat, left: int)
    requires size <= buf.Length && Wrote(orig, buf[..], size, text) && str == |text|
    modifies buf
    ensures Wrote(orig, buf[..], size, text + Repeated(c, n)) && next == |text + Repeated(c, n)|
    ensures left == if n > 0 then -1 else n - 1
  {
    next, left := str, n;
    ghost var done := [];
    assert text + done == text;
    while left > 0
      invariant (0 <= left <= n || left == n) && done == Repeated(c, n - left)
      invariant Wrote(orig, buf[..], size, text + done) && next == |text + done|
    {
      next := Put(buf, size, next, c, orig, text + done);
      left := left - 1;
      assert text + done + [c] == text + (done + [c]);
      done := done + [c];
    }
    assert done == Repeated(c, n);
    left := left - 1;
  }

  /** `tmp` holds the numeral with its last digit first. */
  ghost predicate Backwards(tmp: seq<char>, i: nat, numeral: seq<char>) {
    i == |numeral| <= |tmp| && forall k :: 0 <= k < i ==> tmp[k] == numeral[i - 1 - k]
  }

  /** The digit loop has moved the last `i` digits of `num` to `tmp`; `value` is what is left. */
  ghost predicate Moving(tmp: seq<char>, i: nat, num: nat, value: nat, base: nat, large: bool) {
    && 2 <= base <= 36 && i <= 64 && i <= |tmp| && value < Pow2(64 - i)
    && |Digits(num, base, large)| == |Digits(value, base, large)| + i
    && Digits(num, base, large)[..|Digits(value, base, large)|] == Digits(value, base, large)
    && forall k :: 0 <= k < i ==> tmp[k] == Digits(num, base, large)[|Digits(num, base, large)| - 1 - k]
  }

  /** Moving one more digit, `c`, the last of `value`; `q` is left. */
  lemma MovingStep(tmp: seq<char>, tmp': seq<char>, i: nat, num: nat, value: nat, q: nat, c: char, base: nat, large: bool)
    requires Moving(tmp, i, num, value, base, large) && value != 0 && i < |tmp| && tmp' == tmp[i := c]
    requires Digits(value, base, large) == Digits(q, base, large) + [c] && 2 * q <= value
    ensures i < 64 && Moving(tmp', i + 1, num, q, base, large)
  {
    var all, rest := Digits(num, base, large), Digits(value, base, large);
    assert i < 64 && Pow2(64 - i) == 2 * Pow2(64 - (i + 1));
    hide Digits, Pow2;
    assert all[|rest| - 1] == rest[|rest| - 1];
    assert all[..|rest| - 1] == rest[..|rest| - 1];
  }

  /** One division of the digit loop. */
  method NextDigit(value: nat, base: nat, large: bool) returns (q: nat, c: char)
    requires value > 0 && 2 <= base <= 36
    ensures 2 * q <= value && Digits(value, base, large) == Digits(q, base, large) + [c]
  {
    hide DigitChar;
    DivideStep(value, base);
    c := DigitChar(value % base, large);
    q := value / base;
  }

  /** The digits of a number, last first; 64 of the 66 places suffice for every base. */
  method ToDigits(num: nat, base: nat, large: bool, tmp: array<char>) returns (i: nat)
    requires num < WORD && 2 <= base <= 36 && tmp.Length == 66
    modifies tmp
    ensures i <= 64 && Backwards(tmp[..], i, Numeral(num, base, large))
  {
    i := 0;
    if num == 0 {
      tmp[i] := '0';
      i := i + 1;
    } else {
      var value: nat := num;
      MovingStart(tmp[..], num, base, large);
      hide Moving, DigitChar, Digits;
      while value != 0
        invariant Moving(tmp[..], i, num, value, base, large)
        invariant i <= 64
        decreases value
      {
        ghost var before := tmp[..];
        var q, c := NextDigit(value, base, large);
        tmp[i] := c;
        MovingStep(before, tmp[..], i, num, value, q, c, base, large);
        value := q;
        i := i + 1;
      }
      MovingEnd(tmp[..], i, num, base, large);
    }
  }

  lemma MovingStart(tmp: seq<char>, num: nat, base: nat, large: bool)
    requires num < WORD && 2 <= base <= 36
    ensures Moving(tmp, 0, num, num, base, large)
  {
    WordPower();
    hide Digits, Pow2;
    assert Digits(num, base, large)[..|Digits(num, base, large)|] == Digits(num, base, large);
  }

  lemma MovingEnd(tmp: seq<char>, i: nat, num: nat, base: nat, large: bool)
    requires Moving(tmp, i, num, 0, base, large) && num != 0
    ensures Backwards(tmp, i, Numeral(num, base, large))
  {
    assert Digits(0, base, large) == [];
    hide Digits, Pow2;
  }

  /** The digits out of `tmp`, first digit first. */
  method PutDigits(buf: array<char>, size: nat, str: nat, tmp: array<char>, i': nat, ghost numeral: seq<char>,
                   ghost orig: seq<char>, ghost text: seq<char>) returns (next: nat)
    requires size <= buf.Length && Wrote(orig, buf[..], size, text) && str == |text|
    requires buf != tmp && Backwards(tmp[..], i', numeral)
    modifies buf
    ensures Wrote(orig, buf[..], size, text + numeral) && next == |text + numeral|
  {
    var i := i';
    next := str;
    assert text + numeral[..0] == text;
    while i > 0
      invariant 0 <= i <= i' && next == |text + numeral[..i' - i]|
      invariant Wrote(orig, buf[..], size, text + numeral[..i' - i]) && Backwards(tmp[..], i', numeral)
    {
      i := i - 1;
      ghost var done := numeral[..i' - i - 1];
      assert tmp[i] == tmp[..][i] == numeral[i' - i - 1];
      next := Put(buf, size, next, tmp[i], orig, text + done);
      assert text + done + [numeral[i' - i - 1]] == text + numeral[..i' - i];
    }
    assert numeral[..i'] == numeral;
  }

  /** Sign and prefix of a number. */
  method PutHead(buf: array<char>, size: nat, str: nat, sign: char, base: nat, f: Flags, ghost num: nat,
                 ghost orig: seq<char>, ghost text: seq<char>) returns (next: nat)
    requires size <= buf.Length && Wrote(orig, buf[..], size, text) && str == |text|
    requires SignText(num, f) == if sign == '\0' then [] else [sign]
    modifies buf
    ensures Wrote(orig, buf[..], size, text + (SignText(num, f) + Prefix(base, f)))
    ensures next == |text + (SignText(num, f) + Prefix(base, f))|
  {
    hide Wrote;
    next := str;
    ghost var t := text;
    if sign != '\0' {
      next := Put(buf, size, next, sign, orig, t);
      t := t + [sign];
    }
    assert t == text + SignText(num, f);
    if f.special {
      if base == 8 {
        next := Put(buf, size, next, '0', orig, t);
        t := t + ['0'];
      } else if base == 16 {
        next := Put(buf, size, next, '0', orig, t);
        t := t + ['0'];
        next := Put(buf, size, next, DigitChar(33, f.large), orig, t);
        t := t + [DigitChar(33, f.large)];
      }
    }
    assert t == text + (SignText(num, f) + Prefix(base, f));
  }

  /** Padding, sign and prefix in front of the digits; returns what is left of the padding. */
  method PutFront(buf: array<char>, size: nat, str: nat, sign: char, base: nat, pad: int, c: char, f: Flags, ghost num: nat,
                  ghost orig: seq<char>, ghost text: seq<char>) returns (next: nat, left: int)
    requires size <= buf.Length && Wrote(orig, buf[..], size, text) && str == |text|
    requires SignText(num, f) == if sign == '\0' then [] else [sign]
    modifies buf
    ensures Wrote(orig, buf[..], size, text + Front(num, base, pad, c, f)) && next == |text + Front(num, base, pad, c, f)|
    ensures if f.left then left == pad else left <= 0
  {
    hide Wrote, Repeated, SignText, Prefix;
    next, left := str, pad;
    ghost var t, head := text, SignText(num, f) + Prefix(base, f);
    if !(f.zeropad || f.left) {
      next, left := Fill(buf, size, next, ' ', left, orig, t);
      t := t + Repeated(' ', pad);
    }
    next := PutHead(buf, size, next, sign, base, f, num, orig, t);
    t := t + head;
    ghost var rest := left;
    if !f.left {
      next, left := Fill(buf, size, next, c, left, orig, t);
      t := t + Repeated(c, rest);
    }
    RepeatedNone(c, rest);
    assert t == text + Front(num, base, pad, c, f);
  }

  lemma RepeatedNone(c: char, n: int)
    ensures n <= 0 ==> Repeated(c, n) == []
  {
  }

  ghost function Front(num: nat, base: nat, pad: int, c: char, f: Flags): seq<char> {
    (if f.zeropad || f.left then [] else Repeated(' ', pad)) + (SignText(num, f) + Prefix(base, f))
      + (if f.zeropad && !f.left then Repeated(c, pad) else [])
  }

  /** Everything after the sign has been worked out. */
  method Fields(buf: array<char>, size: nat, str: nat, ghost num: nat, value: nat, sign: char, base: nat, width: int,
                precision': int, c: char, f: Flags, ghost orig: seq<char>, ghost text: seq<char>) returns (next: nat)
    requires size <= buf.Length && Wrote(orig, buf[..], size, text) && str == |text|
    requires num < WORD && value == Magnitude(num, f) && 2 <= base <= 36
    requires SignText(num, f) == if sign == '\0' then [] else [sign]
    modifies buf
    ensures Wrote(orig, buf[..], size, text + Pieces(num, base, width, precision', c, f))
    ensures next == |text + Pieces(num, base, width, precision', c, f)|
  {
    hide Wrote, Numeral, Repeated, SignText, Front, Backwards;
    var tmp := new char[66];
    var i := ToDigits(value, base, f.large, tmp);
    ghost var numeral := Numeral(value, base, f.large);
    BackwardsLength(tmp[..], i, numeral);
    var precision := precision';
    if i > precision {
      precision := i;
    }
    var left := width - precision;
    next, left := PutFront(buf, size, str, sign, base, left, c, f, num, orig, text);
    ghost var t := text + Front(num, base, width - precision, c, f);
    var n;
    next, n := Fill(buf, size, next, '0', precision - i, orig, t);
    t := t + Repeated('0', precision - i);
    next := PutDigits(buf, size, next, tmp, i, numeral, orig, t);
    t := t + numeral;
    ghost var rest := left;
    next, left := Fill(buf, size, next, ' ', left, orig, t);
    t := t + Repeated(' ', rest);
    FieldsJoin(text, num, base, width, precision', c, f, rest);
  }

  lemma BackwardsLength(tmp: seq<char>, i: nat, numeral: seq<char>)
    requires Backwards(tmp, i, numeral)
    ensures i == |numeral|
  {
  }

  lemma FieldsJoin(text: seq<char>, num: nat, base: nat, width: int, precision: int, c: char, f: Flags, rest: int)
    requires num < WORD && 2 <= base <= 36
    requires var n := Larger(precision, |Numeral(Magnitude(num, f), base, f.large)|); if f.left then rest == width - n else rest <= 0
    ensures var numeral := Numeral(Magnitude(num, f), base, f.large);
            var n := Larger(precision, |numeral|);
            text + Front(num, base, width - n, c, f) + Repeated('0', n - |numeral|) + numeral + Repeated(' ', rest) ==
            text + Pieces(num, base, width, precision, c, f)
  {
    hide Numeral, Repeated, SignText, Prefix, Magnitude;
    var numeral := Numeral(Magnitude(num, f), base, f.large);
    var n := Larger(precision, |numeral|);
    RepeatedNone(' ', rest);
    RepeatedNone('0', n - |numeral|);
    RepeatedNone('0', precision - |numeral|);
    assert Body(num, base, precision, f) == Repeated('0', n - |numeral|) + numeral;
    assert Pieces(num, base, width, precision, c, f) ==
           Front(num, base, width - n, c, f) + Body(num, base, precision, f) + Repeated(' ', rest);
  }

  /** number: the field as it would be printed without bound, clipped to the buffer; null for an impossible base. */
  method Number(buf: array<char>, size: nat, str: nat, num': nat, base: nat, width: int, precision': int, f': Flags,
                ghost orig: seq<char>, ghost text: seq<char>) returns (next: Option<nat>)
    requires size <= buf.Length && Wrote(orig, buf[..], size, text) && str == |text| && num' < WORD
    modifies buf
    ensures next.None? <==> !(2 <= base <= 36)
    ensures next.None? ==> buf[..] == old(buf[..])
    ensures next.Some? ==> Wrote(orig, buf[..], size, text + NumberText(num', base, width, precision', f'))
    ensures next.Some? ==> next.value == |text + NumberText(num', base, width, precision', f')|
  {
    hide Wrote, Numeral, Pieces, NumberText, Repeated;
    var f, num, precision, left := f', num', precision', width;
    if f.left {
      f := f.(zeropad := false);
    }
    if base < 2 || base > 36 {
      return None;
    }
    var c := if f.zeropad then '0' else ' ';
    var sign := '\0';
    if f.sign {
      if num >= WORD / 2 {
        sign := '-';
        num := WORD - num;
        left := left - 1;
      } else if f.plus {
        sign := '+';
        left := left - 1;
      } else if f.space {
        sign := ' ';
        left := left - 1;
      }
    }
    if f.special {
      if base == 16 {
        left := left - 2;
      } else if base == 8 {
        left := left - 1;
      }
    }
    assert left == width - |SignText(num', f')| - |Prefix(base, f')| && num == Magnitude(num', f');
    assert SignText(num', f) == SignText(num', f') && Prefix(base, f) == Prefix(base, f');
    var end := Fields(buf, size, str, num', num, sign, base, left, precision, c, f, orig, text);
    FieldsText(num', base, width, precision', f', c);
    next := Some(end);
  }

  /** The pieces of a numeric field in the order they are written. */
  ghost function Pieces(num: nat, base: nat, left: int, precision: int, c: char, f: Flags): seq<char>
    requires num < WORD && 2 <= base <= 36
  {
    var head, body := SignText(num, f) + Prefix(base, f), Body(num, base, precision, f);
    var pad := left - |body|;
    (if f.zeropad || f.left then [] else Repeated(' ', pad)) + head
      + (if f.zeropad && !f.left then Repeated(c, pad) else []) + body + (if f.left then Repeated(' ', pad) else [])
  }

  lemma FieldsText(num: nat, base: nat, width: int, precision: int, f: Flags, c: char)
    requires num < WORD && 2 <= base <= 36 && (f.zeropad && !f.left ==> c == '0')
    ensures var g := if f.left then f.(zeropad := false) else f;
            Pieces(num, base, width - |SignText(num, f)| - |Prefix(base, f)|, precision, c, g) ==
            NumberText(num, base, width, precision, f)
  {
    hide Numeral, Repeated, SignText, Prefix, Body, Magnitude;
    ZeropadIrrelevant(num, base, precision, f);
    var head, body := SignText(num, f) + Prefix(base, f), Body(num, base, precision, f);
    var pad := width - |head| - |body|;
    if f.left {
      NothingBetween(head, body, Repeated(' ', pad));
    } else if f.zeropad {
      NothingAround(head, Repeated('0', pad), body);
    } else {
      NothingAfter(Repeated(' ', pad), head, body);
    }
  }

  lemma NothingBetween(a: seq<char>, b: seq<char>, c: seq<char>)
    ensures [] + a + [] + b + c == a + b + c
  {
  }

  lemma NothingAround(a: seq<char>, b: seq<char>, c: seq<char>)
    ensures [] + a + b + c + [] == a + b + c
  {
  }

  lemma NothingAfter(a: seq<char>, b: seq<char>, c: seq<char>)
    ensures a + b + [] + c + [] == a + b + c
  {
  }

  lemma ZeropadIrrelevant(num: nat, base: nat, precision: int, f: Flags)
    requires num < WORD && 2 <= base <= 36
    ensures var g := f.(zeropad := false);
            SignText(num, g) == SignText(num, f) && Prefix(base, g) == Prefix(base, f) &&
            Body(num, base, precision, g) == Body(num, base, precision, f) && Magnitude(num, g) == Magnitude(num, f)
  {
    hide Numeral, Repeated;
  }

  /** skip_atoi */
  method SkipAtoi(s: seq<char>, i: nat) returns (value: nat, next: nat)
    ensures (value, next) == DigitRun(s, i, 0)
  {
    value, next := 0, i;
    while IsDigit(CharAt(s, next))
      invariant DigitRun(s, next, value) == DigitRun(s, i, 0)
      decreases |s| - next
    {
      value := value * 10 + (CharAt(s, next) - '0') as nat;
      next := next + 1;
    }
  }

  /** strnlen; a negative count stands for no limit. */
  method Strnlen(s: seq<char>, count: int) returns (n: nat)
    ensures n == StringLength(s, 0, count)
  {
    var left := count;
    n := 0;
    while left != 0 && CharAt(s, n) != '\0'
      invariant n <= |s| && left == count - n && StringLength(s, n, count) == StringLength(s, 0, count)
      decreases |s| - n
    {
      left := left - 1;
      n := n + 1;
    }
  }

  /** The flag characters from `i` on. */
  method ReadFlags(fmt: seq<char>, i: nat) returns (f: Flags, at: nat)
    ensures (f, at) == FlagRun(fmt, i, NO_FLAGS)
  {
    f, at := NO_FLAGS, i;
    while IsFlag(CharAt(fmt, at))
      invariant FlagRun(fmt, at, f) == FlagRun(fmt, i, NO_FLAGS)
      decreases |fmt| - at
    {
      match CharAt(fmt, at) {
        case '-' => f := f.(left := true);
        case '+' => f := f.(plus := true);
        case ' ' => f := f.(space := true);
        case '#' => f := f.(special := true);
        case _ => f := f.(zeropad := true);
      }
      at := at + 1;
    }
  }

  /** The field width, from the format or the next argument. */
  method ReadWidth(fmt: seq<char>, f: Flags, i: nat, args: seq<Arg>) returns (d: Directive)
    requires WidthPart(fmt, f, i, args).Some?
    ensures Some(d) == WidthPart(fmt, f, i, args)
  {
    hide DigitRun;
    d := Directive(f, -1, -1, ' ', i, args);
    if IsDigit(CharAt(fmt, i)) {
      var width, at := SkipAtoi(fmt, i);
      d := d.(width := width, at := at);
    } else if CharAt(fmt, i) == '*' {
      var width := args[0].i;
      d := d.(at := i + 1, args := args[1..]);
      if width < 0 {
        width := -width;
        d := d.(f := f.(left := true));
      }
      d := d.(width := width);
    }
  }

  /** The precision, from the format or the next argument. */
  method ReadPrecision(fmt: seq<char>, d': Directive) returns (d: Directive)
    requires d'.precision == -1 && PrecisionPart(fmt, d').Some?
    ensures Some(d) == PrecisionPart(fmt, d')
  {
    hide DigitRun;
    d := d';
    if CharAt(fmt, d.at) == '.' {
      d := d.(at := d.at + 1);
      if IsDigit(CharAt(fmt, d.at)) {
        var precision, at := SkipAtoi(fmt, d.at);
        d := d.(precision := precision, at := at);
      } else if CharAt(fmt, d.at) == '*' {
        d := d.(precision := d.args[0].i, at := d.at + 1, args := d.args[1..]);
      }
      if d.precision < 0 {
        d := d.(precision := 0);
      }
    }
  }

  /** A conversion specification up to its conversion character. */
  method ReadSpec(fmt: seq<char>, i: nat, args: seq<Arg>) returns (d: Directive)
    requires i < |fmt| && ReadDirective(fmt, i, args).Some?
    ensures Some(d) == ReadDirective(fmt, i, args)
  {
    var f, at := ReadFlags(fmt, i + 1);
    d := ReadWidth(fmt, f, at, args);
    hide FlagRun, PrecisionPart;
    assert d.precision == -1;
    hide WidthPart;
    d := ReadPrecision(fmt, d);
    if IsQualifier(CharAt(fmt, d.at)) {
      d := d.(qualifier := CharAt(fmt, d.at), at := d.at + 1);
    }
  }

  /** The first `n` characters of a string, padded to a width. */
  method PutPadded(buf: array<char>, size: nat, str: nat, s: seq<char>, n: nat, width: int, left: bool,
                   ghost orig: seq<char>, ghost text: seq<char>) returns (next: nat)
    requires size <= buf.Length && Wrote(orig, buf[..], size, text) && str == |text| && n <= |s|
    modifies buf
    ensures Wrote(orig, buf[..], size, text + Padded(s[..n], width, left)) && next == |text + Padded(s[..n], width, left)|
  {
    hide Wrote, Repeated;
    next := str;
    var pad := width - n;
    ghost var t := text;
    if !left {
      next, pad := Fill(buf, size, next, ' ', pad, orig, t);
      t := t + Repeated(' ', width - n);
    }
    ghost var front := t;
    assert front + s[..0] == front;
    for i := 0 to n
      invariant Wrote(orig, buf[..], size, front + s[..i]) && next == |front + s[..i]|
    {
      next := Put(buf, size, next, s[i], orig, front + s[..i]);
      assert front + s[..i] + [s[i]] == front + s[..i + 1];
    }
    ghost var rest := pad;
    next, pad := Fill(buf, size, next, ' ', pad, orig, front + s[..n]);
    RepeatedNone(' ', rest);
    assert front + s[..n] + Repeated(' ', rest) == text + Padded(s[..n], width, left);
  }

  /** One conversion. */
  method PutConversion(buf: array<char>, size: nat, str: nat, fmt: seq<char>, d: Directive,
                       ghost orig: seq<char>, ghost text: seq<char>) returns (next: nat, at: nat, rest: seq<Arg>)
    requires size <= buf.Length && Wrote(orig, buf[..], size, text) && str == |text|
    requires d.at <= |fmt| && Convert(fmt, d).Some?
    modifies buf
    ensures Wrote(orig, buf[..], size, text + Convert(fmt, d).value.0) && next == |text + Convert(fmt, d).value.0|
    ensures (at, rest) == (Convert(fmt, d).value.1, Convert(fmt, d).value.2)
  {
    hide Wrote, NumberText, Padded, StringLength;
    var c := CharAt(fmt, d.at);
    at, rest := d.at + 1, d.args;
    match c {
      case 'c' =>
        rest := d.args[1..];
        next := PutPadded(buf, size, str, [(d.args[0].i % 256) as char], 1, d.width, d.f.left, orig, text);
        assert [(d.args[0].i % 256) as char][..1] == [(d.args[0].i % 256) as char];
      case 's' =>
        var s := if d.args[0].NullStr? then "<NULL>" else d.args[0].s;
        rest := d.args[1..];
        var len := Strnlen(s, d.precision);
        next := PutPadded(buf, size, str, s, len, d.width, d.f.left, orig, text);
      case 'p' =>
        rest := d.args[1..];
        var end;
        if d.width == -1 {
          end := Number(buf, size, str, d.args[0].w, 16, 16, d.precision, d.f.(zeropad := true), orig, text);
        } else {
          end := Number(buf, size, str, d.args[0].w, 16, d.width, d.precision, d.f, orig, text);
        }
        next := end.value;
      case '%' =>
        next := Put(buf, size, str, '%', orig, text);
      case _ =>
        if IsInteger(c) {
          var f := FlagsOf(c, d.f);
          rest := d.args[1..];
          var end := Number(buf, size, str, IntegerArg(d, f.sign).value, BaseOf(c), d.width, d.precision, f, orig, text);
          next := end.value;
        } else {
          next := Put(buf, size, str, '%', orig, text);
          if c != '\0' {
            next := Put(buf, size, next, c, orig, text + ['%']);
            assert text + ['%'] + [c] == text + ['%', c];
          } else {
            at := d.at;
          }
        }
    }
  }

  lemma RenderPlain(fmt: seq<char>, i: nat, args: seq<Arg>)
    requires CharAt(fmt, i) != '\0' && CharAt(fmt, i) != '%' && Render(fmt, i, args).Some?
    ensures Render(fmt, i + 1, args).Some? && Render(fmt, i, args).value == [CharAt(fmt, i)] + Render(fmt, i + 1, args).value
  {
  }

  lemma RenderConversion(fmt: seq<char>, i: nat, args: seq<Arg>)
    requires CharAt(fmt, i) == '%' && Render(fmt, i, args).Some?
    ensures i < |fmt| && ReadDirective(fmt, i, args).Some? && Convert(fmt, ReadDirective(fmt, i, args).value).Some?
    ensures var (t, j, rest) := Convert(fmt, ReadDirective(fmt, i, args).value).value;
            i < j && Render(fmt, j, rest).Some? && Render(fmt, i, args).value == t + Render(fmt, j, rest).value
  {
  }

  lemma RenderEnd(fmt: seq<char>, i: nat, args: seq<Arg>)
    requires CharAt(fmt, i) == '\0'
    ensures Render(fmt, i, args) == Some([])
  {
  }

  /** The text before position `i` is written; the rest of the rendering is still to come. */
  ghost predicate Halfway(fmt: seq<char>, args: seq<Arg>, i: nat, rest: seq<Arg>, text: seq<char>) {
    && Render(fmt, 0, args).Some? && Render(fmt, i, rest).Some?
    && Render(fmt, 0, args).value == text + Render(fmt, i, rest).value
  }

  /** One round of the main loop. */
  method PutNext(buf: array<char>, size: nat, str: nat, fmt: seq<char>, i: nat, rest: seq<Arg>, ghost args: seq<Arg>,
                 ghost orig: seq<char>, ghost text: seq<char>)
    returns (next: nat, i': nat, rest': seq<Arg>, ghost text': seq<char>)
    requires size <= buf.Length && Wrote(orig, buf[..], size, text) && str == |text|
    requires i < |fmt| && CharAt(fmt, i) != '\0' && Halfway(fmt, args, i, rest, text)
    modifies buf
    ensures Wrote(orig, buf[..], size, text') && next == |text'|
    ensures i < i' && Halfway(fmt, args, i', rest', text')
  {
    hide Wrote, Render, ReadDirective, Convert;
    if CharAt(fmt, i) != '%' {
      RenderPlain(fmt, i, rest);
      next := Put(buf, size, str, CharAt(fmt, i), orig, text);
      i', rest', text' := i + 1, rest, text + [CharAt(fmt, i)];
      assert text + Render(fmt, i, rest).value == text' + Render(fmt, i', rest').value;
    } else {
      RenderConversion(fmt, i, rest);
      var d := ReadSpec(fmt, i, rest);
      text' := text + Convert(fmt, d).value.0;
      next, i', rest' := PutConversion(buf, size, str, fmt, d, orig, text);
      assert text + Render(fmt, i, rest).value == text' + Render(fmt, i', rest').value;
    }
  }

  /** vsnprintf: the buffer gets the first characters of the whole text that fit before a terminating NUL, nothing at or
      past `size` is touched, and the length of the whole text is returned whatever the size. */
  method Vsnprintf(buf: array<char>, size: nat, fmt: seq<char>, args: seq<Arg>) returns (len: nat)
    requires size <= buf.Length && Render(fmt, 0, args).Some? && |Render(fmt, 0, args).value| <= TEXT_LIMIT
    modifies buf
    ensures len == |Render(fmt, 0, args).value|
    ensures size == 0 ==> buf[..] == old(buf[..])
    ensures size > 0 ==> var n := if len < size then len else size - 1;
              buf[..] == Render(fmt, 0, args).value[..n] + ['\0'] + old(buf[..])[n + 1..]
  {
    hide Render;
    ghost var orig, text := buf[..], [];
    var str, i, rest := 0, 0, args;
    assert Wrote(orig, buf[..], size, text);
    hide Wrote;
    while CharAt(fmt, i) != '\0'
      invariant Wrote(orig, buf[..], size, text) && str == |text| && Halfway(fmt, args, i, rest, text)
      decreases |fmt| - i
    {
      str, i, rest, text := PutNext(buf, size, str, fmt, i, rest, args, orig, text);
    }
    RenderEnd(fmt, i, rest);
    assert Render(fmt, 0, args).value == text;
    Terminate(buf, size, str, orig, text);
    len := str;
  }

  /** The terminating NUL, after the text or at the end of the buffer. */
  method Terminate(buf: array<char>, size: nat, str: nat, ghost orig: seq<char>, ghost text: seq<char>)
    requires size <= buf.Length && Wrote(orig, buf[..], size, text) && str == |text|
    modifies buf
    ensures size == 0 ==> buf[..] == orig
    ensures size > 0 ==> var n := if str < size then str else size - 1; n < |orig| && buf[..] == text[..n] + ['\0'] + orig[n + 1..]
  {
    if str < size {
      buf[str] := '\0';
    } else if size > 0 {
      buf[size - 1] := '\0';
    }
    if size > 0 {
      ghost var n := if str < size then str else size - 1;
      assert |text[..n] + ['\0'] + orig[n + 1..]| == |buf[..]|;
      forall k | 0 <= k < buf.Length
        ensures buf[k] == (text[..n] + ['\0'] + orig[n + 1..])[k]
      {
      }
    }
  }
}
