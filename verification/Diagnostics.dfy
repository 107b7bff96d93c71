/** The text of the kernel's diagnostics (kernel/task.c), as the formatter renders it. */
module Diagnostics {
  import opened Machine
  import opened Options
  import opened PowersOfTwo
  import opened FormatText
  import opened Strtoul
  import opened FormatLaws
  import TaskSteps

  /** A part of a diagnostic: fixed text, `%u` of an `int`, `%ld` or `%016lx` of a 64-bit word. */
  datatype Piece = Plain(s: seq<char>) | Unsigned(n: nat) | Signed(w: nat) | Hex(w: nat) {
    function Format(): seq<char> {
      match this
      case Plain(s) => s
      case Unsigned(_) => "%u"
      case Signed(_) => "%ld"
      case Hex(_) => "%016lx"
    }

    function Args(): seq<Arg> {
      match this
      case Plain(_) => []
      case Unsigned(n) => [Int(n)]
      case Signed(w) => [Long(w)]
      case Hex(w) => [Long(w)]
    }

    predicate Ok() {
      match this
      case Plain(s) => '%' !in s && '\0' !in s
      case Unsigned(n) => n <= INT_MAX
      case Signed(w) => w < WORD
      case Hex(w) => w < WORD
    }

    function Text(): seq<char>
      requires Ok()
    {
      match this
      case Plain(s) => s
      case Unsigned(n) => NumberText(n, 10, -1, -1, NO_FLAGS)
      case Signed(w) => NumberText(w, 10, -1, -1, NO_FLAGS.(sign := true))
      case Hex(w) => NumberText(w, 16, 16, -1, NO_FLAGS.(zeropad := true))
    }
  }

  function FormatOf(ps: seq<Piece>): seq<char> { if ps == [] then [] else ps[0].Format() + FormatOf(ps[1..]) }

  function ArgsOf(ps: seq<Piece>): seq<Arg> { if ps == [] then [] else ps[0].Args() + ArgsOf(ps[1..]) }

  function TextOf(ps: seq<Piece>): seq<char>
    requires forall i :: 0 <= i < |ps| ==> ps[i].Ok()
  {
    if ps == [] then [] else ps[0].Text() + TextOf(ps[1..])
  }

  lemma PrependTwice(a: seq<char>, b: seq<char>, r: Option<seq<char>>)
    ensures Prepend(a, Prepend(b, r)) == Prepend(a + b, r)
  {
    if r.Some? { assert a + (b + r.value) == a + b + r.value; }
  }

  lemma PrependNothing(r: Option<seq<char>>)
    ensures Prepend([], r) == r
  {
    if r.Some? { assert [] + r.value == r.value; }
  }

  /** Fixed text is printed as it is. */
  lemma {:induction false} PlainPiece(fmt: seq<char>, i: nat, s: seq<char>, args: seq<Arg>)
    requires Stands(fmt, i, s) && '%' !in s && '\0' !in s
    ensures Render(fmt, i, args) == Prepend(s, Render(fmt, i + |s|, args))
    decreases |s|
  {
    if s == [] {
      PrependNothing(Render(fmt, i, args));
    } else {
      var c, rest := s[0], s[1..];
      assert s == [c] + rest;
      StandsSplit(fmt, i, [c], rest);
      StandsFirst(fmt, i, c);
      PlainChar(fmt, i, args);
      PlainPiece(fmt, i + 1, rest, args);
      PrependTwice([c], rest, Render(fmt, i + |s|, args));
    }
  }

  lemma PlainChar(fmt: seq<char>, i: nat, args: seq<Arg>)
    requires CharAt(fmt, i) != '%' && CharAt(fmt, i) != '\0'
    ensures Render(fmt, i, args) == Prepend([CharAt(fmt, i)], Render(fmt, i + 1, args))
  {
  }

  /** The characters of a short string that stands somewhere. */
  lemma StandsAt(fmt: seq<char>, i: nat, s: seq<char>, k: nat)
    requires Stands(fmt, i, s) && k < |s|
    ensures i + k < |fmt| && CharAt(fmt, i + k) == s[k]
  {
    assert fmt[i + k] == fmt[i..i + |s|][k];
  }

  lemma UnsignedSpec(fmt: seq<char>, i: nat, args: seq<Arg>)
    requires Stands(fmt, i, "%u")
    ensures i + 1 < |fmt| && CharAt(fmt, i) == '%' && CharAt(fmt, i + 1) == 'u'
    ensures ReadDirective(fmt, i, args) == Some(Directive(NO_FLAGS, -1, -1, ' ', i + 1, args))
  {
    StandsAt(fmt, i, "%u", 0);
    StandsAt(fmt, i, "%u", 1);
    hide Stands;
    assert FlagRun(fmt, i + 1, NO_FLAGS) == (NO_FLAGS, i + 1);
    hide FlagRun, DigitRun;
  }

  lemma UnsignedPiece(fmt: seq<char>, i: nat, n: nat, rest: seq<Arg>)
    requires Stands(fmt, i, "%u") && n <= INT_MAX
    ensures Render(fmt, i, [Int(n)] + rest) == Prepend(Unsigned(n).Text(), Render(fmt, i + 2, rest))
  {
    hide Stands, NumberText, Render, ReadDirective;
    var args := [Int(n)] + rest;
    UnsignedSpec(fmt, i, args);
    var d := Directive(NO_FLAGS, -1, -1, ' ', i + 1, args);
    assert args[1..] == rest && IntegerArg(d, false) == Some(n);
    Conversion(fmt, i, args, d, Unsigned(n).Text(), i + 2, rest);
  }

  lemma SignedSpec(fmt: seq<char>, i: nat, args: seq<Arg>)
    requires Stands(fmt, i, "%ld")
    ensures i + 2 < |fmt| && CharAt(fmt, i) == '%' && CharAt(fmt, i + 2) == 'd'
    ensures ReadDirective(fmt, i, args) == Some(Directive(NO_FLAGS, -1, -1, 'l', i + 2, args))
  {
    StandsAt(fmt, i, "%ld", 0);
    StandsAt(fmt, i, "%ld", 1);
    StandsAt(fmt, i, "%ld", 2);
    hide Stands;
    assert FlagRun(fmt, i + 1, NO_FLAGS) == (NO_FLAGS, i + 1);
    hide FlagRun, DigitRun;
  }

  lemma SignedPiece(fmt: seq<char>, i: nat, w: nat, rest: seq<Arg>)
    requires Stands(fmt, i, "%ld") && w < WORD
    ensures Render(fmt, i, [Long(w)] + rest) == Prepend(Signed(w).Text(), Render(fmt, i + 3, rest))
  {
    hide Stands, NumberText, Render, ReadDirective;
    var args := [Long(w)] + rest;
    SignedSpec(fmt, i, args);
    var d := Directive(NO_FLAGS, -1, -1, 'l', i + 2, args);
    assert args[1..] == rest && IntegerArg(d, true) == Some(w);
    Conversion(fmt, i, args, d, Signed(w).Text(), i + 3, rest);
  }

  lemma HexSpec(fmt: seq<char>, i: nat, args: seq<Arg>)
    requires Stands(fmt, i, "%016lx")
    ensures i < |fmt| && CharAt(fmt, i) == '%' && CharAt(fmt, i + 5) == 'x' && i + 5 < |fmt|
    ensures ReadDirective(fmt, i, args) == Some(Directive(NO_FLAGS.(zeropad := true), 16, -1, 'l', i + 5, args))
  {
    StandsAt(fmt, i, "%016lx", 0);
    StandsAt(fmt, i, "%016lx", 1);
    StandsAt(fmt, i, "%016lx", 2);
    StandsAt(fmt, i, "%016lx", 3);
    StandsAt(fmt, i, "%016lx", 4);
    StandsAt(fmt, i, "%016lx", 5);
    hide Stands;
    var f := NO_FLAGS.(zeropad := true);
    assert FlagRun(fmt, i + 2, f) == (f, i + 2);
    assert FlagRun(fmt, i + 1, NO_FLAGS) == (f, i + 2);
    assert DigitRun(fmt, i + 4, 16) == (16, i + 4);
    assert DigitRun(fmt, i + 3, 1) == (16, i + 4);
    assert DigitRun(fmt, i + 2, 0) == (16, i + 4);
  }

  lemma HexPiece(fmt: seq<char>, i: nat, w: nat, rest: seq<Arg>)
    requires Stands(fmt, i, "%016lx") && w < WORD
    ensures Render(fmt, i, [Long(w)] + rest) == Prepend(Hex(w).Text(), Render(fmt, i + 6, rest))
  {
    hide Stands, NumberText, Render, ReadDirective;
    var args := [Long(w)] + rest;
    HexSpec(fmt, i, args);
    var d := Directive(NO_FLAGS.(zeropad := true), 16, -1, 'l', i + 5, args);
    assert args[1..] == rest && IntegerArg(d, false) == Some(w);
    Conversion(fmt, i, args, d, Hex(w).Text(), i + 6, rest);
  }

  lemma OnePiece(fmt: seq<char>, i: nat, p: Piece, rest: seq<Arg>)
    requires Stands(fmt, i, p.Format()) && p.Ok()
    ensures Render(fmt, i, p.Args() + rest) == Prepend(p.Text(), Render(fmt, i + |p.Format()|, rest))
  {
    hide Stands, Render, NumberText;
    match p {
      case Plain(s) =>
        assert [] + rest == rest;
        PlainPiece(fmt, i, s, rest);
      case Unsigned(n) => UnsignedPiece(fmt, i, n, rest);
      case Signed(w) => SignedPiece(fmt, i, w, rest);
      case Hex(w) => HexPiece(fmt, i, w, rest);
    }
  }

  /** A format made of such pieces renders to the texts of the pieces, one after the other. */
  lemma {:induction false} RenderPieces(fmt: seq<char>, i: nat, ps: seq<Piece>)
    requires Stands(fmt, i, FormatOf(ps)) && i + |FormatOf(ps)| == |fmt| && forall k :: 0 <= k < |ps| ==> ps[k].Ok()
    ensures Render(fmt, i, ArgsOf(ps)) == Some(TextOf(ps))
    decreases |ps|
  {
    hide Stands, Render, Piece.Format, Piece.Text, Piece.Args, Piece.Ok, FormatOf, ArgsOf, TextOf;
    if ps == [] {
      NoPieces(fmt, i);
    } else {
      PiecesFirst(ps);
      StandsSplit(fmt, i, ps[0].Format(), FormatOf(ps[1..]));
      OnePiece(fmt, i, ps[0], ArgsOf(ps[1..]));
      RenderPieces(fmt, i + |ps[0].Format()|, ps[1..]);
    }
  }

  lemma NoPieces(fmt: seq<char>, i: nat)
    ensures FormatOf([]) == [] && (i == |fmt| ==> Render(fmt, i, ArgsOf([])) == Some(TextOf([])))
  {
  }

  lemma PiecesFirst(ps: seq<Piece>)
    requires ps != [] && forall k :: 0 <= k < |ps| ==> ps[k].Ok()
    ensures FormatOf(ps) == ps[0].Format() + FormatOf(ps[1..]) && ArgsOf(ps) == ps[0].Args() + ArgsOf(ps[1..])
    ensures TextOf(ps) == ps[0].Text() + TextOf(ps[1..])
  {
    hide Piece.Format, Piece.Text, Piece.Args, Piece.Ok;
  }

  /** What the kernel passes to printk for each diagnostic. */
  function PiecesOf(o: TaskSteps.Output): seq<Piece> {
    match o
    case Loaded(app, image, stack) =>
      [Plain("LOADED app="), Unsigned(app), Plain(" image="), Hex(image), Plain(" stack="), Hex(stack), Plain(" copy=OK\n")]
    case TrapSeen(app, origin, handler) =>
      [Plain("[app "), Unsigned(app), Plain("] TRAP origin="), Hex(origin), Plain(" handler="), Hex(handler), Plain("\n")]
    case FaultSeen(app, esr, far, elr) =>
      [Plain("[app "), Unsigned(app), Plain("] FAULT ESR="), Hex(esr), Plain(" FAR="), Hex(far), Plain(" ELR="), Hex(elr), Plain("\n")]
    case ExitSeen(app, status) => [Plain("[app "), Unsigned(app), Plain("] EXIT status="), Signed(status), Plain("\n")]
    case AllSeen => [Plain("ALL APPS DONE\n")]
    case Prefix(_) => []
    case Char(_) => []
  }

  /** The words of a diagnostic fit their types. */
  predicate Printable(o: TaskSteps.Output) {
    match o
    case Loaded(app, image, stack) => app <= INT_MAX && image < WORD && stack < WORD
    case TrapSeen(app, origin, handler) => app <= INT_MAX && origin < WORD && handler < WORD
    case FaultSeen(app, esr, far, elr) => app <= INT_MAX && esr < WORD && far < WORD && elr < WORD
    case ExitSeen(app, status) => app <= INT_MAX && status < WORD
    case _ => true
  }

  lemma PlainLoaded()
    ensures Plain("LOADED app=").Ok() && Plain(" image=").Ok() && Plain(" stack=").Ok() && Plain(" copy=OK\n").Ok()
  {
  }

  lemma PlainTrap()
    ensures Plain("[app ").Ok() && Plain("] TRAP origin=").Ok() && Plain(" handler=").Ok() && Plain("\n").Ok()
  {
  }

  lemma PlainEnd()
    ensures Plain("] FAULT ESR=").Ok() && Plain(" FAR=").Ok() && Plain(" ELR=").Ok() && Plain("] EXIT status=").Ok()
  {
  }

  lemma PlainAll()
    ensures Plain("ALL APPS DONE\n").Ok()
  {
  }

  lemma NumbersOk()
    ensures forall n: nat :: n <= INT_MAX ==> Unsigned(n).Ok()
    ensures forall w: nat :: w < WORD ==> Signed(w).Ok() && Hex(w).Ok()
  {
  }

  lemma PiecesOk(o: TaskSteps.Output)
    requires Printable(o)
    ensures forall i :: 0 <= i < |PiecesOf(o)| ==> PiecesOf(o)[i].Ok()
  {
    hide Piece.Ok;
    PlainLoaded();
    PlainTrap();
    PlainEnd();
    PlainAll();
    NumbersOk();
  }

  lemma {:induction false} HexDigits(value: nat, n: nat)
    requires value < Pow2(4 * n)
    ensures |Digits(value, 16, false)| <= n
  {
    if value > 0 {
      assert n > 0;
      var m := 4 * (n - 1);
      assert Pow2(m + 2) == 4 * Pow2(m) && Pow2(m + 4) == 4 * Pow2(m + 2);
      HexDigits(value / 16, n - 1);
    }
  }

  /** The 16 lower-case hexadecimal digits of a word. */
  ghost function HexText(w: nat): seq<char> {
    seq(16, i requires 0 <= i < 16 => HexChar(w, 15 - i))
  }

  /** The hexadecimal digit of the word in place `k` from the right. */
  ghost function HexChar(w: nat, k: nat): (c: char)
    ensures c in "0123456789abcdef"
  {
    "0123456789abcdef"[Place(w, 16, k)]
  }

  lemma {:induction false} PowerMonotone(base: nat, j: nat, k: nat)
    requires base > 0 && j <= k
    ensures Power(base, j) <= Power(base, k)
  {
    if j < k {
      PowerMonotone(base, j, k - 1);
      MulMonotone(Power(base, k - 1), 1, base);
    }
  }

  lemma LeadingPlace(w: nat, k: nat, n: nat)
    requires n <= k && w < Power(16, n)
    ensures Place(w, 16, k) == 0
  {
    PowerMonotone(16, n, k);
    DivModUnique(w, Power(16, k), 0, w);
  }

  lemma HexTable(d: nat)
    requires d < 16
    ensures Table(false)[d] == "0123456789abcdef"[d] && "0123456789abcdef"[0] == '0'
  {
  }

  lemma HexAt(w: nat, i: nat, digits: seq<char>)
    requires i < 16 && digits == Numeral(w, 16, false) && |digits| <= 16
    ensures HexChar(w, 15 - i) == if i < 16 - |digits| then '0' else digits[i - (16 - |digits|)]
  {
    hide Power, Numeral, Place, Table;
    HexTable(Place(w, 16, 15 - i));
    NumeralLength(w, 16, false);
    if i < 16 - |digits| {
      LeadingPlace(w, 15 - i, |digits|);
    } else {
      NumeralLaw(w, 16, false, i - (16 - |digits|));
    }
  }

  /** A `%016lx` field is 16 lower-case hexadecimal digits, each the digit of the word in its place; reading them gives the
      word. */
  lemma HexField(w: nat)
    requires w < WORD
    ensures |Hex(w).Text()| == 16 && Strtoul.Unsigned(Hex(w).Text(), 0, 16) == (w, 16)
    ensures Hex(w).Text() == HexText(w) && forall i :: 0 <= i < 16 ==> Hex(w).Text()[i] in "0123456789abcdef"
  {
    HexShape(w);
    hide HexText, Numeral, Repeated, Piece.Text;
    var text := Hex(w).Text();
    HexSame(w, text, Numeral(w, 16, false));
    HexRead(w);
  }

  /** Zeros and the numeral, 16 characters in all. */
  lemma HexShape(w: nat)
    requires w < WORD
    ensures var digits := Numeral(w, 16, false);
            |digits| <= 16 && Hex(w).Text() == Repeated('0', 16 - |digits|) + digits && |Hex(w).Text()| == 16
  {
    WordPower();
    HexDigits(w, 16);
    assert |Numeral(w, 16, false)| <= 16;
    hide Numeral, Repeated;
    var digits := Numeral(w, 16, false);
    RepeatedNone(-1 - |digits|);
    NothingBefore(digits);
  }

  lemma RepeatedNone(n: int)
    requires n <= 0
    ensures Repeated('0', n) == []
  {
  }

  lemma HexRead(w: nat)
    requires w < WORD && |Hex(w).Text()| == 16
    ensures Strtoul.Unsigned(Hex(w).Text(), 0, 16) == (w, 16)
  {
    hide NumberText, Strtoul.Unsigned;
    var text := Hex(w).Text();
    assert text[0..|text|] == text;
    PrintParse(text, 0, w, 16, 16, -1, NO_FLAGS.(zeropad := true));
  }

  lemma HexSame(w: nat, text: seq<char>, digits: seq<char>)
    requires digits == Numeral(w, 16, false) && |digits| <= 16 == |text| && text == Repeated('0', 16 - |digits|) + digits
    ensures text == HexText(w) && forall i :: 0 <= i < 16 ==> text[i] in "0123456789abcdef"
  {
    hide Numeral, HexChar;
    forall i: nat | i < 16
      ensures text[i] == HexChar(w, 15 - i)
    {
      HexAt(w, i, digits);
    }
  }

  /** The character that task_prefix puts in the place of the digit. */
  function PrefixChar(app: nat): char { (('0' as int + app) % 256) as char }

  /** The text of one output. */
  function OutputText(o: TaskSteps.Output): seq<char>
    requires Printable(o)
  {
    match o
    case Prefix(app) => "[app " + [PrefixChar(app)] + "] "
    case Char(c) => [c]
    case _ => PiecesOk(o); TextOf(PiecesOf(o))
  }

  /** The formatter prints every diagnostic as its pieces say. */
  lemma DiagnosticText(o: TaskSteps.Output)
    requires Printable(o) && !o.Prefix? && !o.Char?
    ensures Render(FormatOf(PiecesOf(o)), 0, ArgsOf(PiecesOf(o))) == Some(OutputText(o))
  {
    PiecesOk(o);
    hide PiecesOf, FormatOf, ArgsOf, Piece.Ok;
    var fmt := FormatOf(PiecesOf(o));
    assert fmt[0..|fmt|] == fmt;
    RenderPieces(fmt, 0, PiecesOf(o));
  }

  /** A word as a signed decimal number. */
  ghost function SignedText(w: nat): seq<char>
    requires w < 0x1_0000_0000_0000_0000
  {
    if w >= 0x8000_0000_0000_0000 then "-" + Numeral(0x1_0000_0000_0000_0000 - w, 10, false) else Numeral(w, 10, false)
  }

  lemma UnsignedIs(n: nat)
    requires n <= INT_MAX
    ensures Unsigned(n).Text() == Numeral(n, 10, false)
  {
    hide Numeral;
    RepeatedNone(-1 - |Numeral(n, 10, false)|);
  }

  lemma SignedIs(w: nat)
    requires w < WORD
    ensures Signed(w).Text() == SignedText(w)
  {
    hide Numeral;
    RepeatedNone(-1 - |Numeral(Magnitude(w, NO_FLAGS.(sign := true)), 10, false)|);
  }

  lemma HexIs(w: nat)
    requires w < WORD
    ensures Hex(w).Text() == HexText(w)
  {
    hide HexText, Piece.Text;
    HexField(w);
  }

  lemma Cons(p: Piece, rest: seq<Piece>)
    requires p.Ok() && forall i :: 0 <= i < |rest| ==> rest[i].Ok()
    ensures FormatOf([p] + rest) == p.Format() + FormatOf(rest)
    ensures ArgsOf([p] + rest) == p.Args() + ArgsOf(rest) && TextOf([p] + rest) == p.Text() + TextOf(rest)
  {
    hide Piece.Format, Piece.Args, Piece.Text, Piece.Ok;
    assert ([p] + rest)[1..] == rest;
  }

  /** Pieces joined one after the other. */
  lemma Joined3(a: Piece, b: Piece, c: Piece)
    requires a.Ok() && b.Ok() && c.Ok()
    ensures FormatOf([a, b, c]) == a.Format() + (b.Format() + c.Format())
    ensures ArgsOf([a, b, c]) == a.Args() + (b.Args() + c.Args())
    ensures TextOf([a, b, c]) == a.Text() + (b.Text() + c.Text())
  {
    hide Piece.Format, Piece.Args, Piece.Text, Piece.Ok;
    Cons(a, [b, c]);
    Cons(b, [c]);
    Cons(c, []);
  }

  lemma Joined5(a: Piece, b: Piece, c: Piece, d: Piece, e: Piece)
    requires a.Ok() && b.Ok() && c.Ok() && d.Ok() && e.Ok()
    ensures FormatOf([a, b, c, d, e]) == a.Format() + (b.Format() + (c.Format() + (d.Format() + e.Format())))
    ensures ArgsOf([a, b, c, d, e]) == a.Args() + (b.Args() + (c.Args() + (d.Args() + e.Args())))
    ensures TextOf([a, b, c, d, e]) == a.Text() + (b.Text() + (c.Text() + (d.Text() + e.Text())))
  {
    hide Piece.Format, Piece.Args, Piece.Text, Piece.Ok;
    Cons(a, [b, c, d, e]);
    Cons(b, [c, d, e]);
    Joined3(c, d, e);
  }

  lemma Joined7(a: Piece, b: Piece, c: Piece, d: Piece, e: Piece, f: Piece, g: Piece)
    requires a.Ok() && b.Ok() && c.Ok() && d.Ok() && e.Ok() && f.Ok() && g.Ok()
    ensures FormatOf([a, b, c, d, e, f, g]) ==
            a.Format() + (b.Format() + (c.Format() + (d.Format() + (e.Format() + (f.Format() + g.Format())))))
    ensures ArgsOf([a, b, c, d, e, f, g]) ==
            a.Args() + (b.Args() + (c.Args() + (d.Args() + (e.Args() + (f.Args() + g.Args())))))
    ensures TextOf([a, b, c, d, e, f, g]) ==
            a.Text() + (b.Text() + (c.Text() + (d.Text() + (e.Text() + (f.Text() + g.Text())))))
  {
    hide Piece.Format, Piece.Args, Piece.Text, Piece.Ok;
    Cons(a, [b, c, d, e, f, g]);
    Cons(b, [c, d, e, f, g]);
    Joined5(c, d, e, f, g);
  }

  lemma Joined9(a: Piece, b: Piece, c: Piece, d: Piece, e: Piece, f: Piece, g: Piece, h: Piece, i: Piece)
    requires a.Ok() && b.Ok() && c.Ok() && d.Ok() && e.Ok() && f.Ok() && g.Ok() && h.Ok() && i.Ok()
    ensures FormatOf([a, b, c, d, e, f, g, h, i]) ==
            a.Format() + (b.Format() + (c.Format() + (d.Format() + (e.Format() + (f.Format() + (g.Format() +
            (h.Format() + i.Format())))))))
    ensures ArgsOf([a, b, c, d, e, f, g, h, i]) ==
            a.Args() + (b.Args() + (c.Args() + (d.Args() + (e.Args() + (f.Args() + (g.Args() + (h.Args() + i.Args())))))))
    ensures TextOf([a, b, c, d, e, f, g, h, i]) ==
            a.Text() + (b.Text() + (c.Text() + (d.Text() + (e.Text() + (f.Text() + (g.Text() + (h.Text() + i.Text())))))))
  {
    hide Piece.Format, Piece.Args, Piece.Text, Piece.Ok;
    Cons(a, [b, c, d, e, f, g, h, i]);
    Cons(b, [c, d, e, f, g, h, i]);
    Joined7(c, d, e, f, g, h, i);
  }

  /** The messages: what is passed to printk, and what appears on the console. */
  lemma LoadedMessage(app: nat, image: nat, stack: nat)
    requires Printable(TaskSteps.Loaded(app, image, stack))
    ensures var o := TaskSteps.Loaded(app, image, stack);
            && FormatOf(PiecesOf(o)) ==
               "LOADED app=" + ("%u" + (" image=" + ("%016lx" + (" stack=" + ("%016lx" + " copy=OK\n")))))
            && ArgsOf(PiecesOf(o)) == [Int(app), Long(image), Long(stack)]
            && OutputText(o) ==
               "LOADED app=" + (Numeral(app, 10, false) + (" image=" + (HexText(image) + (" stack=" + (HexText(stack) +
               " copy=OK\n")))))
  {
    var o := TaskSteps.Loaded(app, image, stack);
    var ps := PiecesOf(o);
    PiecesOk(o);
    UnsignedIs(app);
    HexIs(image);
    HexIs(stack);
    hide FormatOf, ArgsOf, TextOf, HexText, SignedText, Numeral, NumberText, Piece.Ok;
    Joined7(ps[0], ps[1], ps[2], ps[3], ps[4], ps[5], ps[6]);
  }

  lemma TrapMessage(app: nat, origin: nat, handler: nat)
    requires Printable(TaskSteps.TrapSeen(app, origin, handler))
    ensures var o := TaskSteps.TrapSeen(app, origin, handler);
            && FormatOf(PiecesOf(o)) == "[app " + ("%u" + ("] TRAP origin=" + ("%016lx" + (" handler=" + ("%016lx" + "\n")))))
            && ArgsOf(PiecesOf(o)) == [Int(app), Long(origin), Long(handler)]
            && OutputText(o) ==
               "[app " + (Numeral(app, 10, false) + ("] TRAP origin=" + (HexText(origin) + (" handler=" + (HexText(handler) +
               "\n")))))
  {
    var o := TaskSteps.TrapSeen(app, origin, handler);
    var ps := PiecesOf(o);
    PiecesOk(o);
    UnsignedIs(app);
    HexIs(origin);
    HexIs(handler);
    hide FormatOf, ArgsOf, TextOf, HexText, SignedText, Numeral, NumberText, Piece.Ok;
    Joined7(ps[0], ps[1], ps[2], ps[3], ps[4], ps[5], ps[6]);
  }

  lemma FaultMessage(app: nat, esr: nat, far: nat, elr: nat)
    requires Printable(TaskSteps.FaultSeen(app, esr, far, elr))
    ensures var o := TaskSteps.FaultSeen(app, esr, far, elr);
            && FormatOf(PiecesOf(o)) ==
               "[app " + ("%u" + ("] FAULT ESR=" + ("%016lx" + (" FAR=" + ("%016lx" + (" ELR=" + ("%016lx" + "\n")))))))
            && ArgsOf(PiecesOf(o)) == [Int(app), Long(esr), Long(far), Long(elr)]
            && OutputText(o) ==
               "[app " + (Numeral(app, 10, false) + ("] FAULT ESR=" + (HexText(esr) + (" FAR=" + (HexText(far) + (" ELR=" +
               (HexText(elr) + "\n")))))))
  {
    var o := TaskSteps.FaultSeen(app, esr, far, elr);
    var ps := PiecesOf(o);
    PiecesOk(o);
    UnsignedIs(app);
    HexIs(esr);
    HexIs(far);
    HexIs(elr);
    hide FormatOf, ArgsOf, TextOf, HexText, SignedText, Numeral, NumberText, Piece.Ok;
    Joined9(ps[0], ps[1], ps[2], ps[3], ps[4], ps[5], ps[6], ps[7], ps[8]);
  }

  lemma ExitMessage(app: nat, status: nat)
    requires Printable(TaskSteps.ExitSeen(app, status))
    ensures var o := TaskSteps.ExitSeen(app, status);
            && FormatOf(PiecesOf(o)) == "[app " + ("%u" + ("] EXIT status=" + ("%ld" + "\n")))
            && ArgsOf(PiecesOf(o)) == [Int(app), Long(status)]
            && OutputText(o) == "[app " + (Numeral(app, 10, false) + ("] EXIT status=" + (SignedText(status) + "\n")))
  {
    var o := TaskSteps.ExitSeen(app, status);
    var ps := PiecesOf(o);
    PiecesOk(o);
    UnsignedIs(app);
    SignedIs(status);
    hide FormatOf, ArgsOf, TextOf, HexText, SignedText, Numeral, NumberText, Piece.Ok;
    Joined5(ps[0], ps[1], ps[2], ps[3], ps[4]);
  }

  lemma DoneMessage()
    ensures FormatOf(PiecesOf(TaskSteps.AllSeen)) == OutputText(TaskSteps.AllSeen) == "ALL APPS DONE\n"
    ensures ArgsOf(PiecesOf(TaskSteps.AllSeen)) == []
  {
    PiecesOk(TaskSteps.AllSeen);
    hide Piece.Ok, FormatOf, ArgsOf, TextOf;
    Single(PiecesOf(TaskSteps.AllSeen)[0]);
  }

  lemma Single(p: Piece)
    requires p.Ok()
    ensures FormatOf([p]) == p.Format() && ArgsOf([p]) == p.Args() && TextOf([p]) == p.Text()
  {
    hide Piece.Format, Piece.Args, Piece.Text, Piece.Ok;
    assert [p][1..] == [];
  }

  /** The prefix of a log line names the task in decimal exactly for the first ten tasks. */
  lemma PrefixNames(app: nat)
    ensures var text := OutputText(TaskSteps.Prefix(app));
            |text| == 8 && text[..5] == "[app " && text[5] as int == (48 + app) % 256 && text[6..] == "] "
    ensures OutputText(TaskSteps.Prefix(app)) == "[app " + Numeral(app, 10, false) + "] " <==> app < 10
  {
    PrefixDigit(app);
    assert PrefixChar(app) as int == (48 + app) % 256;
    hide Numeral, PrefixChar;
    var text, named := "[app " + [PrefixChar(app)] + "] ", "[app " + Numeral(app, 10, false) + "] ";
    if text == named {
      assert |text| == 8 && text[5] == named[5];
      assert [PrefixChar(app)] == Numeral(app, 10, false);
    }
  }

  lemma PrefixDigit(app: nat)
    ensures [PrefixChar(app)] == Numeral(app, 10, false) <==> app < 10
  {
    if app >= 10 {
      assert Digits(app, 10, false) == Digits(app / 10, 10, false) + [DigitChar(app % 10, false)];
      assert |Digits(app / 10, 10, false)| > 0;
    } else if app > 0 {
      assert Digits(0, 10, false) == [];
      assert app / 10 == 0;
      assert Digits(app, 10, false) == [DigitChar(app, false)];
    }
  }

  /** Registers are 64-bit words. */
  ghost predicate WordsOk(e: TaskSteps.Event) {
    e.syndrome < WORD && e.far < WORD && e.level < WORD && e.regs.pc < WORD && e.regs.Ok()
  }

  ghost predicate AllPrintable(console: seq<TaskSteps.Output>) {
    forall i :: 0 <= i < |console| ==> Printable(console[i])
  }

  /** Every trap writes only outputs whose text is defined. */
  lemma StepPrintable(s: TaskSteps.State, e: TaskSteps.Event, s': TaskSteps.State, out: TaskSteps.Outcome)
    requires TaskSteps.Step(s, e, s', out) && WordsOk(e) && AllPrintable(s.console) && |s.tasks| <= INT_MAX
    ensures AllPrintable(s'.console)
  {
  }
}
