/** The format strings of the logging printf: what each conversion asks for is what the state machine does. */
module LogFormat {
  import opened Bytes
  import opened Numerals
  import opened LogPrintf
  import opened Words

  /** An argument: 32 bits, a character or a string. */
  datatype Arg = Word(bits: nat) | Letter(c: char) | Text(s: string)

  datatype State = Chars | FirstFmtChar | OtherFmtChar

  /** The conversion as far as it has been read; a number not given is -1. */
  datatype Spec = Spec(zeros: bool, before: int, after: int)

  const FRESH: Spec := Spec(false, -1, -1)

  function MoreOf(number: int, digit: nat): int {
    (if number < 0 then 0 else 10 * number) + digit
  }

  predicate IsInteger(c: char) {
    c == 'd' || c == 'i' || c == 'u' || c == 'o' || c == 'x' || c == 'X'
  }

  function StyleOf(c: char, f: Spec): (st: Style)
    ensures IsBase(st.base)
  {
    var base := if c == 'o' then 8 else if c == 'x' || c == 'X' then 16 else 10;
    Style(base, c == 'd' || c == 'i', c == 'X', f.zeros, f.before)
  }

  /** What a conversion writes; nothing is defined when the argument is missing or of another kind. */
  function Converted(c: char, f: Spec, args: seq<Arg>): Option<string> {
    if IsInteger(c) then
      if args != [] && args[0].Word? && args[0].bits < WORD then Some(Field(args[0].bits, StyleOf(c, f))) else None
    else if c == 'c' then
      if args != [] && args[0].Letter? then Some(Repeat(' ', f.before - 1) + [args[0].c]) else None
    else if c == 's' then
      if args != [] && args[0].Text? then Some(Repeat(' ', f.before - |args[0].s|) + args[0].s) else None
    else Some([])
  }

  /** The arguments that are left after a conversion. */
  function Left(c: char, args: seq<Arg>): seq<Arg> {
    if (IsInteger(c) || c == 'c' || c == 's') && args != [] then args[1..] else args
  }

  function Then(s: Option<string>, t: Option<string>): Option<string> {
    if s.Some? && t.Some? then Some(s.value + t.value) else None
  }

  predicate IsDigit(c: char) {
    '0' <= c <= '9'
  }

  function WithDigit(f: Spec, d: nat): Spec {
    if f.after < 0 then f.(before := MoreOf(f.before, d)) else f.(after := 10 * f.after + d)
  }

  /** The characters the rest of a format string produces. */
  function Output(state: State, f: Spec, fmt: string, args: seq<Arg>): Option<string>
    decreases |fmt|
  {
    if fmt == [] then Some([])
    else
      var c, rest := fmt[0], fmt[1..];
      if state.Chars? then
        if c == '%' then Output(FirstFmtChar, FRESH, rest, args)
        else Then(Some([c]), Output(Chars, f, rest, args))
      else if state.FirstFmtChar? && c == '0' then Output(OtherFmtChar, f.(zeros := true), rest, args)
      else if state.FirstFmtChar? && c == '%' then Then(Some(['%']), Output(Chars, f, rest, args))
      else if c == '.' then Output(OtherFmtChar, f.(after := 0), rest, args)
      else if IsDigit(c) then Output(OtherFmtChar, WithDigit(f, DigitValue(c)), rest, args)
      else if c == 'l' then Output(OtherFmtChar, f, rest, args)
      else Then(Converted(c, f, args), Output(Chars, f, rest, Left(c, args)))
  }

  // ---------------------------------------------------------------- what a format string says

  /** A piece of a format string: a character, a percent sign, or a conversion. */
  datatype Piece =
    | Literal(c: char)
    | Percent
    | Conversion(zeros: bool, width: Option<nat>, precision: Option<nat>, long: bool, letter: char)

  predicate IsConversion(c: char) {
    IsInteger(c) || c == 'c' || c == 's'
  }

  predicate Proper(p: Piece) {
    match p
    case Literal(c) => c != '%'
    case Percent => true
    case Conversion(zeros, width, _, _, letter) => IsConversion(letter) && (!zeros && width.Some? ==> width.value > 0)
  }

  function Number(n: Option<nat>): string {
    if n.None? then [] else Digits(n.value, 10, false)
  }

  /** How the piece is spelled. */
  function Spelling(p: Piece): string {
    match p
    case Literal(c) => [c]
    case Percent => ['%', '%']
    case Conversion(zeros, width, precision, long, letter) =>
      ['%'] + ((if zeros then ['0'] else []) + (Number(width) + AfterWidth(precision, long, letter)))
  }

  function AfterWidth(precision: Option<nat>, long: bool, letter: char): string {
    (if precision.Some? then ['.'] + Number(precision) else []) + ((if long then ['l'] else []) + [letter])
  }

  function SpellAll(ps: seq<Piece>): string {
    if ps == [] then [] else Spelling(ps[0]) + SpellAll(ps[1..])
  }

  function GivenOrNot(n: Option<nat>): int {
    if n.None? then -1 else n.value
  }

  /** What the piece asks for.  The precision makes no difference, nor does the length: `long` and `int` are one
      size. */
  function Asks(p: Piece, args: seq<Arg>): Option<string> {
    match p
    case Literal(c) => Some([c])
    case Percent => Some(['%'])
    case Conversion(zeros, width, _, _, letter) =>
      Converted(letter, Spec(zeros, GivenOrNot(width), -1), args)
  }

  function ArgsLeft(p: Piece, args: seq<Arg>): seq<Arg> {
    if p.Conversion? && args != [] then args[1..] else args
  }

  function AskAll(ps: seq<Piece>, args: seq<Arg>): Option<string> {
    if ps == [] then Some([]) else Then(Asks(ps[0], args), AskAll(ps[1..], ArgsLeft(ps[0], args)))
  }

  // ---------------------------------------------------------------- one is the other

  lemma Prepended(c: char, t: string)
    ensures ([c] + t)[0] == c && ([c] + t)[1..] == t
  {
  }

  lemma TenTimes(q: nat)
    ensures Times(10, q) == 10 * q
  {
    TimesIs(10, q);
  }

  lemma DecimalDigit(d: nat)
    requires d < 10
    ensures IsDigit(DigitChar(d, false)) && DigitValue(DigitChar(d, false)) == d
    ensures DigitChar(d, false) == '0' <==> d == 0
  {
  }

  /** The width is read back from its numeral. */
  lemma {:induction false} WidthIsRead(f: Spec, w: nat, t: string, args: seq<Arg>)
    requires f.before == -1 && f.after < 0
    ensures Output(OtherFmtChar, f, Digits(w, 10, false) + t, args) == Output(OtherFmtChar, f.(before := w), t, args)
  {
    if w < 10 {
      DecimalDigit(w);
      Prepended(DigitChar(w, false), t);
    } else {
      var q, d := Quot(w, 10), Rem(w, 10);
      var last := DigitChar(d, false);
      assert Digits(w, 10, false) + t == Digits(q, 10, false) + ([last] + t);
      WidthIsRead(f, q, [last] + t, args);
      DecimalDigit(d);
      Prepended(last, t);
      Division(w, 10);
      TenTimes(q);
    }
  }

  /** So is the precision, to no effect on what is written. */
  lemma {:induction false} PrecisionIsRead(f: Spec, n: nat, t: string, args: seq<Arg>)
    requires f.after == 0
    ensures Output(OtherFmtChar, f, Digits(n, 10, false) + t, args) == Output(OtherFmtChar, f.(after := n), t, args)
  {
    if n < 10 {
      DecimalDigit(n);
      Prepended(DigitChar(n, false), t);
    } else {
      var q, d := Quot(n, 10), Rem(n, 10);
      var last := DigitChar(d, false);
      assert Digits(n, 10, false) + t == Digits(q, 10, false) + ([last] + t);
      PrecisionIsRead(f, q, [last] + t, args);
      DecimalDigit(d);
      Prepended(last, t);
      Division(n, 10);
      TenTimes(q);
    }
  }

  /** What was read of a conversion that is over plays no part any more. */
  lemma {:induction false} SpecIsForgotten(f: Spec, g: Spec, fmt: string, args: seq<Arg>)
    ensures Output(Chars, f, fmt, args) == Output(Chars, g, fmt, args)
    decreases |fmt|
  {
    if fmt != [] && fmt[0] != '%' {
      SpecIsForgotten(f, g, fmt[1..], args);
    }
  }

  lemma PrecisionIsIgnored(c: char, f: Spec, n: int, args: seq<Arg>)
    ensures Converted(c, f, args) == Converted(c, f.(after := n), args)
  {
  }

  lemma LetterConverts(f: Spec, letter: char, long: bool, t: string, args: seq<Arg>)
    requires IsConversion(letter)
    ensures Output(OtherFmtChar, f, (if long then ['l'] else []) + [letter] + t, args)
         == Then(Converted(letter, f.(after := -1), args), Output(Chars, FRESH, t, Left(letter, args)))
  {
    var s := [letter] + t;
    Prepended(letter, t);
    PrecisionIsIgnored(letter, f, -1, args);
    SpecIsForgotten(f, FRESH, t, Left(letter, args));
    assert Output(OtherFmtChar, f, s, args)
        == Then(Converted(letter, f, args), Output(Chars, f, t, Left(letter, args)));
    if long {
      assert ['l'] + [letter] + t == ['l'] + s;
      Prepended('l', s);
    } else {
      assert [] + [letter] + t == s;
    }
  }

  lemma AfterWidthConverts(f: Spec, precision: Option<nat>, long: bool, letter: char, t: string, args: seq<Arg>)
    requires IsConversion(letter) && f.after == -1
    ensures Output(OtherFmtChar, f, AfterWidth(precision, long, letter) + t, args)
         == Then(Converted(letter, f, args), Output(Chars, FRESH, t, Left(letter, args)))
  {
    var tail := (if long then ['l'] else []) + [letter];
    if precision.Some? {
      var n := precision.value;
      var numeral := Digits(n, 10, false);
      assert AfterWidth(precision, long, letter) + t == ['.'] + (numeral + (tail + t));
      Prepended('.', numeral + (tail + t));
      PrecisionIsRead(f.(after := 0), n, tail + t, args);
      LetterConverts(f.(after := n), letter, long, t, args);
    } else {
      assert AfterWidth(precision, long, letter) + t == tail + t;
      LetterConverts(f, letter, long, t, args);
    }
  }

  lemma WidthThenRest(f: Spec, p: Piece, t: string, args: seq<Arg>)
    requires p.Conversion? && IsConversion(p.letter) && f.before == -1 && f.after == -1
    ensures Output(OtherFmtChar, f, Number(p.width) + AfterWidth(p.precision, p.long, p.letter) + t, args)
         == Then(Converted(p.letter, f.(before := GivenOrNot(p.width)), args),
                 Output(Chars, FRESH, t, Left(p.letter, args)))
  {
    var after := AfterWidth(p.precision, p.long, p.letter);
    if p.width.Some? {
      var w := p.width.value;
      assert Number(p.width) + after + t == Digits(w, 10, false) + (after + t);
      WidthIsRead(f, w, after + t, args);
      AfterWidthConverts(f.(before := w), p.precision, p.long, p.letter, t, args);
    } else {
      assert Number(p.width) + after + t == after + t;
      AfterWidthConverts(f, p.precision, p.long, p.letter, t, args);
    }
  }

  lemma FirstIsOther(f: Spec, s: string, args: seq<Arg>)
    requires s != [] && s[0] != '0' && s[0] != '%'
    ensures Output(FirstFmtChar, f, s, args) == Output(OtherFmtChar, f, s, args)
  {
  }

  lemma BodyStarts(p: Piece, t: string)
    requires p.Conversion? && Proper(p) && !p.zeros
    ensures var s := Number(p.width) + AfterWidth(p.precision, p.long, p.letter) + t;
            s != [] && s[0] != '0' && s[0] != '%'
  {
    if p.width.Some? {
      NoLeadingZero(p.width.value, 10, false);
      DigitsAreDigits(p.width.value, 10, false);
    }
  }

  lemma PieceIsRead(p: Piece, f: Spec, t: string, args: seq<Arg>)
    requires Proper(p)
    ensures Output(Chars, f, Spelling(p) + t, args)
         == Then(Asks(p, args), Output(Chars, FRESH, t, ArgsLeft(p, args)))
  {
    match p
    case Literal(c) =>
      Prepended(c, t);
      SpecIsForgotten(f, FRESH, t, args);
    case Percent =>
      assert ['%', '%'] + t == ['%'] + (['%'] + t);
      Prepended('%', ['%'] + t);
      Prepended('%', t);
      SpecIsForgotten(FRESH, FRESH, t, args);
    case Conversion(zeros, _, _, _, _) =>
      var body := Number(p.width) + AfterWidth(p.precision, p.long, p.letter);
      ConversionSpelled(p, body, t);
      Prepended('%', (if p.zeros then ['0'] else []) + (body + t));
      ConversionIsRead(p, body, t, args);
  }

  lemma ConversionSpelled(p: Piece, body: string, t: string)
    requires p.Conversion? && body == Number(p.width) + AfterWidth(p.precision, p.long, p.letter)
    ensures Spelling(p) + t == ['%'] + ((if p.zeros then ['0'] else []) + (body + t))
  {
    var lead: string := if p.zeros then ['0'] else [];
    Associate(['%'], lead + body, t);
    Associate(lead, body, t);
  }

  lemma ConversionIsRead(p: Piece, body: string, t: string, args: seq<Arg>)
    requires Proper(p) && p.Conversion? && body == Number(p.width) + AfterWidth(p.precision, p.long, p.letter)
    ensures Output(FirstFmtChar, FRESH, (if p.zeros then ['0'] else []) + (body + t), args)
         == Then(Asks(p, args), Output(Chars, FRESH, t, ArgsLeft(p, args)))
  {
    WidthThenRest(FRESH.(zeros := p.zeros), p, t, args);
    if p.zeros {
      Prepended('0', body + t);
    } else {
      assert [] + (body + t) == body + t;
      BodyStarts(p, t);
      FirstIsOther(FRESH, body + t, args);
    }
  }

  /** A format string spelled from its pieces writes what each piece asks for, in order, each conversion taking the next
      argument. */
  lemma {:induction false} FormatMeansItsPieces(ps: seq<Piece>, args: seq<Arg>)
    requires forall i :: 0 <= i < |ps| ==> Proper(ps[i])
    ensures Output(Chars, FRESH, SpellAll(ps), args) == AskAll(ps, args)
  {
    if ps != [] {
      PieceIsRead(ps[0], FRESH, SpellAll(ps[1..]), args);
      FormatMeansItsPieces(ps[1..], ArgsLeft(ps[0], args));
    }
  }

  // ---------------------------------------------------------------- what the conversions write

  /** What a conversion alone writes. */
  function Alone(p: Piece, args: seq<Arg>): Option<string> {
    Output(Chars, FRESH, Spelling(p), args)
  }

  /** A conversion with neither width nor precision. */
  function Plain(letter: char): Piece {
    Conversion(false, None, None, false, letter)
  }

  lemma PlainIsSpelled(letter: char)
    ensures Spelling(Plain(letter)) == ['%', letter]
  {
  }

  lemma AloneAsks(p: Piece, args: seq<Arg>)
    requires Proper(p)
    ensures Alone(p, args) == Asks(p, args)
  {
    PieceIsRead(p, FRESH, [], args);
    assert Spelling(p) + [] == Spelling(p);
    if Asks(p, args).Some? {
      assert Asks(p, args).value + [] == Asks(p, args).value;
    }
  }

  /** The digits of a numeral are digits of its base, with letters of one case. */
  ghost predicate OfBase(s: string, base: nat, upper: bool) {
    forall i :: 0 <= i < |s| ==>
      DigitValue(s[i]) < base && (if upper then !('a' <= s[i] <= 'z') else !('A' <= s[i] <= 'Z'))
  }

  lemma DigitHasCase(d: nat, upper: bool)
    requires d < 36
    ensures var c := DigitChar(d, upper); if upper then !('a' <= c <= 'z') else !('A' <= c <= 'Z')
  {
  }

  lemma MoreOfBase(s: string, t: string, base: nat, upper: bool)
    requires OfBase(s, base, upper) && OfBase(t, base, upper)
    ensures OfBase(s + t, base, upper)
  {
  }

  lemma {:induction false} DigitsAreOfBase(v: nat, base: nat, upper: bool)
    requires 2 <= base <= 36
    ensures OfBase(Digits(v, base, upper), base, upper)
  {
    if v < base {
      DigitReadsBack(v, upper);
      DigitHasCase(v, upper);
    } else {
      DigitsAreOfBase(Quot(v, base), base, upper);
      DigitReadsBack(Rem(v, base), upper);
      DigitHasCase(Rem(v, base), upper);
      MoreOfBase(Digits(Quot(v, base), base, upper), [DigitChar(Rem(v, base), upper)], base, upper);
    }
  }

  /** `s` is the numeral of an integer: a minus sign if it is negative, and digits with no zero too many. */
  ghost predicate IsNumeral(s: string, value: int, base: nat, upper: bool) {
    && ReadInt(s, base) == value
    && if value < 0 then |s| > 1 && s[0] == '-' && OfBase(s[1..], base, upper) && s[1] != '0'
       else s != [] && OfBase(s, base, upper) && (s[0] == '0' ==> value == 0)
  }

  lemma BareIsNumeral(v: nat, st: Style)
    requires v < WORD && IsBase(st.base) && st.width == -1
    ensures IsNumeral(Field(v, st), Meaning(v, st), st.base, st.upper)
  {
    var n := Numeral(v, st);
    FieldReadsBack(v, st);
    FieldWidth(v, st);
    DigitsAreOfBase(Magnitude(v, st), st.base, st.upper);
    if Negative(v, st) {
      assert (['-'] + n)[1..] == n;
    } else {
      assert [] + n == n;
    }
  }

  /** The integer conversions: `%d` and `%i` write the signed decimal numeral of the argument, `%u` the decimal, `%o`
      the octal and `%x` and `%X` the hexadecimal numeral, in small and in capital letters, for every 32-bit
      argument. */
  lemma IntegersAreNumerals(letter: char, v: nat, args: seq<Arg>)
    requires letter in "diuoxX" && v < 0x1_0000_0000
    ensures var o := Output(Chars, FRESH, ['%', letter], [Word(v)] + args);
      && o.Some?
      && (letter == 'd' || letter == 'i' ==>
            IsNumeral(o.value, if v >= 0x8000_0000 then v - 0x1_0000_0000 else v, 10, false))
      && (letter == 'u' ==> IsNumeral(o.value, v, 10, false))
      && (letter == 'o' ==> IsNumeral(o.value, v, 8, false))
      && (letter == 'x' ==> IsNumeral(o.value, v, 16, false))
      && (letter == 'X' ==> IsNumeral(o.value, v, 16, true))
  {
    PlainIsSpelled(letter);
    AloneAsks(Plain(letter), [Word(v)] + args);
    BareIsNumeral(v, StyleOf(letter, FRESH));
  }

  /** Width and zeros: what is missing to the width is made up with blanks in front or, with a zero before the width,
      with zeros after the sign. */
  lemma IntegersArePadded(p: Piece, v: nat, args: seq<Arg>)
    requires Proper(p) && p.Conversion? && p.letter in "diuoxX" && v < 0x1_0000_0000
    ensures var o, bare := Alone(p, [Word(v)] + args), Alone(Plain(p.letter), [Word(v)] + args);
      && o.Some? && bare.Some? && bare.value != []
      && var room := if p.width.None? || p.width.value <= |bare.value| then 0 else p.width.value - |bare.value|;
      && o.value ==
         if !p.zeros then Repeat(' ', room) + bare.value
         else if bare.value[0] == '-' then ['-'] + Repeat('0', room) + bare.value[1..]
         else Repeat('0', room) + bare.value
  {
    var all := [Word(v)] + args;
    AloneAsks(p, all);
    AloneAsks(Plain(p.letter), all);
    var st := StyleOf(p.letter, Spec(p.zeros, GivenOrNot(p.width), -1));
    FieldPads(v, st);
    FieldWidth(v, StyleOf(p.letter, FRESH));
    assert StyleOf(p.letter, FRESH) == st.(zeros := false, width := -1);
  }

  /** Characters and strings are written as they are, behind blanks up to the width; a precision does not cut them. */
  lemma CharIsPadded(p: Piece, c: char, args: seq<Arg>)
    requires Proper(p) && p.Conversion? && p.letter == 'c'
    ensures Alone(p, [Letter(c)] + args)
         == Some(Repeat(' ', if p.width.Some? then p.width.value - 1 else 0) + [c])
  {
    var all := [Letter(c)] + args;
    AloneAsks(p, all);
    assert all[0] == Letter(c);
    NothingToRepeat(-2);
    NothingToRepeat(0);
  }

  lemma TextIsPadded(p: Piece, s: string, args: seq<Arg>)
    requires Proper(p) && p.Conversion? && p.letter == 's'
    ensures Alone(p, [Text(s)] + args)
         == Some(Repeat(' ', if p.width.Some? then p.width.value - |s| else 0) + s)
  {
    var all := [Text(s)] + args;
    AloneAsks(p, all);
    assert all[0] == Text(s);
    NothingToRepeat(-1 - |s|);
    NothingToRepeat(0);
  }

  lemma NothingToRepeat(n: int)
    requires n <= 0
    ensures Repeat(' ', n) == []
  {
  }

  /** A conversion takes the first argument, and what follows it has the others. */
  lemma ConversionTakesOne(p: Piece, t: string, arg: Arg, args: seq<Arg>)
    requires Proper(p) && p.Conversion?
    ensures Output(Chars, FRESH, Spelling(p) + t, [arg] + args)
         == Then(Alone(p, [arg] + args), Output(Chars, FRESH, t, args))
  {
    AloneAsks(p, [arg] + args);
    PieceIsRead(p, FRESH, t, [arg] + args);
    assert ([arg] + args)[1..] == args;
  }

  /** Anything else takes none: other characters are copied, a double percent sign writes one, and an unknown conversion
      letter writes nothing. */
  lemma OthersTakeNone(c: char, t: string, args: seq<Arg>)
    ensures c != '%' ==> Output(Chars, FRESH, [c] + t, args) == Then(Some([c]), Output(Chars, FRESH, t, args))
    ensures Output(Chars, FRESH, ['%', '%'] + t, args) == Then(Some(['%']), Output(Chars, FRESH, t, args))
    ensures c !in "diuoxXcsl.%0123456789" ==>
      Output(Chars, FRESH, ['%', c] + t, args) == Then(Some([]), Output(Chars, FRESH, t, args))
  {
    Prepended(c, t);
    PieceIsRead(Percent, FRESH, t, args);
    assert ['%', c] + t == ['%'] + ([c] + t);
    Prepended('%', [c] + t);
    if c !in "diuoxXcsl.%0123456789" {
      UnknownLetter(c);
    }
  }

  lemma UnknownLetter(c: char)
    requires c !in "diuoxXcsl.%0123456789"
    ensures !IsInteger(c) && c != 'c' && c != 's' && c != 'l' && c != '.' && c != '%' && c != '0' && !IsDigit(c)
  {
  }

  // ---------------------------------------------------------------- the code

  /** The integer, character and string conversions; others write nothing. */
  method Convert(out: Console, c: char, f: Spec, args: seq<Arg>) returns (left: seq<Arg>)
    requires Converted(c, f, args).Some?
    modifies out
    ensures out.sent == old(out.sent) + Converted(c, f, args).value && left == Left(c, args)
  {
    left := args;
    if IsInteger(c) {
      out.IntegerPrint(args[0].bits, StyleOf(c, f));
      left := args[1..];
    } else if c == 'c' {
      out.RepChar(' ', f.before - 1);
      out.TxChar(args[0].c);
      left := args[1..];
    } else if c == 's' {
      var s := args[0].s;
      out.RepChar(' ', f.before - |s|);
      var i := 0;
      while i < |s|
        invariant i <= |s| && out.sent == old(out.sent) + (Repeat(' ', f.before - |s|) + s[..i])
      {
        out.TxChar(s[i]);
        i := i + 1;
      }
      assert s[..i] == s;
      left := args[1..];
    }
  }

  lemma ThenMore(sent: string, a: string, rest: Option<string>, b: string)
    requires Then(Some(a), rest) == Some(b)
    ensures rest.Some? && sent + b == sent + a + rest.value
  {
  }

  method Print(out: Console, fmt: string, args: seq<Arg>)
    requires Output(Chars, FRESH, fmt, args).Some?
    modifies out
    ensures out.sent == old(out.sent) + Output(Chars, FRESH, fmt, args).value
  {
    var state, f, left := Chars, FRESH, args;
    var i := 0;
    ghost var whole := old(out.sent) + Output(Chars, FRESH, fmt, args).value;
    assert fmt[0..] == fmt;
    while i < |fmt|
      invariant i <= |fmt|
      invariant Output(state, f, fmt[i..], left).Some?
      invariant out.sent + Output(state, f, fmt[i..], left).value == whole
    {
      var c := fmt[i];
      ghost var now := Output(state, f, fmt[i..], left);
      assert fmt[i..][1..] == fmt[i + 1..];
      i := i + 1;
      if state.Chars? && c == '%' {
        f := FRESH;
        state := FirstFmtChar;
      } else if state.Chars? {
        ThenMore(out.sent, [c], Output(Chars, f, fmt[i..], left), now.value);
        out.TxChar(c);
      } else if state.FirstFmtChar? && c == '0' {
        f := f.(zeros := true);
        state := OtherFmtChar;
      } else if state.FirstFmtChar? && c == '%' {
        ThenMore(out.sent, ['%'], Output(Chars, f, fmt[i..], left), now.value);
        out.TxChar(c);
        state := Chars;
      } else {
        state := OtherFmtChar;
        if c == '.' {
          f := f.(after := 0);
        } else if IsDigit(c) {
          f := WithDigit(f, DigitValue(c));
        } else if c != 'l' {
          ThenMore(out.sent, Converted(c, f, left).value, Output(Chars, f, fmt[i..], Left(c, left)), now.value);
          left := Convert(out, c, f, left);
          state := Chars;
        }
      }
    }
  }
}
