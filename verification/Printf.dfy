/** Positional numerals: writing, fixed-width writing, and reading back. */
module Numerals {
  import opened Bytes

  function DigitChar(d: nat, upper: bool): (c: char)
    requires d < 36
  {
    if d < 10 then '0' + d as char else if upper then 'A' + (d - 10) as char else 'a' + (d - 10) as char
  }

  /** The value of a digit, and 36 for what is no digit. */
  function DigitValue(c: char): nat {
    if '0' <= c <= '9' then c as int - '0' as int
    else if 'a' <= c <= 'z' then c as int - 'a' as int + 10
    else if 'A' <= c <= 'Z' then c as int - 'A' as int + 10
    else 36
  }

  lemma DigitIsUsual(d: nat)
    requires d < 16
    ensures DigitChar(d, false) == "0123456789abcdef"[d] && DigitChar(d, true) == "0123456789ABCDEF"[d]
  {
  }

  lemma DigitReadsBack(d: nat, upper: bool)
    requires d < 36
    ensures DigitValue(DigitChar(d, upper)) == d
    ensures DigitChar(d, upper) != ' ' && DigitChar(d, upper) != '-'
    ensures DigitChar(d, upper) == '0' <==> d == 0
  {
  }

  /** The quotient, by repeated subtraction. */
  function Quot(v: nat, b: nat): (q: nat)
    requires b > 0
    ensures v < b ==> q == 0
    ensures b <= v ==> 0 < q
    ensures b <= v && b > 1 ==> q < v
  {
    if v < b then 0 else 1 + Quot(v - b, b)
  }

  function Rem(v: nat, b: nat): (r: nat)
    requires b > 0
    ensures r < b
  {
    if v < b then v else Rem(v - b, b)
  }

  /** The numeral of `v`. */
  function Digits(v: nat, b: nat, upper: bool): (s: string)
    requires 2 <= b <= 36
    ensures s != []
  {
    if v < b then [DigitChar(v, upper)] else Digits(Quot(v, b), b, upper) + [DigitChar(Rem(v, b), upper)]
  }

  /** The last `k` digits of `v`. */
  function Fixed(v: nat, b: nat, k: nat, upper: bool): (s: string)
    requires 2 <= b <= 36
    ensures |s| == k
    decreases k
  {
    if k == 0 then [] else Fixed(Quot(v, b), b, k - 1, upper) + [DigitChar(Rem(v, b), upper)]
  }

  /** The number a numeral stands for. */
  function Value(s: string, b: nat): nat {
    if s == [] then 0 else Times(b, Value(s[..|s| - 1], b)) + DigitValue(s[|s| - 1])
  }

  function Power(b: nat, k: nat): (r: nat)
    requires b > 0
    ensures r > 0
  {
    if k == 0 then 1 else Times(b, Power(b, k - 1))
  }

  /** The product, as repeated addition. */
  function Times(a: nat, c: nat): (r: nat)
    ensures a > 0 && c > 0 ==> r > 0
  {
    if a == 0 then 0 else c + Times(a - 1, c)
  }

  lemma {:induction false} QuotIs(v: nat, b: nat)
    requires b > 0
    ensures Quot(v, b) == v / b && Rem(v, b) == v % b
  {
    if v >= b {
      QuotIs(v - b, b);
      DivisionIsUnique(v, b, (v - b) / b + 1, (v - b) % b);
    } else {
      DivisionIsUnique(v, b, 0, v);
    }
  }

  lemma {:induction false} TimesPlus(b: nat, x: nat, y: nat)
    ensures Times(b, x + y) == Times(b, x) + Times(b, y)
  {
    if b > 0 {
      TimesPlus(b - 1, x, y);
    }
  }

  lemma {:induction false} TimesOnto(b: nat, p: nat, x: nat)
    ensures Times(b + p, x) == Times(b, x) + Times(p, x)
  {
    if b > 0 {
      TimesOnto(b - 1, p, x);
    }
  }

  lemma {:induction false} TimesAssoc(b: nat, p: nat, x: nat)
    ensures Times(Times(b, p), x) == Times(b, Times(p, x))
  {
    if b > 0 {
      TimesAssoc(b - 1, p, x);
      TimesOnto(p, Times(b - 1, p), x);
    }
  }

  lemma {:induction false} TimesOrdered(b: nat, x: nat, y: nat)
    requires x <= y
    ensures Times(b, x) <= Times(b, y)
  {
    if b > 0 {
      TimesOrdered(b - 1, x, y);
    }
  }

  lemma {:induction false} TimesOne(b: nat)
    ensures Times(b, 0) == 0 && Times(b, 1) == b
  {
    if b > 0 {
      TimesOne(b - 1);
    }
  }

  lemma {:induction false} TimesIs(a: nat, c: nat)
    ensures Times(a, c) == a * c
  {
    if a > 0 {
      TimesIs(a - 1, c);
    }
  }

  lemma {:induction false} TimesSwap(a: nat, c: nat)
    ensures Times(a, c) == Times(c, a)
  {
    TimesOne(c);
    if a > 0 {
      TimesSwap(a - 1, c);
      TimesPlus(c, a - 1, 1);
    }
  }

  lemma {:induction false} Division(v: nat, b: nat)
    requires b > 0
    ensures v == Times(b, Quot(v, b)) + Rem(v, b)
  {
    if v >= b {
      Division(v - b, b);
      TimesPlus(b, 1, Quot(v - b, b));
      TimesOne(b);
    } else {
      TimesOne(b);
    }
  }

  /** Quotient and remainder are unique. */
  lemma {:induction false} DivisionBack(b: nat, q: nat, r: nat)
    requires r < b
    ensures Quot(Times(b, q) + r, b) == q && Rem(Times(b, q) + r, b) == r
  {
    TimesOne(b);
    if q > 0 {
      TimesPlus(b, 1, q - 1);
      DivisionBack(b, q - 1, r);
    }
  }

  function Repeat(c: char, n: int): (s: string)
    ensures |s| == if n < 0 then 0 else n
    ensures forall i :: 0 <= i < |s| ==> s[i] == c
  {
    if n <= 0 then [] else Repeat(c, n - 1) + [c]
  }

  lemma ValueOfSnoc(s: string, c: char, b: nat)
    ensures Value(s + [c], b) == Times(b, Value(s, b)) + DigitValue(c)
  {
    assert (s + [c])[..|s + [c]| - 1] == s;
  }

  lemma OneDigit(c: char, b: nat)
    ensures Value([c], b) == DigitValue(c)
  {
    assert [c][..0] == [];
    TimesOne(b);
  }

  lemma {:induction false} DigitsReadBack(v: nat, b: nat, upper: bool)
    requires 2 <= b <= 36
    ensures Value(Digits(v, b, upper), b) == v
  {
    if v < b {
      DigitReadsBack(v, upper);
      OneDigit(DigitChar(v, upper), b);
    } else {
      var q, r := Quot(v, b), Rem(v, b);
      DigitsReadBack(q, b, upper);
      DigitReadsBack(r, upper);
      Division(v, b);
      ValueOfSnoc(Digits(q, b, upper), DigitChar(r, upper), b);
    }
  }

  /** No redundant leading zero. */
  lemma {:induction false} NoLeadingZero(v: nat, b: nat, upper: bool)
    requires 2 <= b <= 36
    ensures Digits(v, b, upper)[0] == '0' <==> v == 0
  {
    if v < b {
      DigitReadsBack(v, upper);
    } else {
      NoLeadingZero(Quot(v, b), b, upper);
    }
  }

  ghost predicate AllDigits(s: string, b: nat) {
    forall i :: 0 <= i < |s| ==> DigitValue(s[i]) < b
  }

  lemma MoreDigits(s: string, t: string, b: nat)
    requires AllDigits(s, b) && AllDigits(t, b)
    ensures AllDigits(s + t, b)
  {
  }

  lemma {:induction false} DigitsAreDigits(v: nat, b: nat, upper: bool)
    requires 2 <= b <= 36
    ensures AllDigits(Digits(v, b, upper), b)
  {
    if v < b {
      DigitReadsBack(v, upper);
    } else {
      DigitsAreDigits(Quot(v, b), b, upper);
      DigitReadsBack(Rem(v, b), upper);
      MoreDigits(Digits(Quot(v, b), b, upper), [DigitChar(Rem(v, b), upper)], b);
    }
  }

  lemma {:induction false} ZerosAreNothing(n: int, b: nat)
    ensures Value(Repeat('0', n), b) == 0
  {
    TimesOne(b);
    if n > 0 {
      ZerosAreNothing(n - 1, b);
      ValueOfSnoc(Repeat('0', n - 1), '0', b);
    }
  }

  /** Zeros in front do not change the number. */
  lemma {:induction false} ZerosInFront(n: int, s: string, b: nat)
    ensures Value(Repeat('0', n) + s, b) == Value(s, b)
  {
    var z := Repeat('0', n);
    if s == [] {
      ZerosAreNothing(n, b);
      assert z + [] == z;
    } else {
      ZerosInFront(n, s[..|s| - 1], b);
      AppendSnoc(z, s);
      ValueOfSnoc(z + s[..|s| - 1], s[|s| - 1], b);
    }
  }

  // ---------------------------------------------------------------- most significant digit first

  lemma TwoDivisions(v: nat, b: nat, p: nat)
    requires b > 0 && p > 0
    ensures var q := Quot(v, b);
            var inner := Times(b, Rem(q, p)) + Rem(v, b);
            inner < Times(b, p) && v == Times(Times(b, p), Quot(q, p)) + inner
  {
    var q := Quot(v, b);
    var t, s := Quot(q, p), Rem(q, p);
    Division(v, b);
    Division(q, p);
    TimesPlus(b, Times(p, t), s);
    TimesAssoc(b, p, t);
    TimesOrdered(b, s + 1, p);
    TimesPlus(b, s, 1);
    TimesOne(b);
  }

  lemma QuotientOfQuotient(v: nat, b: nat, p: nat)
    requires b > 0 && p > 0
    ensures var m := Times(b, p);
            && Quot(v, m) == Quot(Quot(v, b), p)
            && Quot(Rem(v, m), b) == Rem(Quot(v, b), p)
            && Rem(Rem(v, m), b) == Rem(v, b)
  {
    var q := Quot(v, b);
    TwoDivisions(v, b, p);
    NestedDivision(v, Times(b, p), Quot(q, p), Times(b, Rem(q, p)) + Rem(v, b), b, Rem(q, p), Rem(v, b));
  }

  lemma NestedDivision(v: nat, m: nat, t: nat, x: nat, b: nat, s: nat, r: nat)
    requires v == Times(m, t) + x && x < m && x == Times(b, s) + r && r < b
    ensures Quot(v, m) == t && Quot(Rem(v, m), b) == s && Rem(Rem(v, m), b) == r
  {
    DivisionBack(m, t, x);
    DivisionBack(b, s, r);
  }

  lemma {:induction false} FixedHead(v: nat, b: nat, k: nat, upper: bool)
    requires 2 <= b <= 36 && k > 0 && v < Power(b, k)
    ensures var p := Power(b, k - 1);
            && Quot(v, p) < b
            && Fixed(v, b, k, upper) == [DigitChar(Quot(v, p), upper)] + Fixed(Rem(v, p), b, k - 1, upper)
    decreases k
  {
    if k == 1 {
      OnePlace(v, b);
      assert Fixed(v, b, 1, upper) == [] + [DigitChar(v, upper)];
    } else {
      var p := Power(b, k - 2);
      DivisionBounds(v, b, Power(b, k - 1));
      FixedHead(Quot(v, b), b, k - 1, upper);
      QuotientOfQuotient(v, b, p);
      var head, last := DigitChar(Quot(Quot(v, b), p), upper), DigitChar(Rem(v, b), upper);
      var rest := Fixed(Rem(Quot(v, b), p), b, k - 2, upper);
      assert [head] + rest + [last] == [head] + (rest + [last]);
    }
  }

  lemma OnePlace(v: nat, b: nat)
    requires b > 0 && v < Power(b, 1)
    ensures Power(b, 0) == 1 && v < b && Quot(v, 1) == v && Rem(v, b) == v
  {
    TimesOne(b);
    TimesOne(v);
    QuotIs(v, 1);
  }

  lemma DivisionBounds(v: nat, b: nat, p: nat)
    requires b > 0
    ensures v < Times(b, p) <==> Quot(v, b) < p
  {
    var q := Quot(v, b);
    Division(v, b);
    TimesOne(b);
    if p <= q {
      TimesOrdered(b, p, q);
    } else {
      TimesPlus(b, q, 1);
      TimesOrdered(b, q + 1, p);
    }
  }

  /** A number between two powers has just so many digits. */
  lemma {:induction false} DigitsAreFixed(v: nat, b: nat, k: nat, upper: bool)
    requires 2 <= b <= 36 && k > 0
    requires v < Power(b, k) && (k == 1 || Power(b, k - 1) <= v)
    ensures Digits(v, b, upper) == Fixed(v, b, k, upper)
  {
    if k > 1 {
      DivisionBounds(v, b, Power(b, k - 1));
      DivisionBounds(v, b, Power(b, k - 2));
      DigitsAreFixed(Quot(v, b), b, k - 1, upper);
    } else {
      OnePlace(v, b);
      assert Fixed(v, b, 1, upper) == [] + [DigitChar(v, upper)];
    }
  }

  lemma PowerDown(b: nat, k: nat)
    requires b > 1
    ensures Quot(Power(b, k), b) == if k == 0 then 0 else Power(b, k - 1)
  {
    if k > 0 {
      DivisionBack(b, Power(b, k - 1), 0);
    }
  }
}

/** The integer conversions of the two small printf functions, and the format strings of the larger one. */
module LogPrintf {
  import opened Bytes
  import opened Numerals
  import opened Words

  const SIGN: nat := 0x8000_0000

  predicate IsBase(b: nat) {
    b == 8 || b == 10 || b == 16
  }

  /** How an integer is to be written; a width that is not given is -1. */
  datatype Style = Style(base: nat, signed: bool, upper: bool, zeros: bool, width: int)

  predicate Negative(v: nat, st: Style) {
    st.signed && SIGN <= v
  }

  function Magnitude(v: nat, st: Style): nat
    requires v < WORD
  {
    if Negative(v, st) then WORD - v else v
  }

  /** The integer that the 32 bits stand for. */
  function Meaning(v: nat, st: Style): int {
    if Negative(v, st) then v - WORD else v
  }

  function Numeral(v: nat, st: Style): string
    requires v < WORD && IsBase(st.base)
  {
    Digits(Magnitude(v, st), st.base, st.upper)
  }

  /** What is put before the digits. */
  function Lead(negative: bool, zeros: bool, room: int): (s: string)
    ensures |s| == (if negative then 1 else 0) + Max(0, room)
  {
    if !negative then Repeat(if zeros then '0' else ' ', room)
    else if zeros then ['-'] + Repeat('0', room)
    else Repeat(' ', room) + ['-']
  }

  function Room(v: nat, st: Style): int
    requires v < WORD && IsBase(st.base)
  {
    st.width - |Numeral(v, st)| - (if Negative(v, st) then 1 else 0)
  }

  function Field(v: nat, st: Style): string
    requires v < WORD && IsBase(st.base)
  {
    Lead(Negative(v, st), st.zeros, Room(v, st)) + Numeral(v, st)
  }

  // ---------------------------------------------------------------- what a reader makes of it

  /** Blanks, a sign, a numeral. */
  function ReadInt(s: string, b: nat): int {
    if s == [] then 0
    else if s[0] == ' ' then ReadInt(s[1..], b)
    else if s[0] == '-' then 0 - Value(s[1..], b)
    else Value(s, b)
  }

  lemma {:induction false} BlanksAreSkipped(n: int, s: string, b: nat)
    ensures ReadInt(Repeat(' ', n) + s, b) == ReadInt(s, b)
  {
    if n > 0 {
      BlanksAreSkipped(n - 1, s, b);
      var t := Repeat(' ', n) + s;
      assert t[0] == ' ';
      assert t[1..] == Repeat(' ', n - 1) + s;
    } else {
      assert Repeat(' ', n) + s == s;
    }
  }

  lemma MinusIsRead(s: string, b: nat)
    ensures ReadInt(['-'] + s, b) == 0 - Value(s, b)
  {
    assert (['-'] + s)[1..] == s;
  }

  lemma UnsignedIsRead(s: string, b: nat)
    requires s != [] && DigitValue(s[0]) < 36
    ensures ReadInt(s, b) == Value(s, b)
  {
  }

  lemma ZerosThenDigits(n: int, d: string, b: nat)
    requires AllDigits(d, b) && b <= 36 && d != []
    ensures DigitValue((Repeat('0', n) + d)[0]) < 36
  {
  }

  lemma ZerosAreRead(room: int, d: string, b: nat)
    requires AllDigits(d, b) && b <= 36 && d != []
    ensures ReadInt(Repeat('0', room) + d, b) == Value(d, b)
  {
    ZerosInFront(room, d, b);
    ZerosThenDigits(room, d, b);
    UnsignedIsRead(Repeat('0', room) + d, b);
  }

  lemma MinusZerosAreRead(room: int, d: string, b: nat)
    ensures ReadInt(['-'] + Repeat('0', room) + d, b) == 0 - Value(d, b)
  {
    ZerosInFront(room, d, b);
    Associate(['-'], Repeat('0', room), d);
    MinusIsRead(Repeat('0', room) + d, b);
  }

  lemma BlanksAreRead(room: int, d: string, b: nat)
    requires AllDigits(d, b) && b <= 36 && d != []
    ensures ReadInt(Repeat(' ', room) + d, b) == Value(d, b)
  {
    BlanksAreSkipped(room, d, b);
    UnsignedIsRead(d, b);
  }

  lemma BlanksMinusAreRead(room: int, d: string, b: nat)
    ensures ReadInt(Repeat(' ', room) + ['-'] + d, b) == 0 - Value(d, b)
  {
    Associate(Repeat(' ', room), ['-'], d);
    BlanksAreSkipped(room, ['-'] + d, b);
    MinusIsRead(d, b);
  }

  lemma PaddedIsRead(negative: bool, zeros: bool, room: int, d: string, b: nat)
    requires AllDigits(d, b) && b <= 36 && d != []
    ensures ReadInt(Lead(negative, zeros, room) + d, b) == if negative then 0 - Value(d, b) else Value(d, b)
  {
    ZerosAreRead(room, d, b);
    MinusZerosAreRead(room, d, b);
    BlanksAreRead(room, d, b);
    BlanksMinusAreRead(room, d, b);
  }

  /** What is written reads back as the integer meant: every 32-bit value, the most negative included, every base,
      width and padding. */
  lemma FieldReadsBack(v: nat, st: Style)
    requires v < WORD && IsBase(st.base)
    ensures ReadInt(Field(v, st), st.base) == Meaning(v, st)
  {
    var d, b, room := Numeral(v, st), st.base, Room(v, st);
    DigitsReadBack(Magnitude(v, st), b, st.upper);
    DigitsAreDigits(Magnitude(v, st), b, st.upper);
    PaddedIsRead(Negative(v, st), st.zeros, room, d, b);
  }

  /** As wide as asked for, or as the number needs; and no wider than it needs when no width is given. */
  lemma FieldWidth(v: nat, st: Style)
    requires v < WORD && IsBase(st.base)
    ensures var needed := |Numeral(v, st)| + if Negative(v, st) then 1 else 0;
            && |Field(v, st)| == Max(st.width, needed)
            && (st.width <= needed ==> Field(v, st) == (if Negative(v, st) then ['-'] else []) + Numeral(v, st))
            && (Numeral(v, st)[0] == '0' <==> v == 0)
  {
    NoLeadingZero(Magnitude(v, st), st.base, st.upper);
  }

  /** What fills the room: blanks before the number, or zeros between its sign and its digits. */
  lemma FieldPads(v: nat, st: Style)
    requires v < WORD && IsBase(st.base)
    ensures var bare := Field(v, st.(zeros := false, width := -1));
      var room := Max(0, st.width - |bare|);
      && (bare[0] == '-' <==> Negative(v, st))
      && Field(v, st) ==
        if !st.zeros then Repeat(' ', room) + bare
        else if bare[0] == '-' then ['-'] + Repeat('0', room) + bare[1..]
        else Repeat('0', room) + bare
  {
    var n := Numeral(v, st);
    var bare := (if Negative(v, st) then ['-'] else []) + n;
    FieldWidth(v, st.(zeros := false, width := -1));
    DigitsAreDigits(Magnitude(v, st), st.base, st.upper);
    BareBegins(Negative(v, st), n);
    NoRoom(if st.zeros then '0' else ' ', Room(v, st));
    LeadPads(Negative(v, st), st.zeros, Max(0, Room(v, st)), n);
  }

  lemma BareBegins(negative: bool, n: string)
    requires n != [] && DigitValue(n[0]) < 36
    ensures var bare := (if negative then ['-'] else []) + n; bare[0] == '-' <==> negative
  {
  }

  lemma LeadPads(negative: bool, zeros: bool, room: nat, n: string)
    ensures var bare := (if negative then ['-'] else []) + n;
      Lead(negative, zeros, room) + n ==
        if !zeros then Repeat(' ', room) + bare
        else if negative then ['-'] + Repeat('0', room) + bare[1..]
        else Repeat('0', room) + bare
  {
    if negative {
      assert (['-'] + n)[1..] == n;
      Associate(Repeat(' ', room), ['-'], n);
    } else {
      assert [] + n == n;
    }
  }

  lemma NoRoom(c: char, room: int)
    ensures Repeat(c, room) == Repeat(c, Max(0, room))
  {
  }

  /** The larger printf, with no width asked for, and the smaller one write the same hexadecimal. */
  lemma HexAgrees(v: nat, zeros: bool)
    requires v < WORD
    ensures Field(v, Style(16, false, false, zeros, -1)) == Digits(v, 16, false)
  {
    FieldWidth(v, Style(16, false, false, zeros, -1));
    assert [] + Digits(v, 16, false) == Digits(v, 16, false);
  }

  // ---------------------------------------------------------------- the code

  /** `rest` is `v` without its lowest places, the first of which has the value `p`. */
  ghost predicate Place(v: nat, p: nat, rest: nat) {
    Times(p, rest) <= v < Times(p, rest + 1)
  }

  lemma CountLow(v: nat, p: nat, rest: nat, b: nat)
    requires b > 0 && Times(p, rest) <= v
    ensures Times(Times(p, b), Quot(rest, b)) <= v
    ensures Quot(rest, b) > 0 ==> Times(p, b) <= v
  {
    var q := Quot(rest, b);
    Division(rest, b);
    TimesAssoc(p, b, q);
    TimesOrdered(p, Times(b, q), rest);
    if q > 0 {
      TimesOne(Times(p, b));
      TimesOrdered(Times(p, b), 1, q);
    }
  }

  lemma CountHigh(v: nat, p: nat, rest: nat, b: nat)
    requires b > 0 && v < Times(p, rest + 1)
    ensures v < Times(Times(p, b), Quot(rest, b) + 1)
  {
    var q := Quot(rest, b);
    Division(rest, b);
    TimesOne(b);
    TimesPlus(b, q, 1);
    TimesAssoc(p, b, q + 1);
    TimesOrdered(p, rest + 1, Times(b, q + 1));
  }

  lemma CountStep(v: nat, p: nat, rest: nat, b: nat)
    requires b > 0 && Place(v, p, rest)
    ensures Place(v, Times(p, b), Quot(rest, b))
    ensures Quot(rest, b) > 0 ==> Times(p, b) <= v
    ensures rest < b ==> v < Times(p, b)
  {
    CountLow(v, p, rest, b);
    CountHigh(v, p, rest, b);
    TimesOne(Times(p, b));
  }

  /** The number of digits and the largest place value, which never exceeds the number. */
  method CountDigits(v: nat, b: nat, ghost upper: bool) returns (p: nat, count: nat)
    requires v < WORD && IsBase(b)
    ensures count == |Digits(v, b, upper)|
    ensures p == Power(b, count - 1) && v < Power(b, count) && p <= Max(1, v)
    ensures Digits(v, b, upper) == Fixed(v, b, count, upper)
  {
    p, count := 1, 1;
    ghost var before: nat := v;
    QuotIs(v, b);
    var shrink: nat := v / b;
    while shrink > 0
      invariant count > 0 && p == Power(b, count - 1)
      invariant shrink == Quot(before, b)
      invariant Place(v, p, before)
      invariant count == 1 || p <= v
      decreases shrink
    {
      CountStep(v, p, before, b);
      TimesSwap(p, b);
      TimesIs(p, b);
      count := count + 1;
      p := U32(p * b);
      before := shrink;
      QuotIs(shrink, b);
      shrink := shrink / b;
    }
    CountStep(v, p, before, b);
    TimesSwap(p, b);
    DigitsAreFixed(v, b, count, upper);
  }

  // ---------------------------------------------------------------- hexadecimal by masks

  /** The four mask bits, shifted left. */
  function Mask(shift: nat): nat {
    if shift == 0 then 15 else 2 * Mask(shift - 1)
  }

  lemma LowBit(v: nat)
    ensures BitAnd(v, 1) == v % 2
  {
    assert BitAnd(v / 2, 0) == 0;
  }

  lemma LowPair(v: nat)
    ensures BitAnd(v, 3) == v % 4
  {
    LowBit(v / 2);
  }

  lemma LowTriple(v: nat)
    ensures BitAnd(v, 7) == v % 8
  {
    LowPair(v / 2);
  }

  lemma LowNibble(v: nat)
    ensures BitAnd(v, 15) == v % 16
  {
    LowTriple(v / 2);
    EvenOdd(v / 2, v % 2, 8);
    assert BitAnd(v, 15) == 2 * BitAnd(v / 2, 7) + v % 2;
  }

  lemma EvenOdd(h: nat, l: nat, m: nat)
    requires l < 2 && m > 0
    ensures (2 * h + l) % (2 * m) == 2 * (h % m) + l
  {
    var q, r := h / m, h % m;
    assert h == q * m + r;
    assert 2 * h + l == q * (2 * m) + (2 * r + l);
    DivisionIsUnique(2 * h + l, 2 * m, q, 2 * r + l);
  }

  lemma {:induction false} NibbleMask(v: nat, shift: nat)
    ensures Shr(BitAnd(v, Mask(shift)), shift) == Shr(v, shift) % 16
    ensures BitAnd(v, Mask(shift)) == 0 <==> Shr(v, shift) % 16 == 0
    decreases shift
  {
    if shift == 0 {
      LowNibble(v);
    } else {
      NibbleMask(v / 2, shift - 1);
      ShrFirst(v, shift);
      ShrFirst(BitAnd(v, Mask(shift)), shift);
      EvenMask(v, Mask(shift - 1));
    }
  }

  lemma EvenMask(v: nat, m: nat)
    ensures BitAnd(v, 2 * m) == 2 * BitAnd(v / 2, m)
  {
    var n := 2 * m;
    assert n / 2 == m && n % 2 == 0;
    if v == 0 || m == 0 {
      assert BitAnd(v, n) == 0 && BitAnd(v / 2, m) == 0;
    } else {
      assert BitAnd(v, n) == 2 * BitAnd(v / 2, n / 2) + (v % 2) * (n % 2);
    }
  }

  lemma ShrNibble(v: nat, s: nat)
    ensures Shr(v, s + 4) == Shr(v, s) / 16
    ensures Shr(v, s + 4) == Shr(v / 16, s)
  {
    assert Shr(v, s + 2) == Shr(v, s) / 4;
    ShrFirst(v, s + 4);
    ShrFirst(v / 2, s + 3);
    ShrFirst(v / 4, s + 2);
    ShrFirst(v / 8, s + 1);
  }

  lemma {:induction false} FixedByShift(v: nat, k: nat)
    requires k > 0
    ensures Fixed(v, 16, k, false) == [DigitChar(Shr(v, 4 * k - 4) % 16, false)] + Fixed(v, 16, k - 1, false)
    decreases k
  {
    QuotIs(v, 16);
    var last := [DigitChar(v % 16, false)];
    if k == 1 {
      assert Fixed(v, 16, 1, false) == [] + last;
    } else {
      FixedByShift(v / 16, k - 1);
      ShrNibble(v, 4 * k - 8);
      var head, rest := [DigitChar(Shr(v, 4 * k - 4) % 16, false)], Fixed(v / 16, 16, k - 2, false);
      assert head + rest + last == head + (rest + last);
    }
  }

  lemma {:induction false} DigitsByShift(v: nat, k: nat)
    requires k > 0 && Shr(v, 4 * k) == 0 && (k == 1 || Shr(v, 4 * k - 4) != 0)
    ensures Digits(v, 16, false) == Fixed(v, 16, k, false)
    decreases k
  {
    QuotIs(v, 16);
    ShrNibble(v, 4 * k - 4);
    if k == 1 {
      assert Fixed(v, 16, 1, false) == [] + [DigitChar(v % 16, false)];
    } else {
      ShrNibble(v, 4 * k - 8);
      DigitsByShift(v / 16, k - 1);
    }
  }

  method FirstNibble(v: nat) returns (shift: nat, ghost count: nat)
    requires 0 < v < WORD
    ensures count > 0 && shift == 4 * count - 4
    ensures Digits(v, 16, false) == Fixed(v, 16, count, false)
  {
    shift := 28;
    count := 8;
    WordEnds(v);
    while BitAnd(v, Mask(shift)) == 0
      invariant count > 0 && shift == 4 * count - 4 && Shr(v, 4 * count) == 0
      decreases shift
    {
      NibbleMask(v, shift);
      ShrNibble(v, shift);
      shift := shift - 4;
      count := count - 1;
    }
    NibbleMask(v, shift);
    DigitsByShift(v, count);
  }

  /** One turn of the digit loop. */
  lemma DigitStep(sent: string, v: nat, b: nat, left: nat, upper: bool)
    requires IsBase(b) && left > 0 && v < Power(b, left)
    ensures var p := Power(b, left - 1);
      && Quot(v, p) < b && Rem(v, p) < p && Quot(p, b) == (if left == 1 then 0 else Power(b, left - 2))
      && sent + Fixed(v, b, left, upper)
      == sent + [DigitChar(Quot(v, p), upper)] + Fixed(Rem(v, p), b, left - 1, upper)
  {
    var p := Power(b, left - 1);
    FixedHead(v, b, left, upper);
    PowerDown(b, left - 1);
    Associate(sent, [DigitChar(Quot(v, p), upper)], Fixed(Rem(v, p), b, left - 1, upper));
  }

  class Console {
    var sent: string

    method TxChar(c: char)
      modifies this
      ensures sent == old(sent) + [c]
    {
      sent := sent + [c];
    }

    method RepChar(c: char, r: int)
      modifies this
      ensures sent == old(sent) + Repeat(c, r)
    {
      var left := r;
      while left > 0
        invariant left <= r || left == r
        invariant sent == old(sent) + Repeat(c, r - Max(0, left))
      {
        left := left - 1;
        TxChar(c);
      }
    }

    method PrintDigits(v0: nat, p0: nat, b: nat, upper: bool, ghost count: nat)
      requires IsBase(b) && count > 0 && p0 == Power(b, count - 1) && v0 < Power(b, count)
      modifies this
      ensures sent == old(sent) + Fixed(v0, b, count, upper)
    {
      var v: nat, p: nat := v0, p0;
      ghost var left: nat := count;
      while p > 0
        invariant left > 0 ==> p == Power(b, left - 1)
        invariant left == 0 ==> p == 0
        invariant v < Power(b, left)
        invariant sent + Fixed(v, b, left, upper) == old(sent) + Fixed(v0, b, count, upper)
        decreases left
      {
        DigitStep(sent, v, b, left, upper);
        QuotIs(v, p);
        QuotIs(p, b);
        var d := v / p;
        TxChar(DigitChar(d, upper));
        v := v % p;
        p := p / b;
        left := left - 1;
      }
    }

    method PrintLead(sign: bool, zeros: bool, width: int)
      modifies this
      ensures sent == old(sent) + Lead(sign, zeros, if sign then width - 1 else width)
    {
      var room := width;
      if zeros {
        if sign {
          TxChar('-');
          room := room - 1;
        }
        RepChar('0', room);
      } else {
        if sign {
          room := room - 1;
        }
        RepChar(' ', room);
        if sign {
          TxChar('-');
        }
      }
    }

    method PrintNibbles(v: nat, first: nat, ghost count: nat)
      requires count > 0 && first == 4 * count - 4
      modifies this
      ensures sent == old(sent) + Fixed(v, 16, count, false)
    {
      var shift: int := first;
      ghost var k: nat := count;
      while shift >= 0
        invariant shift == 4 * k - 4
        invariant sent + Fixed(v, 16, k, false) == old(sent) + Fixed(v, 16, count, false)
        decreases k
      {
        var digit := Shr(BitAnd(v, Mask(shift)), shift);
        NibbleMask(v, shift);
        FixedByShift(v, k);
        assert sent + ([DigitChar(digit, false)] + Fixed(v, 16, k - 1, false))
            == sent + [DigitChar(digit, false)] + Fixed(v, 16, k - 1, false);
        TxChar(DigitChar(digit, false));
        shift := shift - 4;
        k := k - 1;
      }
    }

    /** The hexadecimal conversion of the smaller printf. */
    method HexPrint(v: nat)
      requires v < WORD
      modifies this
      ensures sent == old(sent) + Digits(v, 16, false)
    {
      if v == 0 {
        TxChar('0');
        return;
      }
      var shift, count := FirstNibble(v);
      PrintNibbles(v, shift, count);
    }

    /** `v` are the 32 bits of the argument. */
    method IntegerPrint(v: nat, st: Style)
      requires v < WORD && IsBase(st.base)
      modifies this
      ensures sent == old(sent) + Field(v, st)
    {
      var sign, mag: nat := false, v;
      if st.signed && v >= SIGN {
        mag := U32(WORD - 1 - v + 1);
        sign := true;
      }
      var p, count := CountDigits(mag, st.base, st.upper);
      PrintLead(sign, st.zeros, st.width - count);
      PrintDigits(mag, p, st.base, st.upper, count);
      AppendField(old(sent), v, st);
    }
  }

  lemma WordEnds(v: nat)
    requires v < WORD
    ensures Shr(v, 32) == 0
  {
    BytePowers();
    assert Pow2(16) == 0x1_0000;
    assert Pow2(24) == 0x100_0000;
    assert Pow2(32) == WORD;
    ShrOut(v, 32);
  }

  lemma AppendField(sent: string, v: nat, st: Style)
    requires v < WORD && IsBase(st.base)
    ensures sent + Field(v, st) == sent + Lead(Negative(v, st), st.zeros, Room(v, st)) + Numeral(v, st)
  {
  }
}
