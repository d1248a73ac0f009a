/** JSON numbers in exact arithmetic: the numerals a text can hold, the number each one denotes,
    how a scanner finds one, and the decimal form an integer is printed in. */
module Numerals {
  import opened CText

  datatype Exponent = NoExponent | Exponent(mark: byte, sign: byte, digits: seq<byte>)

  /** `frac` is empty when there is no fraction; an exponent's `sign` is NUL when it has none. */
  datatype Numeral = Numeral(negative: bool, whole: seq<byte>, frac: seq<byte>, exponent: Exponent)

  predicate AllDigits(s: seq<byte>) { forall k :: 0 <= k < |s| ==> IsDigit(s[k]) }

  /** The grammar of section 6 of RFC 8259. */
  predicate WellFormed(n: Numeral) {
    && n.whole != [] && AllDigits(n.whole) && (n.whole[0] == ZERO ==> |n.whole| == 1)
    && AllDigits(n.frac)
    && match n.exponent
       case NoExponent => true
       case Exponent(mark, sign, digits) =>
         && (mark == LOWER_E || mark == UPPER_E)
         && (sign == NUL || sign == PLUS || sign == MINUS)
         && digits != [] && AllDigits(digits)
  }

  function RenderSign(n: Numeral): seq<byte> { if n.negative then [MINUS] else [] }
  function RenderFrac(n: Numeral): seq<byte> { if n.frac == [] then [] else [DOT] + n.frac }

  function RenderExponent(n: Numeral): seq<byte> {
    match n.exponent
    case NoExponent => []
    case Exponent(mark, sign, digits) => [mark] + ((if sign == NUL then [] else [sign]) + digits)
  }

  function Render(n: Numeral): seq<byte> {
    RenderSign(n) + (n.whole + (RenderFrac(n) + RenderExponent(n)))
  }

  function DigitsValue(s: seq<byte>): nat
    requires AllDigits(s)
  {
    if s == [] then 0 else 10 * DigitsValue(s[..|s| - 1]) + (s[|s| - 1] - ZERO)
  }

  function Pow10(e: int): real
    decreases if e < 0 then -e else e
  {
    if e == 0 then 1.0 else if e > 0 then 10.0 * Pow10(e - 1) else Pow10(e + 1) / 10.0
  }

  predicate HasDigits(n: Numeral) {
    AllDigits(n.whole) && AllDigits(n.frac) && (n.exponent.Exponent? ==> AllDigits(n.exponent.digits))
  }

  /** What the scanner takes: besides the grammar a minus sign alone, a leading zero before another digit
      that is none, and an exponent without digits. */
  predicate Lenient(n: Numeral) {
    && HasDigits(n) && (n.negative || n.whole != [])
    && (|n.whole| > 1 && n.whole[0] == ZERO ==> n.whole[1] != ZERO)
    && match n.exponent
       case NoExponent => true
       case Exponent(mark, sign, _) =>
         (mark == LOWER_E || mark == UPPER_E) && (sign == NUL || sign == PLUS || sign == MINUS)
  }

  function ExponentValue(n: Numeral): int
    requires HasDigits(n)
  {
    match n.exponent
    case NoExponent => 0
    case Exponent(_, sign, digits) => if sign == MINUS then 0 - DigitsValue(digits) else DigitsValue(digits)
  }

  /** sign * digits * 10^(exponent - number of fraction digits) */
  function Value(n: Numeral): real
    requires HasDigits(n)
  {
    Scaled(if n.negative then -1.0 else 1.0, DigitsValue(n.whole + n.frac), ExponentValue(n) - |n.frac|)
  }

  function Scaled(sign: real, digits: nat, exponent: int): real {
    sign * (digits as real) * Pow10(exponent)
  }

  // ----- what they come to, without powers of fractional value

  function TenTo(k: nat): nat { if k == 0 then 1 else 10 * TenTo(k - 1) }

  /** The powers of ten: one, ten, and products of each other. */
  lemma {:induction false} TenToLaw(j: nat, k: nat)
    ensures TenTo(0) == 1 && TenTo(1) == 10 && TenTo(j + k) == TenTo(j) * TenTo(k)
  {
    if j > 0 {
      TenToLaw(j - 1, k);
      assert TenTo(j + k) == 10 * TenTo(j - 1 + k);
      Regrouped(TenTo(j - 1), TenTo(k));
    }
  }

  lemma Regrouped(a: nat, b: nat)
    ensures 10 * (a * b) == (10 * a) * b
  {
  }

  /** Digits stand for themselves, and digits in front of others count by the place they stand at. */
  lemma {:induction false} DigitsLaw(a: seq<byte>, b: seq<byte>)
    requires AllDigits(a) && AllDigits(b)
    ensures AllDigits(a + b) && DigitsValue(a + b) == DigitsValue(a) * TenTo(|b|) + DigitsValue(b)
    ensures |b| == 1 ==> DigitsValue(b) == b[0] - 48
    decreases |b|
  {
    if b == [] {
      assert a + b == a;
    } else {
      var init, d := b[..|b| - 1], b[|b| - 1];
      DigitsLaw(a, init);
      assert (a + b)[..|a + b| - 1] == a + init && (a + b)[|a + b| - 1] == d;
      assert DigitsValue(a + b) == 10 * DigitsValue(a + init) + (d - 48);
      assert DigitsValue(b) == 10 * DigitsValue(init) + (d - 48) && TenTo(|b|) == 10 * TenTo(|init|);
      assert |b| == 1 ==> init == [] && DigitsValue(init) == 0;
      hide DigitsValue, TenTo;
      Carried(DigitsValue(a), TenTo(|init|), DigitsValue(init));
    }
  }

  lemma Carried(x: nat, t: nat, y: nat)
    ensures 10 * (x * t + y) == x * (10 * t) + 10 * y
  {
  }

  lemma {:induction false} PowerUp(x: nat)
    ensures Pow10(x) == TenTo(x) as real
  {
    if x > 0 { PowerUp(x - 1); }
  }

  lemma {:induction false} PowerDown(x: nat)
    ensures Pow10(0 - x) * TenTo(x) as real == 1.0
  {
    if x > 0 {
      PowerDown(x - 1);
      assert Pow10(0 - x) == Pow10(0 - (x - 1)) / 10.0;
      TenthOf(Pow10(0 - (x - 1)), TenTo(x - 1) as real);
    }
  }

  lemma TenthOf(p: real, q: real)
    ensures (p / 10.0) * (10.0 * q) == p * q
  {
  }

  /** The digits with their sign, as an integer. */
  function SignedDigits(negative: bool, digits: seq<byte>): int
    requires AllDigits(digits)
  {
    if negative then 0 - DigitsValue(digits) else DigitsValue(digits)
  }

  lemma ValueUp(n: Numeral, x: nat)
    requires HasDigits(n) && ExponentValue(n) - |n.frac| == x
    ensures Value(n) == (SignedDigits(n.negative, n.whole + n.frac) * TenTo(x)) as real
  {
    hide DigitsValue, Pow10, TenTo, ExponentValue;
    PowerUp(x);
    var digits := DigitsValue(n.whole + n.frac);
    Product(digits, TenTo(x));
  }

  lemma Product(a: nat, b: nat)
    ensures (a as real) * (b as real) == (a * b) as real
    ensures (-1.0 * (a as real)) * (b as real) == ((0 - a) * b) as real
  {
  }

  lemma ValueDown(n: Numeral, x: nat)
    requires HasDigits(n) && ExponentValue(n) - |n.frac| == 0 - x
    ensures Value(n) * TenTo(x) as real == SignedDigits(n.negative, n.whole + n.frac) as real
  {
    hide DigitsValue, Pow10, TenTo, ExponentValue;
    PowerDown(x);
    var signed := (if n.negative then -1.0 else 1.0) * (DigitsValue(n.whole + n.frac) as real);
    Cancels(signed, Pow10(0 - x), TenTo(x) as real);
  }

  lemma Cancels(a: real, p: real, q: real)
    requires p * q == 1.0
    ensures (a * p) * q == a
  {
    assert (a * p) * q == a * (p * q);
  }

  /** Section 6 of RFC 8259 in integers: the point moves to the right by the exponent and to the left by
      the digits of the fraction, and what is left of either multiplies or divides. */
  lemma ValueLaw(n: Numeral)
    requires HasDigits(n)
    ensures var digits, places := SignedDigits(n.negative, n.whole + n.frac), |n.frac|;
            match n.exponent
            case NoExponent => Value(n) * TenTo(places) as real == digits as real
            case Exponent(_, sign, ds) =>
              var e := DigitsValue(ds);
              if sign == MINUS then Value(n) * TenTo(e + places) as real == digits as real
              else if e >= places then Value(n) == (digits * TenTo(e - places)) as real
              else Value(n) * TenTo(places - e) as real == digits as real
  {
    hide DigitsValue, TenTo, Value, SignedDigits;
    var places := |n.frac|;
    match n.exponent
    case NoExponent => ValueDown(n, places);
    case Exponent(_, sign, ds) =>
      var e := DigitsValue(ds);
      if sign == MINUS {
        ValueDown(n, e + places);
      } else if e >= places {
        ValueUp(n, e - places);
      } else {
        ValueDown(n, places - e);
      }
  }

  /** `1.5`, `1e2` and `-12.5e-1` */
  lemma SomeValues()
    ensures Value(Numeral(false, [49], [53], NoExponent)) == 1.5
    ensures Value(Numeral(false, [49], [], Exponent(LOWER_E, NUL, [50]))) == 100.0
    ensures Value(Numeral(true, [49, 50], [53], Exponent(LOWER_E, MINUS, [49]))) == -1.25
  {
    var a, b, c := Numeral(false, [49], [53], NoExponent), Numeral(false, [49], [], Exponent(LOWER_E, NUL, [50])),
                   Numeral(true, [49, 50], [53], Exponent(LOWER_E, MINUS, [49]));
    ValueLaw(a);
    ValueLaw(b);
    ValueLaw(c);
    hide Value;
    SomeDigits();
    assert TenTo(1) == 10 && TenTo(2) == 100;
    assert a.whole + a.frac == [49, 53] && b.whole + b.frac == [49] && c.whole + c.frac == [49, 50, 53];
  }

  lemma SomeDigits()
    ensures DigitsValue([49]) == 1 && DigitsValue([50]) == 2
    ensures DigitsValue([49, 53]) == 15 && DigitsValue([49, 50, 53]) == 125
  {
    hide DigitsValue, TenTo;
    TenToLaw(0, 0);
    assert [49, 53] == [49] + [53] && [49, 50, 53] == ([49] + [50]) + [53];
    DigitsLaw([], [49]);
    DigitsLaw([], [50]);
    DigitsLaw([49], [53]);
    DigitsLaw([49], [50]);
    DigitsLaw([49] + [50], [53]);
  }

  // ----- scanning

  function SignEnd(t: seq<byte>, i: nat): nat
    requires i <= |t|
  {
    if Peek(t, i) == MINUS then i + 1 else i
  }

  /** One zero is taken on its own, then digits only if the next one is not another zero. */
  function WholeEnd(t: seq<byte>, i: nat): (e: nat)
    requires i <= |t|
    ensures i <= e <= |t| && AllDigits(t[i..e])
  {
    var z := if Peek(t, i) == ZERO then i + 1 else i;
    if ZERO < Peek(t, z) <= NINE then DigitsEnd(t, z) else z
  }

  function FracEnd(t: seq<byte>, i: nat): (e: nat)
    requires i <= |t|
    ensures i <= e <= |t|
    ensures i < e ==> t[i] == DOT && i + 1 < e && AllDigits(t[i + 1..e])
  {
    if Peek(t, i) == DOT && IsDigit(Peek(t, i + 1)) then DigitsEnd(t, i + 1) else i
  }

  function ExponentAt(t: seq<byte>, i: nat): (r: (Exponent, nat))
    requires i <= |t|
    ensures i <= r.1 <= |t|
    ensures r.0.Exponent? ==> AllDigits(r.0.digits)
  {
    if Peek(t, i) == LOWER_E || Peek(t, i) == UPPER_E then
      var signed := Peek(t, i + 1) == PLUS || Peek(t, i + 1) == MINUS;
      var d := if signed then i + 2 else i + 1;
      var e := DigitsEnd(t, d);
      (Exponent(t[i], if signed then t[i + 1] else NUL, t[d..e]), e)
    else (NoExponent, i)
  }

  /** The numeral the parser takes at `i` and the index after it. It takes more than the grammar
      allows: `-` alone, leading zeros and an exponent without digits. */
  function Lex(t: seq<byte>, i: nat): (r: (Numeral, nat))
    requires i <= |t|
    ensures HasDigits(r.0) && i <= r.1 <= |t|
    ensures Peek(t, i) == MINUS || IsDigit(Peek(t, i)) ==> i < r.1
  {
    var a := SignEnd(t, i);
    var w := WholeEnd(t, a);
    var f := FracEnd(t, w);
    var x := ExponentAt(t, f);
    (Numeral(a > i, t[a..w], if f == w then [] else t[w + 1..f], x.0), x.1)
  }

  /** A byte that could carry a number on. */
  predicate Continues(b: byte) { IsDigit(b) || b == DOT || b == LOWER_E || b == UPPER_E }

  /** An exponent that breaks off could also take a sign. */
  predicate GoesOn(n: Numeral, b: byte) {
    || Continues(b)
    || (n.exponent.Exponent? && n.exponent.digits == [] && (b == PLUS || b == MINUS))
  }

  lemma {:induction false} DigitsRun(t: seq<byte>, i: nat, w: seq<byte>)
    requires At(t, i, w) && AllDigits(w) && !IsDigit(Peek(t, i + |w|))
    ensures DigitsEnd(t, i) == i + |w|
    decreases |w|
  {
    if w != [] {
      assert w == [w[0]] + w[1..];
      AtCons(t, i, w[0], w[1..]);
      DigitsRun(t, i + 1, w[1..]);
    }
  }

  lemma ExponentRender(t: seq<byte>, i: nat, n: Numeral)
    requires Lenient(n) && At(t, i, RenderExponent(n)) && !GoesOn(n, Peek(t, i + |RenderExponent(n)|))
    ensures ExponentAt(t, i) == (n.exponent, i + |RenderExponent(n)|)
  {
    match n.exponent
    case NoExponent =>
    case Exponent(mark, sign, digits) =>
      var s := if sign == NUL then [] else [sign];
      AtCons(t, i, mark, s + digits);
      AtSplit(t, i + 1, s, digits);
      DigitsRun(t, i + 1 + |s|, digits);
      if digits != [] { AtFirst(t, i + 1 + |s|, digits); }
      AtSlice(t, i + 1 + |s|, digits);
      if sign != NUL {
        AtFirst(t, i + 1, s);
      }
  }

  lemma FracRender(t: seq<byte>, i: nat, n: Numeral)
    requires Lenient(n) && At(t, i, RenderFrac(n))
    requires var c := Peek(t, i + |RenderFrac(n)|); !IsDigit(c) && c != DOT
    ensures FracEnd(t, i) == i + |RenderFrac(n)|
    ensures n.frac != [] ==> t[i + 1..FracEnd(t, i)] == n.frac
  {
    if n.frac != [] {
      AtCons(t, i, DOT, n.frac);
      DigitsRun(t, i + 1, n.frac);
      AtFirst(t, i + 1, n.frac);
      AtSlice(t, i + 1, n.frac);
    }
  }

  lemma WholeRender(t: seq<byte>, i: nat, n: Numeral)
    requires Lenient(n) && At(t, i, n.whole) && !IsDigit(Peek(t, i + |n.whole|))
    ensures WholeEnd(t, i) == i + |n.whole| && t[i..WholeEnd(t, i)] == n.whole
  {
    AtSlice(t, i, n.whole);
    if n.whole != [] {
      AtCons(t, i, n.whole[0], n.whole[1..]);
      assert n.whole == [n.whole[0]] + n.whole[1..];
      if n.whole[0] != ZERO {
        DigitsRun(t, i, n.whole);
      } else if |n.whole| > 1 {
        AtFirst(t, i + 1, n.whole[1..]);
        DigitsRun(t, i + 1, n.whole[1..]);
      }
    }
  }

  /** The four parts of a rendered numeral, each at its place. */
  lemma Layout(t: seq<byte>, i: nat, n: Numeral)
    requires At(t, i, Render(n))
    ensures var a := i + |RenderSign(n)|;
            var w := a + |n.whole|;
            var f := w + |RenderFrac(n)|;
            && At(t, i, RenderSign(n)) && At(t, a, n.whole)
            && At(t, w, RenderFrac(n)) && At(t, f, RenderExponent(n))
            && f + |RenderExponent(n)| == i + |Render(n)|
  {
    var s, f, x := RenderSign(n), RenderFrac(n), RenderExponent(n);
    AtFour(t, i, s, n.whole, f, x);
  }

  /** What follows the digits before the point, and what follows the fraction. */
  lemma Boundaries(t: seq<byte>, w: nat, n: Numeral)
    requires Lenient(n) && At(t, w, RenderFrac(n)) && At(t, w + |RenderFrac(n)|, RenderExponent(n))
    requires !GoesOn(n, Peek(t, w + |RenderFrac(n)| + |RenderExponent(n)|))
    ensures !IsDigit(Peek(t, w))
    ensures !IsDigit(Peek(t, w + |RenderFrac(n)|)) && Peek(t, w + |RenderFrac(n)|) != DOT
  {
    if RenderExponent(n) != [] { AtFirst(t, w + |RenderFrac(n)|, RenderExponent(n)); }
    if RenderFrac(n) != [] { AtFirst(t, w, RenderFrac(n)); }
  }

  /** A numeral is scanned as itself, up to any byte that cannot carry it on. */
  lemma LexRender(t: seq<byte>, i: nat, n: Numeral)
    requires Lenient(n) && At(t, i, Render(n)) && !GoesOn(n, Peek(t, i + |Render(n)|))
    ensures Lex(t, i) == (n, i + |Render(n)|)
  {
    Layout(t, i, n);
    assert RenderFrac(n) == [] <==> n.frac == [];
    var a := i + |RenderSign(n)|;
    var w := a + |n.whole|;
    var f := w + |RenderFrac(n)|;
    assert n.frac != [] ==> w + 1 < f;
    hide At, Lex, Lenient, GoesOn, Render, RenderFrac, RenderExponent, SignEnd, WholeEnd, FracEnd, ExponentAt, Peek;
    Boundaries(t, w, n);
    ExponentRender(t, f, n);
    FracRender(t, w, n);
    WholeRender(t, a, n);
    SignRender(t, i, n);
    LexParts(t, i, n, a, w, f, i + |Render(n)|);
  }

  lemma SignRender(t: seq<byte>, i: nat, n: Numeral)
    requires Lenient(n) && At(t, i, RenderSign(n)) && At(t, i + |RenderSign(n)|, n.whole)
    ensures SignEnd(t, i) == i + |RenderSign(n)|
  {
    if n.whole != [] { AtFirst(t, i + |RenderSign(n)|, n.whole); }
    if n.negative { AtFirst(t, i, [MINUS]); }
  }

  lemma LexParts(t: seq<byte>, i: nat, n: Numeral, a: nat, w: nat, f: nat, e: nat)
    requires i <= a <= w <= f <= |t| && SignEnd(t, i) == a && WholeEnd(t, a) == w && FracEnd(t, w) == f
    requires ExponentAt(t, f) == (n.exponent, e)
    requires a == i + |RenderSign(n)| && t[a..w] == n.whole
    requires if n.frac == [] then f == w else w + 1 < f && t[w + 1..f] == n.frac
    ensures Lex(t, i) == (n, e)
  {
  }

  /** What is scanned spells the text that was taken. */
  lemma LexSound(t: seq<byte>, i: nat)
    requires i <= |t| && (Peek(t, i) == MINUS || IsDigit(Peek(t, i)))
    ensures Lenient(Lex(t, i).0) && t[i..Lex(t, i).1] == Render(Lex(t, i).0)
  {
    var a := SignEnd(t, i);
    var w := WholeEnd(t, a);
    var f := FracEnd(t, w);
    var n, e := Lex(t, i).0, ExponentAt(t, f).1;
    assert n == Numeral(a > i, t[a..w], if f == w then [] else t[w + 1..f], ExponentAt(t, f).0);
    SignTaken(t, i);
    WholeTaken(t, a);
    FracTaken(t, w);
    ExponentTaken(t, f, n);
    hide Lex, SignEnd, WholeEnd, FracEnd, ExponentAt, RenderExponent;
    PartsTaken(t, i, a, w, f, e, n);
  }

  lemma SignTaken(t: seq<byte>, i: nat)
    requires i <= |t|
    ensures var a := SignEnd(t, i); if a > i then t[i..a] == [MINUS] else Peek(t, i) != MINUS && a == i
  {
  }

  lemma PartsTaken(t: seq<byte>, i: nat, a: nat, w: nat, f: nat, e: nat, n: Numeral)
    requires i <= a <= w <= f <= e <= |t|
    requires t[i..a] == RenderSign(n) && t[a..w] == n.whole && t[w..f] == RenderFrac(n) && t[f..e] == RenderExponent(n)
    ensures t[i..e] == Render(n)
  {
    hide RenderSign, RenderFrac, RenderExponent;
    assert t[w..e] == t[w..f] + t[f..e];
    assert t[a..e] == t[a..w] + t[w..e];
    assert t[i..e] == t[i..a] + t[a..e];
  }

  lemma WholeTaken(t: seq<byte>, a: nat)
    requires a <= |t|
    ensures var whole := t[a..WholeEnd(t, a)];
            (IsDigit(Peek(t, a)) ==> whole != []) && (|whole| > 1 && whole[0] == ZERO ==> whole[1] != ZERO)
  {
  }

  lemma FracTaken(t: seq<byte>, w: nat)
    requires w <= |t|
    ensures var f := FracEnd(t, w); w < f ==> t[w..f] == [DOT] + t[w + 1..f]
  {
  }

  lemma ExponentTaken(t: seq<byte>, f: nat, n: Numeral)
    requires f <= |t| && n.exponent == ExponentAt(t, f).0
    ensures t[f..ExponentAt(t, f).1] == RenderExponent(n)
    ensures match n.exponent
            case NoExponent => true
            case Exponent(mark, sign, _) =>
              (mark == LOWER_E || mark == UPPER_E) && (sign == NUL || sign == PLUS || sign == MINUS)
  {
    if n.exponent.Exponent? {
      assert t[f..ExponentAt(t, f).1] == [t[f]] + t[f + 1..ExponentAt(t, f).1];
    }
  }

  // ----- the parser's arithmetic

  lemma DigitsValueSnoc(s: seq<byte>, d: byte)
    requires AllDigits(s) && IsDigit(d)
    ensures DigitsValue(s + [d]) == 10 * DigitsValue(s) + (d - ZERO)
  {
    assert (s + [d])[..|s|] == s;
  }

  /** Accumulates digits into `n0`, whose digits so far are `seen`. */
  method TakeDigits(t: seq<byte>, i: nat, n0: nat, ghost seen: seq<byte>) returns (n: nat, e: nat)
    requires i <= |t| && AllDigits(seen) && n0 == DigitsValue(seen)
    ensures e == DigitsEnd(t, i)
    ensures n == DigitsValue(seen + t[i..e])
  {
    n, e := n0, i;
    assert seen + t[i..i] == seen;
    while IsDigit(Peek(t, e))
      invariant i <= e <= |t| && DigitsEnd(t, e) == DigitsEnd(t, i) && AllDigits(t[i..e])
      invariant n == DigitsValue(seen + t[i..e])
      decreases |t| - e
    {
      DigitsValueSnoc(seen + t[i..e], t[e]);
      assert seen + t[i..e + 1] == (seen + t[i..e]) + [t[e]];
      n := n * 10 + (Peek(t, e) - ZERO);
      e := e + 1;
    }
  }

  /** The digits before the point. */
  method TakeWhole(t: seq<byte>, i: nat) returns (n: nat, num: nat)
    requires i <= |t|
    ensures num == WholeEnd(t, i) && n == DigitsValue(t[i..num])
  {
    n, num := 0, i;
    if Peek(t, num) == ZERO {
      num := num + 1;
    }
    assert DigitsValue(t[i..num]) == 0 by {
      if i < num { assert t[i..num] == [] + [ZERO]; DigitsValueSnoc([], ZERO); }
    }
    if ZERO < Peek(t, num) <= NINE {
      ghost var z := num;
      n, num := TakeDigits(t, num, n, t[i..z]);
      assert t[i..z] + t[z..num] == t[i..num];
    }
  }

  /** The exponent part: its sign and its digits. */
  method TakeExponent(t: seq<byte>, i: nat) returns (subscale: nat, signsubscale: int, num: nat)
    requires i <= |t|
    ensures num == ExponentAt(t, i).1
    ensures match ExponentAt(t, i).0
            case NoExponent => subscale == 0
            case Exponent(_, sign, digits) =>
              subscale == DigitsValue(digits) && signsubscale == if sign == MINUS then -1 else 1
  {
    subscale, signsubscale, num := 0, 1, i;
    if Peek(t, num) == LOWER_E || Peek(t, num) == UPPER_E {
      num := num + 1;
      if Peek(t, num) == PLUS {
        num := num + 1;
      } else if Peek(t, num) == MINUS {
        signsubscale := -1;
        num := num + 1;
      }
      ghost var d := num;
      subscale, num := TakeDigits(t, num, subscale, []);
      assert [] + t[d..num] == t[d..num];
    }
  }

  /** The fraction part, and how far it moves the decimal point. */
  method TakeFrac(t: seq<byte>, i: nat, n0: nat, ghost seen: seq<byte>) returns (n: nat, scale: int, num: nat)
    requires i <= |t| && AllDigits(seen) && n0 == DigitsValue(seen)
    ensures num == FracEnd(t, i)
    ensures var frac := if num == i then [] else t[i + 1..num];
            n == DigitsValue(seen + frac) && scale == -|frac|
  {
    n, scale, num := n0, 0, i;
    if Peek(t, num) == DOT && IsDigit(Peek(t, num + 1)) {
      num := num + 1;
      n, num := TakeDigits(t, num, n, seen);
      scale := scale - (num - (i + 1));
    } else {
      assert seen + [] == seen;
    }
  }

  /** The number parser, with exact integers and reals for `double` and `Pow10` for the library's `pow`. */
  method ParseNumber(t: seq<byte>, i: nat) returns (value: real, num: nat)
    requires i <= |t|
    ensures num == Lex(t, i).1
    ensures value == Value(Lex(t, i).0)
  {
    var sign, scale, subscale, signsubscale := 1.0, 0, 0, 1;
    var n;
    num := i;
    if Peek(t, num) == MINUS {
      sign := -1.0;
      num := num + 1;
    }
    ghost var a := num;
    n, num := TakeWhole(t, num);
    n, scale, num := TakeFrac(t, num, n, t[a..num]);
    subscale, signsubscale, num := TakeExponent(t, num);
    Assembled(t, i, sign, n, scale, subscale, signsubscale);
    value := Scaled(sign, n, scale + subscale * signsubscale);
  }

  lemma Assembled(t: seq<byte>, i: nat, sign: real, n: nat, scale: int, subscale: nat, signsubscale: int)
    requires i <= |t|
    requires sign == if Peek(t, i) == MINUS then -1.0 else 1.0
    requires var a := SignEnd(t, i);
             var w := WholeEnd(t, a);
             var f := FracEnd(t, w);
             var frac := if f == w then [] else t[w + 1..f];
             n == DigitsValue(t[a..w] + frac) && scale == -|frac|
    requires match Lex(t, i).0.exponent
             case NoExponent => subscale == 0
             case Exponent(_, sign, digits) =>
               subscale == DigitsValue(digits) && signsubscale == if sign == MINUS then -1 else 1
    ensures Scaled(sign, n, scale + subscale * signsubscale) == Value(Lex(t, i).0)
  {
    var numeral := Lex(t, i).0;
    SignedExponent(numeral, subscale, signsubscale);
    assert n == DigitsValue(numeral.whole + numeral.frac);
    assert scale + subscale * signsubscale == ExponentValue(numeral) - |numeral.frac|;
  }

  lemma SignedExponent(n: Numeral, subscale: nat, signsubscale: int)
    requires HasDigits(n)
    requires match n.exponent
             case NoExponent => subscale == 0
             case Exponent(_, sign, digits) =>
               subscale == DigitsValue(digits) && signsubscale == if sign == MINUS then -1 else 1
    ensures subscale * signsubscale == ExponentValue(n)
  {
    if n.exponent.NoExponent? {
      assert 0 * signsubscale == 0;
    }
  }

  // ----- decimal output

  /** `%d` for a non-negative integer. */
  function Decimal(n: nat): (s: seq<byte>)
    ensures s != [] && AllDigits(s)
    ensures n > 0 ==> s[0] != ZERO
  {
    if n < 10 then [ZERO + n] else Decimal(n / 10) + [ZERO + n % 10]
  }

  lemma {:induction false} DecimalValue(n: nat)
    ensures DigitsValue(Decimal(n)) == n
  {
    if n >= 10 {
      DecimalValue(n / 10);
      DigitsValueSnoc(Decimal(n / 10), ZERO + n % 10);
    } else {
      DigitsValueSnoc([], ZERO + n);
      assert Decimal(n) == [] + [ZERO + n];
    }
  }

  lemma {:induction false} DecimalLength(n: nat, k: nat)
    requires 1 <= k && n < TenTo(k)
    ensures |Decimal(n)| <= k
  {
    if n >= 10 {
      DecimalLength(n / 10, k - 1);
    }
  }

  function IntNumeral(k: int): Numeral {
    Numeral(k < 0, Decimal(if k < 0 then -k else k), [], NoExponent)
  }

  lemma IntNumeralIsExact(k: int)
    ensures WellFormed(IntNumeral(k)) && Value(IntNumeral(k)) == k as real
  {
    var n := if k < 0 then -k else k;
    DecimalValue(n);
    assert Decimal(n) + [] == Decimal(n);
  }
}
