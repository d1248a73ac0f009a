/** Byte strings as the C code sees them: `t` is the contents of a NUL-terminated
    string and index |t| holds the terminator, so reading past |t| is out of bounds. */
module CText {
  type byte = b: int | 0 <= b < 256

  const NUL: byte := 0
  const TAB: byte := 9
  const LF: byte := 10
  const CR: byte := 13
  const SPACE: byte := 32
  const QUOTE: byte := 34
  const STAR: byte := 42
  const PLUS: byte := 43
  const COMMA: byte := 44
  const MINUS: byte := 45
  const DOT: byte := 46
  const SLASH: byte := 47
  const ZERO: byte := 48
  const NINE: byte := 57
  const COLON: byte := 58
  const LBRACKET: byte := 91
  const BACKSLASH: byte := 92
  const RBRACKET: byte := 93
  const LOWER_B: byte := 98
  const LOWER_E: byte := 101
  const LOWER_F: byte := 102
  const LOWER_N: byte := 110
  const LOWER_R: byte := 114
  const LOWER_T: byte := 116
  const LOWER_U: byte := 117
  const UPPER_E: byte := 69
  const LBRACE: byte := 123
  const RBRACE: byte := 125

  /** The names of the bytes are those of ASCII. */
  lemma AsciiCodes()
    ensures TAB == '\t' as int && LF == '\n' as int && CR == '\r' as int && SPACE == ' ' as int
    ensures QUOTE == '"' as int && BACKSLASH == '\\' as int && SLASH == '/' as int && STAR == '*' as int
    ensures COMMA == ',' as int && COLON == ':' as int && DOT == '.' as int && PLUS == '+' as int && MINUS == '-' as int
    ensures LBRACKET == '[' as int && RBRACKET == ']' as int && LBRACE == '{' as int && RBRACE == '}' as int
    ensures ZERO == '0' as int && NINE == '9' as int && LOWER_E == 'e' as int && UPPER_E == 'E' as int
    ensures LOWER_B == 'b' as int && LOWER_F == 'f' as int && LOWER_N == 'n' as int && LOWER_R == 'r' as int
    ensures LOWER_T == 't' as int && LOWER_U == 'u' as int
  {
  }

  /** `t[i]` where the terminator may be read too. */
  function Peek(t: seq<byte>, i: nat): byte
    requires i <= |t|
  {
    if i < |t| then t[i] else NUL
  }

  /** `w` stands in `t` at index `i`. */
  predicate At(t: seq<byte>, i: nat, w: seq<byte>) {
    i + |w| <= |t| && forall k :: 0 <= k < |w| ==> t[i + k] == w[k]
  }

  lemma AtSlice(t: seq<byte>, i: nat, w: seq<byte>)
    ensures At(t, i, w) <==> i + |w| <= |t| && t[i..i + |w|] == w
  {
    if i + |w| <= |t| {
      var slice := t[i..i + |w|];
      assert forall k :: 0 <= k < |w| ==> slice[k] == t[i + k];
    }
  }

  lemma AtSplit(t: seq<byte>, i: nat, a: seq<byte>, b: seq<byte>)
    ensures At(t, i, a + b) <==> At(t, i, a) && At(t, i + |a|, b)
  {
    var w := a + b;
    if At(t, i, w) {
      assert forall k :: 0 <= k < |a| ==> a[k] == w[k];
      assert forall k :: 0 <= k < |b| ==> b[k] == w[|a| + k];
    }
    if At(t, i, a) && At(t, i + |a|, b) {
      forall k | 0 <= k < |w| ensures t[i + k] == w[k] {
        if k >= |a| { assert t[i + |a| + (k - |a|)] == b[k - |a|]; }
      }
    }
  }

  lemma AtCons(t: seq<byte>, i: nat, c: byte, rest: seq<byte>)
    ensures At(t, i, [c] + rest) <==> i < |t| && t[i] == c && At(t, i + 1, rest)
  {
    AtSplit(t, i, [c], rest);
    if At(t, i, [c]) { AtFirst(t, i, [c]); }
  }

  lemma AtThree(t: seq<byte>, i: nat, a: seq<byte>, b: seq<byte>, c: seq<byte>)
    ensures At(t, i, a + (b + c)) <==> At(t, i, a) && At(t, i + |a|, b) && At(t, i + |a| + |b|, c)
  {
    AtSplit(t, i, a, b + c);
    AtSplit(t, i + |a|, b, c);
  }

  lemma AtFour(t: seq<byte>, i: nat, a: seq<byte>, b: seq<byte>, c: seq<byte>, d: seq<byte>)
    ensures At(t, i, a + (b + (c + d)))
       <==> && At(t, i, a) && At(t, i + |a|, b) && At(t, i + |a| + |b|, c)
            && At(t, i + |a| + |b| + |c|, d)
  {
    AtSplit(t, i, a, b + (c + d));
    AtThree(t, i + |a|, b, c, d);
  }

  lemma AtFirst(t: seq<byte>, i: nat, w: seq<byte>)
    requires At(t, i, w) && w != []
    ensures Peek(t, i) == w[0]
  {
    assert t[i + 0] == w[0];
  }

  /** The C string held by a buffer: everything before its first NUL. */
  function CStr(s: seq<byte>): seq<byte> {
    if s == [] || s[0] == NUL then [] else [s[0]] + CStr(s[1..])
  }

  lemma {:induction false} CStrOf(s: seq<byte>, w: seq<byte>)
    requires |w| < |s| && s[..|w|] == w && s[|w|] == NUL && NUL !in w
    ensures CStr(s) == w
  {
    if w != [] {
      assert s[0] == w[0];
      assert s[1..][..|w| - 1] == s[..|w|][1..];
      CStrOf(s[1..], w[1..]);
      assert w == [w[0]] + w[1..];
    }
  }

  predicate IsDigit(b: byte) { ZERO <= b <= NINE }

  /** First index at or after `i` that holds no decimal digit. */
  function DigitsEnd(t: seq<byte>, i: nat): (e: nat)
    requires i <= |t|
    ensures i <= e <= |t|
    ensures forall k :: i <= k < e ==> IsDigit(t[k])
    ensures !IsDigit(Peek(t, e))
    decreases |t| - i
  {
    if i < |t| && IsDigit(t[i]) then DigitsEnd(t, i + 1) else i
  }

  /** The parser's whitespace: every byte from 1 to 32. */
  predicate IsSkipped(b: byte) { 0 < b <= 32 }

  function Skip(t: seq<byte>, i: nat): (e: nat)
    requires i <= |t|
    ensures i <= e <= |t| && !IsSkipped(Peek(t, e))
    decreases |t| - i
  {
    if IsSkipped(Peek(t, i)) then Skip(t, i + 1) else i
  }

  lemma {:induction false} SkipRun(t: seq<byte>, i: nat, w: seq<byte>)
    requires At(t, i, w) && Blanks(w)
    ensures Skip(t, i) == Skip(t, i + |w|)
    decreases |w|
  {
    if w != [] {
      AtFirst(t, i, w);
      SkipRun(t, i + 1, w[1..]);
    }
  }

  predicate Blanks(w: seq<byte>) { forall k :: 0 <= k < |w| ==> IsSkipped(w[k]) }

  /** Skipping over blanks stops where they do. */
  lemma SkipBlanks(t: seq<byte>, i: nat, w: seq<byte>, e: nat)
    requires At(t, i, w) && Blanks(w) && e == i + |w| && !IsSkipped(Peek(t, e))
    ensures Skip(t, i) == e
  {
    SkipRun(t, i, w);
  }

  /** What a buffer holds as a string ends at its first NUL. */
  lemma {:induction false} CStrHasNoNul(s: seq<byte>)
    ensures NUL !in CStr(s)
  {
    if s != [] && s[0] != NUL { CStrHasNoNul(s[1..]); }
  }
}
