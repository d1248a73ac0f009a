/** UTF-8 after RFC 3629: the encoding table of section 3 and the byte-sequence grammar of section 4. */
module Utf8 {
  import opened CText

  predicate IsScalar(cp: nat) { cp < 0xD800 || 0xE000 <= cp < 0x11_0000 }

  function Encode(cp: nat): seq<byte>
    requires cp < 0x11_0000
  {
    if cp < 0x80 then [cp]
    else
      var c1 := cp / 64;
      if cp < 0x800 then [0xC0 + c1, 0x80 + cp % 64]
      else
        var c2 := c1 / 64;
        if cp < 0x1_0000 then [0xE0 + c2, 0x80 + c1 % 64, 0x80 + cp % 64]
        else [0xF0 + c2 / 64, 0x80 + c2 % 64, 0x80 + c1 % 64, 0x80 + cp % 64]
  }

  /** The table of section 3 of RFC 3629: the bits of the scalar value, six to a byte from the right. */
  lemma EncodeTable(cp: nat)
    requires cp < 0x11_0000
    ensures Encode(cp) ==
            if cp <= 0x7F then [cp]
            else if cp <= 0x7FF then [0xC0 + cp / 0x40, 0x80 + cp % 0x40]
            else if cp <= 0xFFFF then [0xE0 + cp / 0x1000, 0x80 + cp / 0x40 % 0x40, 0x80 + cp % 0x40]
            else [0xF0 + cp / 0x4_0000, 0x80 + cp / 0x1000 % 0x40, 0x80 + cp / 0x40 % 0x40, 0x80 + cp % 0x40]
  {
  }

  predicate IsTail(b: byte) { 0x80 <= b <= 0xBF }

  /** One `UTF8-char` of the section 4 grammar. */
  predicate ValidChar(s: seq<byte>) {
    match |s|
    case 1 => s[0] <= 0x7F
    case 2 => 0xC2 <= s[0] <= 0xDF && IsTail(s[1])
    case 3 =>
      && (|| (s[0] == 0xE0 && 0xA0 <= s[1] <= 0xBF)
          || (0xE1 <= s[0] <= 0xEC && IsTail(s[1]))
          || (s[0] == 0xED && 0x80 <= s[1] <= 0x9F)
          || (0xEE <= s[0] <= 0xEF && IsTail(s[1])))
      && IsTail(s[2])
    case 4 =>
      && (|| (s[0] == 0xF0 && 0x90 <= s[1] <= 0xBF)
          || (0xF1 <= s[0] <= 0xF3 && IsTail(s[1]))
          || (s[0] == 0xF4 && 0x80 <= s[1] <= 0x8F))
      && IsTail(s[2]) && IsTail(s[3])
    case _ => false
  }

  /** The number of bytes the first byte announces. */
  function CharLength(first: byte): (n: nat)
    ensures 1 <= n <= 4
  {
    if first < 0xC0 then 1 else if first < 0xE0 then 2 else if first < 0xF0 then 3 else 4
  }

  predicate ValidUtf8(s: seq<byte>) {
    || s == []
    || var n := CharLength(s[0]);
       n <= |s| && ValidChar(s[..n]) && ValidUtf8(s[n..])
  }

  /** The scalar value of one character, by the bit distribution of section 3. */
  function DecodeChar(s: seq<byte>): nat
    requires ValidChar(s)
  {
    match |s|
    case 1 => s[0]
    case 2 => Bits(s[0], 0xC0) * 64 + Bits(s[1], 0x80)
    case 3 => (Bits(s[0], 0xE0) * 64 + Bits(s[1], 0x80)) * 64 + Bits(s[2], 0x80)
    case _ => ((Bits(s[0], 0xF0) * 64 + Bits(s[1], 0x80)) * 64 + Bits(s[2], 0x80)) * 64 + Bits(s[3], 0x80)
  }

  /** The payload of a byte whose leading marker is `marker`. */
  function Bits(b: byte, marker: byte): nat
    requires marker <= b
  {
    b - marker
  }

  lemma DecodeEncode(cp: nat)
    requires IsScalar(cp)
    ensures ValidChar(Encode(cp)) && DecodeChar(Encode(cp)) == cp
  {
  }

  /** A character has no other encoding: section 4 admits only the shortest form. */
  lemma EncodeDecode(s: seq<byte>)
    requires ValidChar(s)
    ensures IsScalar(DecodeChar(s)) && Encode(DecodeChar(s)) == s
  {
    if |s| == 3 {
      EncodeDecode3(s);
    } else if |s| == 4 {
      EncodeDecode4(s);
    }
  }

  lemma EncodeDecode3(s: seq<byte>)
    requires |s| == 3 && ValidChar(s)
    ensures IsScalar(DecodeChar(s)) && Encode(DecodeChar(s)) == s
  {
    var c1 := Bits(s[0], 0xE0) * 64 + Bits(s[1], 0x80);
    var cp := c1 * 64 + Bits(s[2], 0x80);
    assert cp / 64 == c1 && cp % 64 == Bits(s[2], 0x80);
    assert c1 / 64 == Bits(s[0], 0xE0) && c1 % 64 == Bits(s[1], 0x80);
  }

  lemma EncodeDecode4(s: seq<byte>)
    requires |s| == 4 && ValidChar(s)
    ensures IsScalar(DecodeChar(s)) && Encode(DecodeChar(s)) == s
  {
    var c2 := Bits(s[0], 0xF0) * 64 + Bits(s[1], 0x80);
    var c1 := c2 * 64 + Bits(s[2], 0x80);
    var cp := c1 * 64 + Bits(s[3], 0x80);
    assert cp / 64 == c1 && cp % 64 == Bits(s[3], 0x80);
    assert c1 / 64 == c2 && c1 % 64 == Bits(s[2], 0x80);
    assert c2 / 64 == Bits(s[0], 0xF0) && c2 % 64 == Bits(s[1], 0x80);
  }

  /** A byte-at-a-time recogniser of the same grammar, used to reason about escapes
      that fall between the bytes of a text. */
  datatype State = Start | Tail1 | Tail2 | Tail3 | AfterE0 | AfterED | AfterF0 | AfterF4 | Error

  function Step(q: State, b: byte): State {
    match q
    case Start =>
      if b <= 0x7F then Start
      else if 0xC2 <= b <= 0xDF then Tail1
      else if b == 0xE0 then AfterE0
      else if b == 0xED then AfterED
      else if 0xE1 <= b <= 0xEF then Tail2
      else if b == 0xF0 then AfterF0
      else if 0xF1 <= b <= 0xF3 then Tail3
      else if b == 0xF4 then AfterF4
      else Error
    case Tail1 => if IsTail(b) then Start else Error
    case Tail2 => if IsTail(b) then Tail1 else Error
    case Tail3 => if IsTail(b) then Tail2 else Error
    case AfterE0 => if 0xA0 <= b <= 0xBF then Tail1 else Error
    case AfterED => if 0x80 <= b <= 0x9F then Tail1 else Error
    case AfterF0 => if 0x90 <= b <= 0xBF then Tail2 else Error
    case AfterF4 => if 0x80 <= b <= 0x8F then Tail2 else Error
    case Error => Error
  }

  function Run(q: State, s: seq<byte>): State
    decreases |s|
  {
    if s == [] then q else Run(Step(q, s[0]), s[1..])
  }

  lemma RunShort(q: State, s: seq<byte>)
    ensures |s| == 1 ==> Run(q, s) == Step(q, s[0])
    ensures |s| == 2 ==> Run(q, s) == Step(Step(q, s[0]), s[1])
    ensures |s| == 3 ==> Run(q, s) == Step(Step(Step(q, s[0]), s[1]), s[2])
    ensures |s| == 4 ==> Run(q, s) == Step(Step(Step(Step(q, s[0]), s[1]), s[2]), s[3])
  {
    if |s| >= 2 {
      var q1 := Step(q, s[0]);
      var q2 := Step(q1, s[1]);
      assert s[1..][1..] == s[2..];
      assert Run(q1, s[1..]) == Run(q2, s[2..]);
      if |s| >= 3 {
        var q3 := Step(q2, s[2]);
        assert s[2..][1..] == s[3..];
        assert Run(q2, s[2..]) == Run(q3, s[3..]);
        if |s| == 4 {
          assert s[3..][1..] == [];
          assert Run(q3, s[3..]) == Step(q3, s[3]);
        }
      }
    }
  }

  lemma {:induction false} RunSplit(q: State, a: seq<byte>, b: seq<byte>)
    ensures Run(q, a + b) == Run(Run(q, a), b)
    decreases |a|
  {
    if a == [] {
      assert a + b == b;
    } else {
      assert (a + b)[1..] == a[1..] + b;
      RunSplit(Step(q, a[0]), a[1..], b);
    }
  }

  lemma {:induction false} RunError(s: seq<byte>)
    ensures Run(Error, s) == Error
  {
    if s != [] { RunError(s[1..]); }
  }

  /** One character's worth of steps leads back to the start exactly when it is a character. */
  lemma RunChar(s: seq<byte>)
    requires s != [] && |s| == CharLength(s[0])
    ensures Run(Start, s) == (if ValidChar(s) then Start else Error)
  {
    RunShort(Start, s);
  }

  lemma TruncatedRun(s: seq<byte>)
    requires s != [] && |s| < CharLength(s[0])
    ensures Run(Start, s) != Start
  {
    RunShort(Start, s);
  }

  lemma {:induction false} RunIsValid(s: seq<byte>)
    ensures ValidUtf8(s) <==> Run(Start, s) == Start
  {
    if s != [] {
      var n := CharLength(s[0]);
      if n <= |s| {
        RunChar(s[..n]);
        assert s == s[..n] + s[n..];
        RunSplit(Start, s[..n], s[n..]);
        RunError(s[n..]);
        RunIsValid(s[n..]);
      } else {
        TruncatedRun(s);
      }
    }
  }

  /** The source computes the bytes with masks; on 32-bit words those masks are this arithmetic. */
  lemma MaskedBytes(u: bv32)
    ensures ((u | 0x80) & 0xBF) == 0x80 + u % 64
    ensures u >> 6 == u / 64
  {
  }

  lemma MarkedByte(u: bv32, mark: bv32)
    requires (u < 0x20 && mark == 0xC0) || (u < 0x10 && mark == 0xE0) || (u < 0x08 && mark == 0xF0)
    ensures u | mark == mark + u
  {
  }

  lemma MaskedPair(hi: bv32, lo: bv32)
    requires 0xD800 <= hi <= 0xDBFF && 0xDC00 <= lo <= 0xDFFF
    ensures 0x1_0000 + (((hi & 0x3FF) << 10) | (lo & 0x3FF)) == 0x1_0000 + (hi - 0xD800) * 0x400 + (lo - 0xDC00)
  {
  }
}
