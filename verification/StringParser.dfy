/** The two passes of the string parser: the first measures how many bytes to allocate,
    the second transcodes into the allocated buffer. */
module StringParser {
  import opened CText
  import opened Utf8
  import opened Literal

  /** Four hexadecimal digits read one by one; 0 as soon as one is missing. */
  method ParseHex4(t: seq<byte>, i: nat) returns (h: nat)
    requires i <= |t|
    ensures h == if FourHex(t, i) then Unit(Uni(t[i], t[i + 1], t[i + 2], t[i + 3])) else 0
  {
    if HexVal(Peek(t, i)) < 0 { return 0; }
    h := HexVal(Peek(t, i));
    h := h * 16;
    if HexVal(Peek(t, i + 1)) < 0 { return 0; }
    h := h + HexVal(Peek(t, i + 1));
    h := h * 16;
    if HexVal(Peek(t, i + 2)) < 0 { return 0; }
    h := h + HexVal(Peek(t, i + 2));
    h := h * 16;
    if HexVal(Peek(t, i + 3)) < 0 { return 0; }
    h := h + HexVal(Peek(t, i + 3));
  }

  lemma HexDigitsAreRaw(t: seq<byte>, i: nat)
    requires FourHex(t, i) && Lex(t, i + 4).Scanned?
    ensures Lex(t, i).Scanned? && Lex(t, i).end == Lex(t, i + 4).end
    ensures Measure(Lex(t, i).es) == 4 + Measure(Lex(t, i + 4).es)
  {
    RawStep(t, i + 3);
    RawStep(t, i + 2);
    RawStep(t, i + 1);
    RawStep(t, i);
  }

  lemma RawStep(t: seq<byte>, i: nat)
    requires i < |t| && IsHex(t[i]) && Lex(t, i + 1).Scanned?
    ensures Lex(t, i).Scanned? && Lex(t, i).end == Lex(t, i + 1).end
    ensures Measure(Lex(t, i).es) == 1 + Measure(Lex(t, i + 1).es)
  {
    assert Lex(t, i) == Push(Raw(t[i]), Lex(t, i + 1));
    assert Lex(t, i).es[1..] == Lex(t, i + 1).es;
  }

  /** One iteration of the measuring pass, which looks at a backslash and the byte after it
      and takes hexadecimal digits one at a time. */
  lemma MeasureStep(t: seq<byte>, i: nat)
    requires i <= |t| && Lex(t, i).Scanned? && Peek(t, i) != QUOTE && Peek(t, i) != NUL
    ensures var n := if t[i] == BACKSLASH then 2 else 1;
            && i + n <= |t| && Lex(t, i + n).Scanned?
            && Lex(t, i + n).end == Lex(t, i).end
            && Measure(Lex(t, i).es) == 1 + Measure(Lex(t, i + n).es)
  {
    var s := Lex(t, i);
    LexStep(t, i);
    if s.es[0].Uni? {
      HexDigitsAreRaw(t, i + 2);
    }
  }

  /** The first pass. */
  method MeasureLiteral(t: seq<byte>, start: nat) returns (len: nat, ptr: nat)
    requires start <= |t| && Lex(t, start).Scanned?
    ensures len == Measure(Lex(t, start).es) && ptr == Lex(t, start).end
  {
    len, ptr := 0, start;
    while Peek(t, ptr) != QUOTE && Peek(t, ptr) != NUL
      invariant start <= ptr <= |t| && Lex(t, ptr).Scanned?
      invariant Lex(t, ptr).end == Lex(t, start).end
      invariant len + Measure(Lex(t, ptr).es) == Measure(Lex(t, start).es)
      decreases |t| - ptr
    {
      MeasureStep(t, ptr);
      len := len + 1;
      if Peek(t, ptr) == BACKSLASH {
        ptr := ptr + 1;
      }
      ptr := ptr + 1;
    }
  }

  const FIRST_BYTE_MARK: seq<byte> := [0x00, 0x00, 0xC0, 0xE0, 0xF0, 0xF8, 0xFC]

  function EncodedLength(cp: nat): nat {
    if cp < 0x80 then 1 else if cp < 0x800 then 2 else if cp < 0x1_0000 then 3 else 4
  }

  /** The bytes of an encoding, by repeated division. */
  lemma EncodeBytes(cp: nat)
    requires cp < 0x11_0000
    ensures var e, a := Encode(cp), cp / 64;
            var b := a / 64;
            && |e| == EncodedLength(cp)
            && (|e| == 1 ==> e[0] == FIRST_BYTE_MARK[1] + cp)
            && (|e| == 2 ==> e[0] == FIRST_BYTE_MARK[2] + a && e[1] == 0x80 + cp % 64)
            && (|e| == 3 ==> e[0] == FIRST_BYTE_MARK[3] + b && e[1] == 0x80 + a % 64 && e[2] == 0x80 + cp % 64)
            && (|e| == 4 ==> e[0] == FIRST_BYTE_MARK[4] + b / 64 && e[1] == 0x80 + b % 64 && e[2] == 0x80 + a % 64
                             && e[3] == 0x80 + cp % 64)
  {
  }

  /** Writes a code point backwards from the end of its encoding, as the fall-through switch does;
      `Utf8.MaskedBytes` and `Utf8.MarkedByte` tie the masks to this arithmetic. */
  method PutUtf8(out: array<byte>, at: nat, cp: nat) returns (next: nat)
    requires cp < 0x11_0000 && at + |Encode(cp)| <= out.Length
    modifies out
    ensures next == at + |Encode(cp)|
    ensures out[..at] == old(out[..at])
    ensures out[at..next] == Encode(cp)
    ensures out[next..] == old(out[next..])
  {
    hide Encode;
    EncodeBytes(cp);
    var uc := cp;
    var len := EncodedLength(uc);
    var ptr2 := at + len;
    if len >= 4 {
      ptr2 := ptr2 - 1;
      out[ptr2] := 0x80 + uc % 64;
      uc := uc / 64;
    }
    if len >= 3 {
      ptr2 := ptr2 - 1;
      out[ptr2] := 0x80 + uc % 64;
      uc := uc / 64;
    }
    if len >= 2 {
      ptr2 := ptr2 - 1;
      out[ptr2] := 0x80 + uc % 64;
      uc := uc / 64;
    }
    ptr2 := ptr2 - 1;
    out[ptr2] := FIRST_BYTE_MARK[len] + uc;
    next := ptr2 + len;
  }

  /** The rest of the literal at `ptr` and what is already written make up the whole string. */
  ghost predicate Decoded(t: seq<byte>, start: nat, ptr: nat, written: seq<byte>)
    requires start <= |t|
  {
    && Lex(t, start).Scanned?
    && ptr <= |t| && Lex(t, ptr).Scanned? && Lex(t, ptr).end == Lex(t, start).end
    && Denote(Lex(t, start).es) == written + Denote(Lex(t, ptr).es)
  }

  /** The text of the next decoding step: one element, or two for a surrogate pair. */
  function StepLength(t: seq<byte>, ptr: nat): nat
    requires ptr <= |t| && Lex(t, ptr).Scanned? && Lex(t, ptr).es != []
  {
    var es := Lex(t, ptr).es;
    |RenderElem(es[0])| + if Taken(es) == 2 then |RenderElem(es[1])| else 0
  }

  lemma PairLength(es: seq<Elem>)
    requires es != [] && WellFormedAll(es)
    ensures Taken(es) == 2 ==> |RenderElem(es[0])| == 6
  {
  }

  lemma DecodeStep(t: seq<byte>, start: nat, ptr: nat, written: seq<byte>)
    requires start <= |t| && Decoded(t, start, ptr, written) && Lex(t, ptr).es != []
    ensures Decoded(t, start, ptr + StepLength(t, ptr), written + First(Lex(t, ptr).es))
  {
    hide Lex, First, Taken, RenderElem;
    var es := Lex(t, ptr).es;
    LexStep(t, ptr);
    assert Taken(es) == 2 ==> |RenderElem(es[0])| == 6 by { PairLength(es); }
    if Taken(es) == 2 {
      LexStep(t, ptr + 6);
      assert es[1..][1..] == es[2..];
    }
    var rest := Denote(es[Taken(es)..]);
    assert written + (First(es) + rest) == (written + First(es)) + rest;
  }

  /** What the decoder sees at an escape, byte by byte. */
  lemma EscapeShape(t: seq<byte>, ptr: nat)
    requires ptr <= |t| && Lex(t, ptr).Scanned? && Peek(t, ptr) == BACKSLASH
    ensures ptr + 1 < |t| && Lex(t, ptr).es != []
    ensures var es := Lex(t, ptr).es;
            if t[ptr + 1] == LOWER_U then
              && FourHex(t, ptr + 2) && es[0] == Uni(t[ptr + 2], t[ptr + 3], t[ptr + 4], t[ptr + 5])
              && (var paired := Peek(t, ptr + 6) == BACKSLASH && Peek(t, ptr + 7) == LOWER_U;
                  && paired == (|es| > 1 && es[1].Uni?)
                  && (paired ==> FourHex(t, ptr + 8)
                                 && es[1] == Uni(t[ptr + 8], t[ptr + 9], t[ptr + 10], t[ptr + 11])))
            else es[0] == Esc(t[ptr + 1])
  {
    LexStep(t, ptr);
    if t[ptr + 1] == LOWER_U {
      var rest := Lex(t, ptr + 6);
      if rest.es != [] {
        LexStep(t, ptr + 6);
        assert rest.es[0] == Lex(t, ptr).es[1];
      }
    }
  }

  /** The `u` case of the switch: `ptr` stands on the `u` and ends on the last digit taken. */
  method DecodeUnicode(t: seq<byte>, ptr: nat, out: array<byte>, used: nat) returns (ptr': nat, used': nat)
    requires 0 < ptr <= |t| && Lex(t, ptr - 1).Scanned? && Lex(t, ptr - 1).es != []
    requires t[ptr - 1] == BACKSLASH && Peek(t, ptr) == LOWER_U
    requires used + |First(Lex(t, ptr - 1).es)| <= out.Length
    modifies out
    ensures ptr' + 1 == ptr - 1 + StepLength(t, ptr - 1)
    ensures used' == used + |First(Lex(t, ptr - 1).es)|
    ensures out[..used] == old(out[..used])
    ensures out[used..used'] == First(Lex(t, ptr - 1).es)
  {
    EscapeShape(t, ptr - 1);
    ghost var es := Lex(t, ptr - 1).es;
    ptr', used' := ptr, used;
    var uc := ParseHex4(t, ptr' + 1);
    ptr' := ptr' + 4;
    if IsLow(uc) || uc == 0 { return; }
    if IsHigh(uc) {
      if Peek(t, ptr' + 1) != BACKSLASH || Peek(t, ptr' + 2) != LOWER_U { return; }
      var uc2 := ParseHex4(t, ptr' + 3);
      ptr' := ptr' + 6;
      if !IsLow(uc2) { return; }
      uc := Pair(uc, uc2);
    }
    used' := PutUtf8(out, used', uc);
  }

  /** What one step takes and gives, but for `\u` escapes. */
  lemma SimpleStep(t: seq<byte>, ptr: nat)
    requires ptr <= |t| && Lex(t, ptr).Scanned? && Peek(t, ptr) != QUOTE && Peek(t, ptr) != NUL
    ensures Lex(t, ptr).es != []
    ensures Peek(t, ptr) != BACKSLASH ==> First(Lex(t, ptr).es) == [Peek(t, ptr)] && StepLength(t, ptr) == 1
    ensures Peek(t, ptr) == BACKSLASH ==> ptr + 1 < |t|
    ensures Peek(t, ptr) == BACKSLASH && Peek(t, ptr + 1) != LOWER_U ==>
              First(Lex(t, ptr).es) == [Unescape(Peek(t, ptr + 1))] && StepLength(t, ptr) == 2
  {
    if Peek(t, ptr) == BACKSLASH { EscapeShape(t, ptr); }
  }

  /** One iteration of the second pass. */
  method DecodeOne(t: seq<byte>, ptr: nat, out: array<byte>, used: nat) returns (ptr': nat, used': nat)
    requires ptr <= |t| && Lex(t, ptr).Scanned? && Peek(t, ptr) != QUOTE && Peek(t, ptr) != NUL
    requires used + |First(Lex(t, ptr).es)| <= out.Length
    modifies out
    ensures ptr' == ptr + StepLength(t, ptr)
    ensures used' == used + |First(Lex(t, ptr).es)|
    ensures out[..used'] == old(out[..used]) + First(Lex(t, ptr).es)
  {
    hide Lex, First, StepLength;
    SimpleStep(t, ptr);
    ptr', used' := ptr, used;
    if Peek(t, ptr') != BACKSLASH {
      out[used'] := Peek(t, ptr');
      used' := used' + 1;
      ptr' := ptr' + 1;
    } else {
      ptr' := ptr' + 1;
      if Peek(t, ptr') == LOWER_U {
        ptr', used' := DecodeUnicode(t, ptr', out, used');
        assert out[..used'] == out[..used] + out[used..used'];
      } else {
        out[used'] := Unescape(Peek(t, ptr'));
        used' := used' + 1;
      }
      ptr' := ptr' + 1;
    }
  }

  /** Where the scanner stands at a quote or at the end of the text, and elsewhere. */
  lemma AtEnd(t: seq<byte>, ptr: nat)
    requires ptr <= |t| && Lex(t, ptr).Scanned?
    ensures if Peek(t, ptr) == QUOTE || Peek(t, ptr) == NUL
            then Lex(t, ptr).es == [] && Lex(t, ptr).end == ptr else Lex(t, ptr).es != []
  {
  }

  lemma StepFits(t: seq<byte>, start: nat, ptr: nat, written: seq<byte>)
    requires start <= |t| && Decoded(t, start, ptr, written) && Lex(t, ptr).es != []
    ensures |written| + |First(Lex(t, ptr).es)| <= |Denote(Lex(t, start).es)| && StepLength(t, ptr) > 0
  {
    hide Lex, First, Taken;
  }

  /** The second pass: decodes into `out`, which the first pass has sized, and terminates it. */
  method DecodeLiteral(t: seq<byte>, start: nat, out: array<byte>) returns (end: nat, used: nat)
    requires start <= |t| && Lex(t, start).Scanned?
    requires out.Length == Measure(Lex(t, start).es) + 1
    modifies out
    ensures end == Lex(t, start).end
    ensures used == |Denote(Lex(t, start).es)| < out.Length
    ensures out[..used] == Denote(Lex(t, start).es) && out[used] == NUL
  {
    hide Lex, Denote, First, Measure, StepLength;
    ghost var all := Denote(Lex(t, start).es);
    DenoteFits(Lex(t, start).es);
    end, used := start, 0;
    assert [] + all == all;
    while Peek(t, end) != QUOTE && Peek(t, end) != NUL
      invariant used <= |all| < out.Length
      invariant Decoded(t, start, end, out[..used])
      decreases |t| - end
    {
      AtEnd(t, end);
      StepFits(t, start, end, out[..used]);
      DecodeStep(t, start, end, out[..used]);
      end, used := DecodeOne(t, end, out, used);
    }
    AtEnd(t, end);
    assert out[..used] == all by { NothingLeft(out[..used]); }
    out[used] := NUL;
  }

  lemma NothingLeft(s: seq<byte>)
    ensures s + Denote([]) == s
  {
  }
}
