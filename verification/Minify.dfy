/** `cJSON_Minify`: strips blanks and comments in place. On every text of the grammar with comments
    in its slots the result is the text of the same tree with empty slots. */
module Minify {
  import opened CText

  /** `Broken` stands for an unterminated string or block comment, where the C code runs past the
      terminator. */
  datatype Result = Kept(text: seq<byte>) | Broken

  predicate IsJsonBlank(b: byte) { b == SPACE || b == TAB || b == CR || b == LF }

  function Prepend(w: seq<byte>, r: Result): Result {
    if r.Broken? then Broken else Kept(w + r.text)
  }

  function LineEnd(t: seq<byte>, i: nat): (e: nat)
    requires i <= |t|
    ensures i <= e <= |t|
    ensures Peek(t, i) != NUL && Peek(t, i) != LF ==> i < e
    decreases |t| - i
  {
    if Peek(t, i) == NUL || Peek(t, i) == LF then i else LineEnd(t, i + 1)
  }

  /** Where the next star-slash begins, or the terminator. */
  function CommentEnd(t: seq<byte>, i: nat): (e: nat)
    requires i <= |t|
    ensures i <= e <= |t|
    ensures Peek(t, e) != NUL ==> t[e] == STAR && Peek(t, e + 1) == SLASH
    decreases |t| - i
  {
    if Peek(t, i) == NUL || (t[i] == STAR && Peek(t, i + 1) == SLASH) then i else CommentEnd(t, i + 1)
  }

  /** Where the closing quote of a literal is; |t| if there is none. */
  function QuoteEnd(t: seq<byte>, i: nat): (e: nat)
    requires i <= |t|
    ensures i <= e <= |t|
    ensures e < |t| ==> t[e] == QUOTE
    decreases |t| - i
  {
    if Peek(t, i) == NUL then |t|
    else if t[i] == QUOTE then i
    else if t[i] == BACKSLASH then
      if Peek(t, i + 1) == NUL then |t| else QuoteEnd(t, i + 2)
    else QuoteEnd(t, i + 1)
  }

  /** What is kept of the text from `i` on. */
  function Minified(t: seq<byte>, i: nat): (r: Result)
    requires i <= |t|
    decreases |t| - i
  {
    var b := Peek(t, i);
    if b == NUL then Kept([])
    else if IsJsonBlank(b) then Minified(t, i + 1)
    else if b == SLASH && Peek(t, i + 1) == SLASH then Minified(t, LineEnd(t, i))
    else if b == SLASH && Peek(t, i + 1) == STAR then
      var e := CommentEnd(t, i);
      if Peek(t, e) == NUL then Broken else Minified(t, e + 2)
    else if b == QUOTE then
      var e := QuoteEnd(t, i + 1);
      if e == |t| then Broken else Prepend(t[i..e + 1], Minified(t, e + 1))
    else Prepend([b], Minified(t, i + 1))
  }

  lemma {:induction false} MinifiedShrinks(t: seq<byte>, i: nat)
    requires i <= |t| && Minified(t, i).Kept?
    ensures |Minified(t, i).text| <= |t| - i
    decreases |t| - i
  {
    var b := Peek(t, i);
    if b == NUL {
    } else if IsJsonBlank(b) {
      MinifiedShrinks(t, i + 1);
    } else if b == SLASH && Peek(t, i + 1) == SLASH {
      MinifiedShrinks(t, LineEnd(t, i));
    } else if b == SLASH && Peek(t, i + 1) == STAR {
      MinifiedShrinks(t, CommentEnd(t, i) + 2);
    } else if b == QUOTE {
      MinifiedShrinks(t, QuoteEnd(t, i + 1) + 1);
    } else {
      MinifiedShrinks(t, i + 1);
    }
  }

  // ----- in place

  /** The part of the buffer not read yet is as it was, and its text is `t`. */
  ghost predicate Unread(s: seq<byte>, t: seq<byte>, json: nat) {
    && json <= |t| < |s| && s[|t|] == NUL && NUL !in t
    && forall k :: json <= k < |t| ==> s[k] == t[k]
  }

  method SkipLine(a: array<byte>, ghost t: seq<byte>, start: nat) returns (json: nat)
    requires Unread(a[..], t, start)
    ensures json == LineEnd(t, start)
  {
    json := start;
    while a[json] != NUL && a[json] != LF
      invariant start <= json <= |t| && LineEnd(t, json) == LineEnd(t, start)
      decreases |t| - json
    {
      assert a[json] == Peek(t, json);
      json := json + 1;
    }
  }

  method SkipComment(a: array<byte>, ghost t: seq<byte>, start: nat) returns (json: nat)
    requires Unread(a[..], t, start)
    ensures json == CommentEnd(t, start)
  {
    json := start;
    while a[json] != NUL && !(a[json] == STAR && a[json + 1] == SLASH)
      invariant start <= json <= |t| && CommentEnd(t, json) == CommentEnd(t, start)
      decreases |t| - json
    {
      assert a[json] == Peek(t, json) && a[json + 1] == Peek(t, json + 1);
      json := json + 1;
    }
  }

  /** The literal from `start` up to `json` stands at `at`; nothing else has changed. */
  ghost predicate Moved(was: seq<byte>, now: seq<byte>, t: seq<byte>, start: nat, at: nat, json: nat)
    requires start <= json <= |t|
  {
    && |now| == |was| && at + (json - start) <= |was|
    && (forall k :: 0 <= k < at || at + (json - start) <= k < |was| ==> now[k] == was[k])
    && (forall k :: at <= k < at + (json - start) ==> now[k] == t[start + (k - at)])
  }

  /** One byte down. */
  method MoveByte(a: array<byte>, ghost t: seq<byte>, ghost was: seq<byte>, ghost start: nat, ghost at: nat,
                  json: nat, into: nat)
    requires at <= start <= json < |t| && into == at + (json - start)
    requires Unread(was, t, start) && Moved(was, a[..], t, start, at, json)
    modifies a
    ensures Moved(was, a[..], t, start, at, json + 1)
  {
    a[into] := a[json];
  }

  lemma StillThere(was: seq<byte>, now: seq<byte>, t: seq<byte>, start: nat, at: nat, json: nat)
    requires at <= start <= json < |t| && Unread(was, t, start) && Moved(was, now, t, start, at, json)
    ensures json + 1 < |now| && now[json] == t[json] && now[json + 1] == Peek(t, json + 1)
  {
  }

  lemma NotMoved(s: seq<byte>, t: seq<byte>, start: nat, at: nat)
    requires at <= start < |t| && Unread(s, t, start)
    ensures Moved(s, s, t, start, at, start)
  {
  }

  lemma AtQuote(t: seq<byte>, i: nat)
    requires i < |t| && (t[i] == QUOTE || t[i] == NUL) && QuoteEnd(t, i) < |t|
    ensures QuoteEnd(t, i) == i
  {
  }

  lemma QuoteStep(t: seq<byte>, i: nat)
    requires i < |t| && QuoteEnd(t, i) < |t| && t[i] != QUOTE
    ensures var n := if t[i] == BACKSLASH then 2 else 1;
            i + n <= QuoteEnd(t, i) && QuoteEnd(t, i + n) == QuoteEnd(t, i)
  {
  }

  /** Moves a string literal, whose opening quote is at `start`, down to `at`. */
  method CopyLiteral(a: array<byte>, ghost t: seq<byte>, start: nat, at: nat) returns (json: nat, into: nat)
    requires at <= start < |t| && Unread(a[..], t, start) && t[start] == QUOTE && QuoteEnd(t, start + 1) < |t|
    modifies a
    ensures json == QuoteEnd(t, start + 1) + 1 && into == at + (json - start)
    ensures Moved(old(a[..]), a[..], t, start, at, json)
  {
    hide QuoteEnd, Moved, Peek;
    json, into := start, at;
    assert Moved(old(a[..]), a[..], t, start, at, json) by { NotMoved(a[..], t, start, at); }
    MoveByte(a, t, old(a[..]), start, at, json, into);
    json, into := json + 1, into + 1;
    while a[json] != NUL && a[json] != QUOTE
      invariant start < json < |t| && into == at + (json - start)
      invariant QuoteEnd(t, json) == QuoteEnd(t, start + 1) < |t|
      invariant Moved(old(a[..]), a[..], t, start, at, json)
      decreases |t| - json
    {
      StillThere(old(a[..]), a[..], t, start, at, json);
      QuoteStep(t, json);
      if a[json] == BACKSLASH {
        MoveByte(a, t, old(a[..]), start, at, json, into);
        json, into := json + 1, into + 1;
      }
      MoveByte(a, t, old(a[..]), start, at, json, into);
      json, into := json + 1, into + 1;
    }
    StillThere(old(a[..]), a[..], t, start, at, json);
    assert json == QuoteEnd(t, start + 1) by { AtQuote(t, json); }
    MoveByte(a, t, old(a[..]), start, at, json, into);
    json, into := json + 1, into + 1;
  }

  /** Where one iteration ends. */
  function Next(t: seq<byte>, i: nat): (n: nat)
    requires i < |t| && t[i] != NUL && Minified(t, i).Kept?
    ensures i < n <= |t|
  {
    var b := t[i];
    if IsJsonBlank(b) then i + 1
    else if b == SLASH && Peek(t, i + 1) == SLASH then LineEnd(t, i)
    else if b == SLASH && Peek(t, i + 1) == STAR then CommentEnd(t, i) + 2
    else if b == QUOTE then QuoteEnd(t, i + 1) + 1
    else i + 1
  }

  predicate Dropped(t: seq<byte>, i: nat)
    requires i < |t|
  {
    IsJsonBlank(t[i]) || (t[i] == SLASH && (Peek(t, i + 1) == SLASH || Peek(t, i + 1) == STAR))
  }

  /** What one iteration keeps: nothing, or all it reads. */
  function Piece(t: seq<byte>, i: nat): seq<byte>
    requires i < |t| && t[i] != NUL && Minified(t, i).Kept?
  {
    if Dropped(t, i) then [] else t[i..Next(t, i)]
  }

  lemma MinifiedStep(t: seq<byte>, i: nat)
    requires i < |t| && t[i] != NUL && Minified(t, i).Kept?
    ensures Minified(t, Next(t, i)).Kept?
    ensures Minified(t, i).text == Piece(t, i) + Minified(t, Next(t, i)).text
  {
    if !Dropped(t, i) && t[i] != QUOTE {
      assert t[i..i + 1] == [t[i]];
    }
  }

  /** One iteration. */
  method MinifyOne(a: array<byte>, ghost t: seq<byte>, start: nat, at: nat) returns (json: nat, into: nat)
    requires at <= start < |t| && Unread(a[..], t, start) && Minified(t, start).Kept?
    modifies a
    ensures json == Next(t, start) && into == at + |Piece(t, start)|
    ensures Moved(old(a[..]), a[..], t, start, at, if Dropped(t, start) then start else json)
  {
    json, into := start, at;
    assert a[json] == t[json] && a[json + 1] == Peek(t, json + 1);
    if a[json] == SPACE {
      json := json + 1;
    } else if a[json] == TAB {
      json := json + 1;
    } else if a[json] == CR {
      json := json + 1;
    } else if a[json] == LF {
      json := json + 1;
    } else if a[json] == SLASH && a[json + 1] == SLASH {
      json := SkipLine(a, t, json);
    } else if a[json] == SLASH && a[json + 1] == STAR {
      json := SkipComment(a, t, json);
      json := json + 2;
    } else if a[json] == QUOTE {
      json, into := CopyLiteral(a, t, json, into);
    } else {
      MoveByte(a, t, a[..], start, at, json, into);
      json, into := json + 1, into + 1;
    }
  }

  /** What stands in front of the write index after an iteration. */
  lemma Written(was: seq<byte>, now: seq<byte>, t: seq<byte>, start: nat, at: nat)
    requires at <= start < |t| && Unread(was, t, start) && Minified(t, start).Kept?
    requires Moved(was, now, t, start, at, if Dropped(t, start) then start else Next(t, start))
    ensures var into := at + |Piece(t, start)|;
            && into <= Next(t, start)
            && now[..into] == was[..at] + Piece(t, start)
            && now[into..] == was[into..]
            && Unread(now, t, Next(t, start))
  {
    hide Minified;
    var into := at + |Piece(t, start)|;
    assert forall k :: at <= k < into ==> now[k] == Piece(t, start)[k - at];
  }

  /** Overwrites the text `t` that the buffer holds with what is kept of it. The write index never
      passes the read index, so nothing is lost before it is read. */
  method MinifyInPlace(a: array<byte>, ghost t: seq<byte>)
    requires Unread(a[..], t, 0) && Minified(t, 0).Kept?
    modifies a
    ensures var kept := Minified(t, 0).text;
            && |kept| <= |t|
            && a[..|kept|] == kept && a[|kept|] == NUL
            && a[|kept| + 1..] == old(a[|kept| + 1..])
  {
    hide Minified, Piece, Next, Moved, Dropped;
    var json, into := 0, 0;
    while a[json] != NUL
      invariant 0 <= into <= json <= |t| && Unread(a[..], t, json)
      invariant Minified(t, json).Kept? && Minified(t, 0).text == a[..into] + Minified(t, json).text
      invariant a[into..] == old(a[..])[into..]
      decreases |t| - json
    {
      ghost var was, start, at := a[..], json, into;
      MinifiedStep(t, json);
      json, into := MinifyOne(a, t, json, into);
      Written(was, a[..], t, start, at);
      assert was[into..] == old(a[..])[into..] by { Later(was, old(a[..]), at, into); }
      Associate(was[..at], Piece(t, start), Minified(t, json).text);
    }
    assert Minified(t, json) == Kept([]) by { AtEnd(t, json); }
    a[into] := NUL;
  }

  lemma Associate(x: seq<byte>, y: seq<byte>, z: seq<byte>)
    ensures x + (y + z) == (x + y) + z
  {
  }

  lemma AtEnd(t: seq<byte>, i: nat)
    requires i <= |t| && Peek(t, i) == NUL
    ensures Minified(t, i) == Kept([])
  {
  }

  lemma Later(s: seq<byte>, s': seq<byte>, i: nat, j: nat)
    requires i <= j <= |s| == |s'| && s[i..] == s'[i..]
    ensures s[j..] == s'[j..]
  {
    assert s[j..] == s[i..][j - i..];
    assert s'[j..] == s'[i..][j - i..];
  }
}
