/** JSON string escaping and extraction of the model bridge (kernel/ai_bridge.c). */
module JsonText {
  import opened Bytes

  const QUOTE: Byte := 34
  const BACKSLASH: Byte := 92
  const COLON: Byte := 58
  const SPACE: Byte := 32
  const TAB: Byte := 9
  const NEWLINE: Byte := 10
  const RETURN: Byte := 13
  const N: Byte := 110
  const R: Byte := 114
  const T: Byte := 116

  // ---- escaping ----

  function EscapeByte(c: Byte): (e: seq<Byte>)
    ensures 1 <= |e| <= 2
  {
    if c == QUOTE || c == BACKSLASH then [BACKSLASH, c]
    else if c == NEWLINE then [BACKSLASH, N]
    else if c == RETURN then [BACKSLASH, R]
    else if c == TAB then [BACKSLASH, T]
    else [c]
  }

  function Escape(s: seq<Byte>): seq<Byte> {
    if s == [] then [] else EscapeByte(s[0]) + Escape(s[1..])
  }

  /** How many source bytes are escaped into a buffer with `room` bytes left. */
  function Fit(s: seq<Byte>, room: int): (k: nat)
    ensures k <= |s|
  {
    if s == [] || room <= 2 then 0 else 1 + Fit(s[1..], room - |EscapeByte(s[0])|)
  }

  lemma {:induction false} EscapeConcat(a: seq<Byte>, b: seq<Byte>)
    ensures Escape(a + b) == Escape(a) + Escape(b)
  {
    if a == [] {
      assert a + b == b;
    } else {
      assert (a + b)[1..] == a[1..] + b;
      EscapeConcat(a[1..], b);
      assert EscapeByte(a[0]) + (Escape(a[1..]) + Escape(b)) == (EscapeByte(a[0]) + Escape(a[1..])) + Escape(b);
    }
  }

  /** Five bytes are escaped, every other stands for itself. */
  lemma EscapedForms(c: Byte)
    ensures Escape([c]) ==
            if c == 34 then [92, 34] else if c == 92 then [92, 92]
            else if c == 10 then [92, 110] else if c == 13 then [92, 114] else if c == 9 then [92, 116]
            else [c]
  {
    EscapeNothing();
    assert [c][1..] == [] && EscapeByte(c) + [] == EscapeByte(c);
  }

  lemma EscapeNothing()
    ensures Escape([]) == []
  {
  }

  lemma EscapeOne(s: seq<Byte>, k: nat)
    requires k < |s|
    ensures Escape(s[..k + 1]) == Escape(s[..k]) + EscapeByte(s[k])
  {
    assert s[..k + 1] == s[..k] + [s[k]];
    EscapeConcat(s[..k], [s[k]]);
    assert Escape([s[k]]) == EscapeByte(s[k]) + Escape([]);
  }

  /** The escaped prefix fits with its terminator, and it is the longest that the loop admits. */
  lemma {:induction false} FitFits(s: seq<Byte>, room: int)
    requires room >= 1
    ensures |Escape(s[..Fit(s, room)])| < room
    ensures Fit(s, room) < |s| ==> |Escape(s[..Fit(s, room)])| + 2 >= room
    ensures forall k | 0 <= k < Fit(s, room) :: |Escape(s[..k])| + 2 < room
  {
    var f := Fit(s, room);
    if s != [] && room > 2 {
      var rest := room - |EscapeByte(s[0])|;
      FitFits(s[1..], rest);
      assert s[..f][1..] == s[1..][..f - 1];
      forall k | 0 < k < f ensures |Escape(s[..k])| + 2 < room {
        assert s[..k][1..] == s[1..][..k - 1];
      }
    }
  }

  /** The whole source is escaped exactly when its last byte still finds two free places and the terminator. */
  lemma FitsWholeIff(s: seq<Byte>, room: int)
    requires room >= 1 && s != []
    ensures Fit(s, room) == |s| <==> |Escape(s[..|s| - 1])| + 2 < room
  {
    FitFits(s, room);
    var f := Fit(s, room);
    if f < |s| {
      EscapeGrows(s, f, |s| - 1);
    }
  }

  lemma {:induction false} EscapeGrows(s: seq<Byte>, i: nat, j: nat)
    requires i <= j <= |s|
    ensures |Escape(s[..i])| <= |Escape(s[..j])|
    decreases j
  {
    if i < j {
      EscapeGrows(s, i, j - 1);
      EscapeOne(s, j - 1);
    }
  }

  lemma FitStep(s: seq<Byte>, k: nat, room: int)
    requires k <= |s|
    ensures Fit(s[k..], room) ==
            if k == |s| || room <= 2 then 0 else 1 + Fit(s[k + 1..], room - |EscapeByte(s[k])|)
  {
    if k < |s| {
      assert s[k..][1..] == s[k + 1..];
    }
  }

  /** Writes one byte, escaped, and tells how many places it took. */
  method PutEscaped(dst: array<Byte>, pos: nat, c: Byte) returns (n: nat)
    requires pos + 2 <= dst.Length
    modifies dst
    ensures n == |EscapeByte(c)|
    ensures forall i | 0 <= i < dst.Length ::
              dst[i] == if pos <= i < pos + n then EscapeByte(c)[i - pos] else old(dst[i])
  {
    if c == QUOTE || c == BACKSLASH {
      dst[pos], dst[pos + 1] := BACKSLASH, c;
      n := 2;
    } else if c == NEWLINE {
      dst[pos], dst[pos + 1] := BACKSLASH, N;
      n := 2;
    } else if c == RETURN {
      dst[pos], dst[pos + 1] := BACKSLASH, R;
      n := 2;
    } else if c == TAB {
      dst[pos], dst[pos + 1] := BACKSLASH, T;
      n := 2;
    } else {
      dst[pos] := c;
      n := 1;
    }
  }

  method JsonEscape(dst: array<Byte>, max: nat, src: CString)
    requires max <= dst.Length
    modifies dst
    ensures max > 0 ==> var e := Escape(src[..Fit(src, max)]);
                        |e| < max && dst[..|e|] == e && dst[|e|] == 0
    ensures max == 0 ==> dst[..] == old(dst[..])
    ensures forall i | max <= i < dst.Length :: dst[i] == old(dst[i])
  {
    if max == 0 {
      return;
    }
    var pos := EscapeInto(dst, max, src);
    dst[pos] := 0;
  }

  method EscapeInto(dst: array<Byte>, max: nat, src: seq<Byte>) returns (pos: nat)
    requires 1 <= max <= dst.Length
    modifies dst
    ensures pos < max && dst[..pos] == Escape(src[..Fit(src, max)])
    ensures forall i | max <= i < dst.Length :: dst[i] == old(dst[i])
  {
    hide Escape, EscapeByte, Fit;
    var k := 0;
    pos := 0;
    ghost var esc := Escape(src[..0]);
    EscapeNothing();
    assert src[..0] == [] && src[0..] == src;
    while k < |src| && pos + 2 < max
      invariant 0 <= k <= |src| && pos == |esc| < max && esc == Escape(src[..k])
      invariant forall i | 0 <= i < pos :: dst[i] == esc[i]
      invariant Fit(src, max) == k + Fit(src[k..], max - pos)
      invariant forall i | max <= i < dst.Length :: dst[i] == old(dst[i])
    {
      EscapeOne(src, k);
      FitStep(src, k, max - pos);
      var n := PutEscaped(dst, pos, src[k]);
      esc := esc + EscapeByte(src[k]);
      pos := pos + n;
      k := k + 1;
    }
    FitStep(src, k, max - pos);
  }

  // ---- extracting ----

  function Unescape(c: Byte): Byte {
    if c == N then NEWLINE else if c == R then RETURN else if c == T then TAB else c
  }

  /** At most `room` decoded bytes, up to the first unescaped quote or the end. */
  function Decode(s: seq<Byte>, room: nat): (d: seq<Byte>)
    ensures |d| <= room
  {
    if s == [] || room == 0 || s[0] == QUOTE then []
    else if s[0] == BACKSLASH && |s| > 1 then [Unescape(s[1])] + Decode(s[2..], room - 1)
    else [s[0]] + Decode(s[1..], room - 1)
  }

  lemma DecodeNothing(s: seq<Byte>, room: nat)
    requires s == [] || room == 0
    ensures Decode(s, room) == []
  {
  }

  lemma DecodeAt(s: seq<Byte>, i: nat, room: nat)
    requires i < |s| && room > 0
    ensures Decode(s[i..], room) ==
            if s[i] == QUOTE then []
            else if s[i] == BACKSLASH && i + 1 < |s| then [Unescape(s[i + 1])] + Decode(s[i + 2..], room - 1)
            else [s[i]] + Decode(s[i + 1..], room - 1)
  {
    assert s[i..][1..] == s[i + 1..];
    if i + 1 < |s| {
      assert s[i..][1] == s[i + 1] && s[i..][2..] == s[i + 2..];
    }
  }

  /** Escaped text in quotes decodes to the text, cut to the room there is. */
  lemma {:induction false} DecodeEscaped(text: seq<Byte>, post: seq<Byte>, room: nat)
    ensures Decode(Escape(text) + [QUOTE] + post, room) == text[..Min(|text|, room)]
  {
    if text != [] && room > 0 {
      var e, rest := EscapeByte(text[0]), Escape(text[1..]) + [QUOTE] + post;
      assert Escape(text) + [QUOTE] + post == e + rest;
      assert (e + rest)[|e|..] == rest;
      DecodeEscaped(text[1..], post, room - 1);
      assert text[..Min(|text|, room)] == [text[0]] + text[1..][..Min(|text| - 1, room - 1)];
    } else if text == [] {
      assert Escape(text) + [QUOTE] + post == [QUOTE] + post;
    }
  }

  /** Text without quotes and backslashes decodes to itself, up to a quote or the end. */
  lemma {:induction false} DecodePlain(text: seq<Byte>, rest: seq<Byte>, room: nat)
    requires 34 !in text && 92 !in text && (rest == [] || rest[0] == 34)
    ensures Decode(text + rest, room) == text[..Min(|text|, room)]
  {
    if text != [] && room > 0 {
      assert text[0] in text && (text + rest)[1..] == text[1..] + rest;
      DecodePlain(text[1..], rest, room - 1);
      assert text[..Min(|text|, room)] == [text[0]] + text[1..][..Min(|text| - 1, room - 1)];
    } else if text == [] {
      assert text + rest == rest;
    }
  }

  /** A backslash and a byte: newline, return and tab for n, r and t, and the byte itself for any other; a last backslash stays. */
  lemma DecodedForms(c: Byte, rest: seq<Byte>, room: nat)
    requires room > 0
    ensures Decode([92, c] + rest, room) ==
            [if c == 110 then 10 else if c == 114 then 13 else if c == 116 then 9 else c] + Decode(rest, room - 1)
    ensures Decode([92], room) == [92]
  {
    assert ([92, c] + rest)[2..] == rest;
    DecodeNothing([92][1..], room - 1);
  }

  /** Every quote in escaped text stands right behind a backslash. */
  lemma {:induction false} QuoteIsEscaped(s: seq<Byte>, i: nat)
    requires i < |Escape(s)| && Escape(s)[i] == QUOTE
    ensures i > 0 && Escape(s)[i - 1] == BACKSLASH
  {
    var e := EscapeByte(s[0]);
    if i >= |e| {
      QuoteIsEscaped(s[1..], i - |e|);
    }
  }

  /** "content", with its quotes. */
  const CONTENT: seq<Byte> := [34, 99, 111, 110, 116, 101, 110, 116, 34]

  /** Escaped text never contains a key that ends in a quote right after an ordinary byte, such as "content". */
  lemma NoKeyInside(s: seq<Byte>, i: nat)
    requires i + |CONTENT| <= |Escape(s)|
    ensures Escape(s)[i..i + |CONTENT|] != CONTENT
  {
    var e := Escape(s);
    if e[i..i + |CONTENT|] == CONTENT {
      assert e[i + 7] == e[i..i + |CONTENT|][7] && e[i + 8] == e[i..i + |CONTENT|][8];
      QuoteIsEscaped(s, i + 8);
    }
  }

  // ---- finding the value behind a key ----

  predicate KeyAt(body: seq<Byte>, key: seq<Byte>, i: int) {
    0 <= i && i + |key| + 3 < |body| && body[i..i + |key|] == key
  }

  /** `p` is the first place where the search accepts the key; -1 if there is none. */
  ghost predicate FirstKey(body: seq<Byte>, key: seq<Byte>, p: int) {
    && (p == -1 || KeyAt(body, key, p))
    && forall i | 0 <= i && (p == -1 || i < p) :: !KeyAt(body, key, i)
  }

  /** The first colon from `i` on; the length if there is none. */
  function ColonFrom(body: seq<Byte>, i: nat): (j: nat)
    requires i <= |body|
    ensures i <= j <= |body|
    decreases |body| - i
  {
    if i == |body| || body[i] == COLON then i else ColonFrom(body, i + 1)
  }

  function BlanksFrom(body: seq<Byte>, i: nat): (j: nat)
    requires i <= |body|
    ensures i <= j <= |body|
    decreases |body| - i
  {
    if i < |body| && (body[i] == SPACE || body[i] == TAB) then BlanksFrom(body, i + 1) else i
  }

  /** Where the quoted value behind a key that ends at `i` begins; -1 if there is none. */
  function ValueFrom(body: seq<Byte>, i: nat): (v: int)
    requires i <= |body|
    ensures -1 <= v <= |body|
  {
    var j := ColonFrom(body, i);
    if j == |body| then -1
    else
      var q := BlanksFrom(body, j + 1);
      if q == |body| || body[q] != QUOTE then -1 else q + 1
  }

  method FindKey(body: seq<Byte>, key: seq<Byte>) returns (p: int)
    ensures FirstKey(body, key, p)
  {
    var i := 0;
    while i + |key| + 3 < |body|
      invariant 0 <= i
      invariant forall k | 0 <= k < i :: !KeyAt(body, key, k)
    {
      if body[i..i + |key|] == key {
        return i;
      }
      i := i + 1;
    }
    return -1;
  }

  method FindValue(body: seq<Byte>, start: nat) returns (v: int)
    requires start <= |body|
    ensures v == ValueFrom(body, start)
  {
    var i := start;
    while i < |body| && body[i] != COLON
      invariant start <= i <= |body| && ColonFrom(body, i) == ColonFrom(body, start)
    {
      i := i + 1;
    }
    if i >= |body| {
      return -1;
    }
    i := i + 1;
    ghost var afterColon := i;
    while i < |body| && (body[i] == SPACE || body[i] == TAB)
      invariant afterColon <= i <= |body| && BlanksFrom(body, i) == BlanksFrom(body, afterColon)
    {
      i := i + 1;
    }
    if i >= |body| || body[i] != QUOTE {
      return -1;
    }
    return i + 1;
  }

  /** Decodes into `out`, stopping at an unescaped quote, at the end, or when the buffer is full. */
  method DecodeInto(body: seq<Byte>, start: nat, out: array<Byte>, outMax: nat) returns (n: nat)
    requires start <= |body| && 1 <= outMax <= out.Length
    modifies out
    ensures n < outMax && out[..n] == Decode(body[start..], outMax - 1) && out[n] == 0
    ensures forall k | outMax <= k < out.Length :: out[k] == old(out[k])
  {
    hide Decode;
    var i, pos := start, 0;
    ghost var whole, done := Decode(body[start..], outMax - 1), [];
    while i < |body| && pos + 1 < outMax
      invariant start <= i <= |body| && 0 <= pos == |done| < outMax
      invariant done + Decode(body[i..], outMax - 1 - pos) == whole
      invariant forall k | 0 <= k < pos :: out[k] == done[k]
      invariant forall k | outMax <= k < out.Length :: out[k] == old(out[k])
    {
      DecodeAt(body, i, outMax - 1 - pos);
      var c := body[i];
      i := i + 1;
      if c == QUOTE {
        out[pos] := 0;
        assert out[..pos] == done;
        return pos;
      }
      if c == BACKSLASH && i < |body| {
        c := Unescape(body[i]);
        i := i + 1;
      }
      OneMore(done, c, Decode(body[i..], outMax - 1 - (pos + 1)));
      out[pos] := c;
      pos, done := pos + 1, done + [c];
    }
    DecodeNothing(body[i..], outMax - 1 - pos);
    out[pos] := 0;
    assert out[..pos] == done;
    return pos;
  }

  lemma OneMore(done: seq<Byte>, c: Byte, rest: seq<Byte>)
    ensures done + ([c] + rest) == (done + [c]) + rest
  {
  }

  /** What the extractor returns and leaves in its buffer. */
  ghost predicate Extracted(body: seq<Byte>, key: seq<Byte>, outMax: nat, r: int, out: seq<Byte>) {
    if outMax == 0 then r == -1
    else exists p :: FirstKey(body, key, p) && ExtractedAt(body, key, p, outMax, r, out)
  }

  ghost predicate ExtractedAt(body: seq<Byte>, key: seq<Byte>, p: int, outMax: nat, r: int, out: seq<Byte>)
    requires (p == -1 || KeyAt(body, key, p)) && outMax > 0
  {
    var v := if p < 0 then -1 else ValueFrom(body, p + |key|);
    if v < 0 then r == -1
    else 0 <= r < outMax <= |out| && out[..r] == Decode(body[v..], outMax - 1) && out[r] == 0
  }

  /** `extract_json_string_after_key`. */
  method ExtractAfterKey(body: seq<Byte>, key: seq<Byte>, out: array<Byte>, outMax: nat) returns (r: int)
    requires outMax <= out.Length
    modifies out
    ensures Extracted(body, key, outMax, r, out[..])
    ensures r < 0 ==> out[..] == old(out[..])
    ensures forall k | outMax <= k < out.Length :: out[k] == old(out[k])
  {
    if outMax == 0 {
      return -1;
    }
    var p := FindKey(body, key);
    if p < 0 {
      return -1;
    }
    var v := FindValue(body, p + |key|);
    if v < 0 {
      return -1;
    }
    r := DecodeInto(body, v, out, outMax);
  }

  // ---- the pair ----

  /** A key and, behind a colon and blanks, a quoted text in escaped form, inside a larger document. */
  datatype Document = Document(pre: seq<Byte>, key: seq<Byte>, gap: seq<Byte>, blanks: seq<Byte>,
                               text: seq<Byte>, post: seq<Byte>)
  {
    function Tail(): seq<Byte> { Escape(text) + [QUOTE] + post }

    function Body(): seq<Byte> { pre + (key + (gap + ([COLON] + (blanks + ([QUOTE] + Tail()))))) }

    /** The key is not found earlier, and nothing but blanks lies between colon and quote. */
    ghost predicate WellFormed() {
      && COLON !in gap
      && (forall b | b in blanks :: b == SPACE || b == TAB)
      && forall i | 0 <= i < |pre| :: !KeyAt(Body(), key, i)
    }
  }

  lemma {:induction false} ColonBehind(body: seq<Byte>, i: nat, gap: seq<Byte>, rest: seq<Byte>)
    requires i <= |body| && body[i..] == gap + ([COLON] + rest) && COLON !in gap
    ensures ColonFrom(body, i) == i + |gap| < |body| && body[i + |gap| + 1..] == rest
    decreases gap
  {
    if gap != [] {
      assert body[i] == gap[0];
      assert body[i + 1..] == gap[1..] + ([COLON] + rest);
      ColonBehind(body, i + 1, gap[1..], rest);
    } else {
      assert body[i] == body[i..][0];
      assert body[i + 1..] == body[i..][1..];
    }
  }

  lemma {:induction false} BlanksBehind(body: seq<Byte>, i: nat, blanks: seq<Byte>, rest: seq<Byte>)
    requires i <= |body| && body[i..] == blanks + rest
    requires forall b | b in blanks :: b == SPACE || b == TAB
    requires rest == [] || (rest[0] != SPACE && rest[0] != TAB)
    ensures BlanksFrom(body, i) == i + |blanks| <= |body| && body[i + |blanks|..] == rest
    decreases blanks
  {
    if blanks != [] {
      assert body[i] == blanks[0] && blanks[0] in blanks;
      assert forall b | b in blanks[1..] :: b in blanks;
      assert body[i + 1..] == blanks[1..] + rest;
      BlanksBehind(body, i + 1, blanks[1..], rest);
    } else if rest != [] {
      assert body[i] == body[i..][0];
    }
  }

  /**
   * What decides about the value behind a key: the first colon, blanks, and then a quote.  Any
   * other byte there, or none, is refused.
   */
  lemma ValueDecides(body: seq<Byte>, at: nat, gap: seq<Byte>, blanks: seq<Byte>, rest: seq<Byte>)
    requires at <= |body| && body[at..] == gap + ([58] + (blanks + rest))
    requires 58 !in gap && (forall b | b in blanks :: b == 32 || b == 9)
    requires rest == [] || (rest[0] != 32 && rest[0] != 9)
    ensures ValueFrom(body, at) == if rest != [] && rest[0] == 34 then at + |gap| + |blanks| + 2 else -1
    ensures rest != [] && rest[0] == 34 ==> body[at + |gap| + |blanks| + 2..] == rest[1..]
  {
    ColonBehind(body, at, gap, blanks + rest);
    var i := at + |gap| + 1;
    BlanksBehind(body, i, blanks, rest);
    hide ColonFrom, BlanksFrom;
    if rest != [] {
      assert body[i + |blanks|] == body[i + |blanks|..][0];
      assert body[i + |blanks| + 1..] == body[i + |blanks|..][1..];
    }
  }

  lemma {:induction false} NoColonNoValue(body: seq<Byte>, i: nat)
    requires i <= |body| && 58 !in body[i..]
    ensures ValueFrom(body, i) == -1
    decreases |body| - i
  {
    if i < |body| {
      assert body[i] in body[i..];
      assert forall b | b in body[i + 1..] :: b in body[i..];
      NoColonNoValue(body, i + 1);
    }
  }

  lemma DropBoth(a: seq<Byte>, b: seq<Byte>, rest: seq<Byte>)
    ensures (a + (b + rest))[|a| + |b|..] == rest
    ensures (a + (b + rest))[|a|..|a| + |b|] == b
  {
  }

  lemma ValueBehind(body: seq<Byte>, at: nat, gap: seq<Byte>, blanks: seq<Byte>, tail: seq<Byte>)
    requires at <= |body| && body[at..] == gap + ([COLON] + (blanks + ([QUOTE] + tail)))
    requires COLON !in gap && forall b | b in blanks :: b == SPACE || b == TAB
    ensures var v := ValueFrom(body, at); v >= 0 && body[v..] == tail
  {
    hide ValueFrom;
    ValueDecides(body, at, gap, blanks, [QUOTE] + tail);
  }

  lemma ValueOfDocument(d: Document)
    requires d.WellFormed()
    ensures |d.pre| + |d.key| <= |d.Body()|
    ensures var v := ValueFrom(d.Body(), |d.pre| + |d.key|); v >= 0 && d.Body()[v..] == d.Tail()
  {
    hide Document.Tail, Document.Body, ValueFrom, KeyAt;
    BodyBehindKey(d);
    ValueBehind(d.Body(), |d.pre| + |d.key|, d.gap, d.blanks, d.Tail());
  }

  lemma BodyBehindKey(d: Document)
    ensures |d.pre| + |d.key| <= |d.Body()|
    ensures d.Body()[|d.pre| + |d.key|..] == d.gap + ([COLON] + (d.blanks + ([QUOTE] + d.Tail())))
  {
    hide Document.Tail;
    DropBoth(d.pre, d.key, d.gap + ([COLON] + (d.blanks + ([QUOTE] + d.Tail()))));
  }

  /** The room the search wants behind the key: one byte more than colon and two quotes. */
  predicate Roomy(d: Document) { |d.gap| + |d.blanks| + |Escape(d.text)| + |d.post| > 0 }

  lemma KeyOfDocument(d: Document, p: int)
    requires d.WellFormed() && FirstKey(d.Body(), d.key, p)
    ensures p == if Roomy(d) then |d.pre| else -1
  {
    hide Escape;
    var body := d.Body();
    assert |body| == |d.pre| + |d.key| + |d.gap| + |d.blanks| + |Escape(d.text)| + |d.post| + 3;
    DropBoth(d.pre, d.key, d.gap + ([COLON] + (d.blanks + ([QUOTE] + d.Tail()))));
    assert KeyAt(body, d.key, |d.pre|) <==> Roomy(d);
  }

  /**
   * Escaping and extracting: the extractor gives back the text, cut to its buffer, exactly
   * when at least one byte besides colon and quotes follows the key; otherwise it fails.
   */
  lemma ExtractsEscapedText(d: Document, outMax: nat, r: int, out: seq<Byte>)
    requires d.WellFormed() && outMax > 0 && Extracted(d.Body(), d.key, outMax, r, out)
    ensures if Roomy(d) then
              r == Min(|d.text|, outMax - 1) < |out| && out[..r] == d.text[..r] && out[r] == 0
            else r == -1
  {
    hide Escape, Decode, ValueFrom, Document.Body, Document.WellFormed, Roomy;
    var p :| FirstKey(d.Body(), d.key, p) && ExtractedAt(d.Body(), d.key, p, outMax, r, out);
    KeyOfDocument(d, p);
    ValueOfDocument(d);
    DecodeEscaped(d.text, d.post, outMax - 1);
  }

  /** A value that is not a quoted string is refused, whatever it is. */
  lemma UnquotedRefused(body: seq<Byte>, key: seq<Byte>, p: int, gap: seq<Byte>, blanks: seq<Byte>, rest: seq<Byte>,
                        outMax: nat, r: int, out: seq<Byte>)
    requires 0 <= p && FirstKey(body, key, p) && outMax > 0 && Extracted(body, key, outMax, r, out)
    requires body[p + |key|..] == gap + ([58] + (blanks + rest)) && 58 !in gap && (forall b | b in blanks :: b == 32 || b == 9)
    requires rest == [] || (rest[0] != 32 && rest[0] != 9 && rest[0] != 34)
    ensures r == -1
  {
    hide ValueFrom, Decode;
    var q :| FirstKey(body, key, q) && ExtractedAt(body, key, q, outMax, r, out);
    assert q == p;
    ValueDecides(body, p + |key|, gap, blanks, rest);
  }

  /** A body that ends with an empty value is refused, although it is well formed. */
  lemma EmptyValueRefused(outMax: nat, r: int, out: seq<Byte>)
    requires outMax > 0 && Extracted(CONTENT + [COLON, QUOTE, QUOTE], CONTENT, outMax, r, out)
    ensures r == -1
  {
    var d := Document([], CONTENT, [], [], [], []);
    assert d.Body() == CONTENT + [COLON, QUOTE, QUOTE];
    ExtractsEscapedText(d, outMax, r, out);
  }
}
