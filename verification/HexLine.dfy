/**
 The hex-line format: bytes written as two characters each, separated by runs of
 blanks, tabs and the characters ; , and : . One specification for the parser
 loops of emulation.c, init.c and atsha204cmd/main.c.
 */
module HexLine {
  import opened Bits
  import opened Wrappers

  predicate IsDelimiter(c: char) {
    c == ' ' || c == '\t' || c == ';' || c == ',' || c == ':'
  }

  predicate IsSpace(c: char) {
    c == ' ' || c == '\t' || c == '\n' || c == '\r' || c == '\U{000B}' || c == '\U{000C}'
  }

  predicate IsHexDigit(c: char) {
    '0' <= c <= '9' || 'A' <= c <= 'F' || 'a' <= c <= 'f'
  }

  function DigitValue(c: char): (v: nat)
    requires IsHexDigit(c)
    ensures v < 16
  {
    if '0' <= c <= '9' then c as int - '0' as int
    else if 'A' <= c <= 'F' then c as int - 'A' as int + 10
    else c as int - 'a' as int + 10
  }

  /** get_number_from_hex_char: strtol, base 16, on a string of two characters, cut to a byte. */
  function HexNumber(high: char, low: char): byte {
    if IsHexDigit(high) then
      if IsHexDigit(low) then FromValue(16 * DigitValue(high) + DigitValue(low))
      else FromValue(DigitValue(high))
    else if !IsHexDigit(low) then FromValue(0)
    else if IsSpace(high) || high == '+' then FromValue(DigitValue(low))
    else if high == '-' then FromValue((256 - DigitValue(low)) % 256)
    else FromValue(0)
  }

  /** The characters of a C string; its terminator follows the last one. */
  function CharAt(line: string, p: nat): char {
    if p < |line| then line[p] else '\0'
  }

  function Prepend(bs: seq<byte>, rest: Option<seq<byte>>): Option<seq<byte>> {
    match rest
    case None => None
    case Some(r) => Some(bs + r)
  }

  /** The bytes read from position p on, when n more are wanted; None when the line is too short. */
  function Parse(line: string, p: nat, n: nat): (r: Option<seq<byte>>)
    ensures r.Some? ==> |r.value| == n
    decreases n, |line| - p
  {
    if n == 0 then Some([])
    else if p < |line| && IsDelimiter(line[p]) then Parse(line, p + 1, n)
    else if p + 2 >= |line| then None
    else Prepend([HexNumber(CharAt(line, p), CharAt(line, p + 1))], Parse(line, p + 2, n - 1))
  }

  /** The length of a C string held in a buffer. */
  function Strlen(buffer: string): (n: nat)
    ensures n <= |buffer|
  {
    if buffer == "" || buffer[0] == '\0' then 0 else 1 + Strlen(buffer[1..])
  }

  /** What a parser makes of a line buffer. */
  function ParseLine(buffer: string, n: nat): (r: Option<seq<byte>>)
    ensures r.Some? ==> |r.value| == n
  {
    Parse(buffer[..Strlen(buffer)], 0, n)
  }

  // ---- The parser loops ----

  lemma PrependNothing(r: Option<seq<byte>>)
    ensures Prepend([], r) == r
  {
    if r.Some? {
      assert [] + r.value == r.value;
    }
  }

  lemma PrependPrepend(a: seq<byte>, b: seq<byte>, r: Option<seq<byte>>)
    ensures Prepend(a, Prepend(b, r)) == Prepend(a + b, r)
  {
    if r.Some? {
      assert a + (b + r.value) == a + b + r.value;
    }
  }

  lemma TerminatorEndsGap()
    ensures !IsDelimiter('\0')
  {
  }

  /** The parser loop of emulation.c, init.c and atsha204cmd/main.c: n bytes of a line, put into a buffer from at on. */
  method ReadBytes(buffer: string, data: array<byte>, at: nat, n: nat) returns (ok: bool)
    requires at + n <= data.Length
    modifies data
    ensures ok <==> ParseLine(buffer, n).Some?
    ensures ok ==> data[at..at + n] == ParseLine(buffer, n).value
    ensures data[..at] == old(data[..at]) && data[at + n..] == old(data[at + n..])
  {
    hide HexNumber, IsDelimiter, Strlen;
    TerminatorEndsGap();
    var line := buffer[..Strlen(buffer)];
    var lineP := 0;
    var lineEndP := |line|;
    var i := 0;
    assert data[at..at + 0] == [];
    PrependNothing(Parse(line, 0, n));
    while i < n
      invariant i <= n && lineP <= lineEndP
      invariant ParseLine(buffer, n) == Prepend(data[at..at + i], Parse(line, lineP, n - i))
      invariant data[..at] == old(data[..at]) && data[at + n..] == old(data[at + n..])
      decreases n - i, lineEndP - lineP
    {
      if IsDelimiter(CharAt(line, lineP)) {
        lineP := lineP + 1;
        continue;
      }
      ghost var read := data[at..at + i];
      ghost var b := HexNumber(CharAt(line, lineP), CharAt(line, lineP + 1));
      data[at + i] := HexNumber(CharAt(line, lineP), CharAt(line, lineP + 1));
      i := i + 1;
      lineP := lineP + 2;
      if lineP >= lineEndP {
        return false;
      }
      assert data[at..at + i] == read + [b];
      PrependPrepend(read, [b], Parse(line, lineP, n - i));
    }
    assert data[at..at + i] + [] == data[at..at + n];
    return true;
  }

  /** The string ends at its first terminator, or where the buffer does. */
  lemma {:induction false} StrlenMeaning(buffer: string)
    ensures var n := Strlen(buffer);
            (n == |buffer| || buffer[n] == '\0') && forall i :: 0 <= i < n ==> buffer[i] != '\0'
  {
    if buffer != "" && buffer[0] != '\0' {
      StrlenMeaning(buffer[1..]);
    }
  }

  // ---- Round trip ----

  /** Between two bytes: any run of blanks, tabs, semicolons, commas and colons. */
  predicate IsGap(gap: string) {
    forall i :: 0 <= i < |gap| ==> gap[i] in {' ', '\t', ';', ',', ':'}
  }

  /** One byte as it is written: delimiters, then two characters. */
  datatype Token = Token(gap: string, high: char, low: char)

  predicate WellFormed(t: Token) {
    IsGap(t.gap) && IsHexDigit(t.high) && IsHexDigit(t.low)
  }

  function Render(ts: seq<Token>): string {
    if ts == [] then "" else ts[0].gap + [ts[0].high, ts[0].low] + Render(ts[1..])
  }

  function Values(ts: seq<Token>): (bs: seq<byte>)
    ensures |bs| == |ts|
  {
    if ts == [] then [] else [HexNumber(ts[0].high, ts[0].low)] + Values(ts[1..])
  }

  lemma {:induction false} ParseSkipsGap(line: string, p: nat, q: nat, n: nat)
    requires p <= q <= |line| && n > 0
    requires forall i :: p <= i < q ==> IsDelimiter(line[i])
    ensures Parse(line, p, n) == Parse(line, q, n)
    decreases q - p
  {
    if p < q {
      ParseSkipsGap(line, p + 1, q, n);
    }
  }

  lemma {:induction false} ParseRendered(before: string, ts: seq<Token>, tail: string)
    requires forall i :: 0 <= i < |ts| ==> WellFormed(ts[i])
    ensures Parse(before + Render(ts) + tail, |before|, |ts|) ==
            if ts == [] || tail != "" then Some(Values(ts)) else None
    decreases |ts|
  {
    if ts != [] {
      hide HexNumber;
      var t, rest := ts[0], Render(ts[1..]);
      var line := before + Render(ts) + tail;
      var q := |before| + |t.gap|;
      var done := before + t.gap + [t.high, t.low];
      assert line == done + rest + tail;
      forall i | |before| <= i < q ensures IsDelimiter(line[i]) {
        assert line[i] == t.gap[i - |before|];
      }
      ParseSkipsGap(line, |before|, q, |ts|);
      assert line[q] == t.high && line[q + 1] == t.low;
      assert !IsDelimiter(line[q]);
      RenderNonEmpty(ts[1..]);
      ParseRendered(done, ts[1..], tail);
    }
  }

  lemma RenderNonEmpty(ts: seq<Token>)
    ensures Render(ts) == "" <==> ts == []
  {
  }

  /**
   Bytes written as hex pairs, with any delimiters before each, parse back to the same bytes
   if and only if something, such as the newline, follows the last pair.
   */
  lemma RoundTrip(ts: seq<Token>, tail: string)
    requires ts != []
    requires forall k :: 0 <= k < |ts| ==> IsHexDigit(ts[k].high) && IsHexDigit(ts[k].low)
    requires forall k, i :: 0 <= k < |ts| && 0 <= i < |ts[k].gap| ==> ts[k].gap[i] in {' ', '\t', ';', ',', ':'}
    requires forall i :: 0 <= i < |tail| ==> tail[i] != '\0'
    ensures ParseLine(Render(ts) + tail, |ts|) == if tail != "" then Some(Values(ts)) else None
  {
    hide WellFormed, Parse, HexNumber, Values, Strlen, Render;
    var line := Render(ts) + tail;
    TokensWellFormed(ts);
    RenderedCharacters(ts);
    StrlenWithoutTerminator(line);
    ParseRendered("", ts, tail);
    assert "" + Render(ts) + tail == line == line[..|line|];
  }

  lemma TokensWellFormed(ts: seq<Token>)
    requires forall k :: 0 <= k < |ts| ==> IsHexDigit(ts[k].high) && IsHexDigit(ts[k].low)
    requires forall k, i :: 0 <= k < |ts| && 0 <= i < |ts[k].gap| ==> ts[k].gap[i] in {' ', '\t', ';', ',', ':'}
    ensures forall k :: 0 <= k < |ts| ==> WellFormed(ts[k])
  {
  }

  /** Digits and delimiters only: neither a newline nor a terminator. */
  lemma {:induction false} RenderedCharacters(ts: seq<Token>)
    requires forall k :: 0 <= k < |ts| ==> WellFormed(ts[k])
    ensures forall i :: 0 <= i < |Render(ts)| ==> Render(ts)[i] != '\n' && Render(ts)[i] != '\0'
  {
    if ts != [] {
      RenderedCharacters(ts[1..]);
      TokenCharacters(ts[0]);
      assert Render(ts) == ts[0].gap + [ts[0].high, ts[0].low] + Render(ts[1..]);
    }
  }

  lemma TokenCharacters(t: Token)
    requires WellFormed(t)
    ensures var r := t.gap + [t.high, t.low];
            forall i :: 0 <= i < |r| ==> r[i] != '\n' && r[i] != '\0'
  {
  }

  lemma {:induction false} StrlenWithoutTerminator(s: string)
    requires forall i :: 0 <= i < |s| ==> s[i] != '\0'
    ensures Strlen(s) == |s|
  {
    if s != "" {
      StrlenWithoutTerminator(s[1..]);
    }
  }

  /** The digits and what they count. */
  lemma DigitMeaning(c: char)
    ensures IsHexDigit(c) <==> c in "0123456789ABCDEFabcdef"
    ensures IsHexDigit(c) ==>
              var v := DigitValue(c);
              c == "0123456789ABCDEF"[v] || c == "0123456789abcdef"[v]
  {
  }

  /** A digit pair is the number it spells, so every byte can be written. */
  lemma HexNumberOfPair(high: char, low: char)
    requires IsHexDigit(high) && IsHexDigit(low)
    ensures Value(HexNumber(high, low)) == 16 * DigitValue(high) + DigitValue(low)
  {
  }

  lemma SpaceMeaning(c: char)
    ensures IsSpace(c) <==> c in " \t\n\r\U{000B}\U{000C}"
  {
  }

  /** Other pairs: a digit before or behind something else counts alone, a minus sign negates modulo 256. */
  lemma HexNumberOfOthers(high: char, low: char)
    ensures IsHexDigit(high) && !IsHexDigit(low) ==> Value(HexNumber(high, low)) == DigitValue(high)
    ensures !IsHexDigit(high) && !IsHexDigit(low) ==> Value(HexNumber(high, low)) == 0
    ensures (IsSpace(high) || high == '+') && IsHexDigit(low) ==> Value(HexNumber(high, low)) == DigitValue(low)
    ensures high == '-' && IsHexDigit(low) ==> Value(HexNumber(high, low)) == (256 - DigitValue(low)) % 256
    ensures !IsHexDigit(high) && !IsSpace(high) && high != '+' && high != '-' ==> Value(HexNumber(high, low)) == 0
  {
    if IsSpace(high) || high == '+' || high == '-' {
      NoDigit(high);
    }
    hide Value, DigitValue, IsSpace, IsHexDigit;
  }

  lemma NoDigit(c: char)
    requires IsSpace(c) || c == '+' || c == '-'
    ensures !IsHexDigit(c)
  {
  }

  function Digit(v: nat): char
    requires v < 16
  {
    if v < 10 then '0' + v as char else 'A' + (v - 10) as char
  }

  /** Bytes written in capital hex digits, each after its own gap. */
  function Spelled(bs: seq<byte>, gaps: seq<string>): (ts: seq<Token>)
    requires |gaps| == |bs|
    ensures |ts| == |bs|
  {
    if bs == [] then []
    else [Token(gaps[0], Digit(Value(bs[0]) / 16), Digit(Value(bs[0]) % 16))] + Spelled(bs[1..], gaps[1..])
  }

  lemma DigitOfValue(v: nat)
    requires v < 16
    ensures IsHexDigit(Digit(v)) && DigitValue(Digit(v)) == v
  {
  }

  /** Every buffer can be written, with any delimiters, and its digits read back as itself. */
  lemma {:induction false} WrittenValues(bs: seq<byte>, gaps: seq<string>)
    requires |gaps| == |bs|
    requires forall g :: g in gaps ==> IsGap(g)
    ensures Values(Spelled(bs, gaps)) == bs
    ensures forall t :: t in Spelled(bs, gaps) ==> WellFormed(t)
  {
    hide Digit, HexNumber, DigitValue, Value;
    if bs != [] {
      var v := Value(bs[0]);
      DigitOfValue(v / 16);
      DigitOfValue(v % 16);
      HexNumberOfPair(Digit(v / 16), Digit(v % 16));
      ValueInjective(HexNumber(Digit(v / 16), Digit(v % 16)), bs[0]);
      WrittenValues(bs[1..], gaps[1..]);
    }
  }

  /**
   Whatever parses has been written that way: gaps of delimiters, pairs that begin with none, and a tail
   that is not empty.
   */
  lemma {:induction false} ParsedShape(line: string, p: nat, n: nat) returns (ts: seq<Token>, tail: string)
    requires p <= |line| && n > 0 && Parse(line, p, n).Some?
    ensures line[p..] == Render(ts) + tail && |ts| == n && tail != ""
    ensures Parse(line, p, n).value == Values(ts)
    ensures forall t :: t in ts ==> IsGap(t.gap) && t.high !in {' ', '\t', ';', ',', ':'}
    decreases n, |line| - p
  {
    hide HexNumber;
    if p < |line| && IsDelimiter(line[p]) {
      ts, tail := ParsedShape(line, p + 1, n);
      var t := ts[0].(gap := [line[p]] + ts[0].gap);
      assert line[p..] == [line[p]] + line[p + 1..];
      ts := [t] + ts[1..];
    } else {
      var t := Token("", line[p], line[p + 1]);
      assert line[p..] == [line[p], line[p + 1]] + line[p + 2..];
      if n == 1 {
        ts, tail := [t], line[p + 2..];
      } else {
        var us, rest := ParsedShape(line, p + 2, n - 1);
        ts, tail := [t] + us, rest;
      }
    }
  }
}
