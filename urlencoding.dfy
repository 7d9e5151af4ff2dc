/**
 * `URLEncoder.encode(s, UTF_8)`, which the client applies to every text it
 * puts in a query or a form body: letters, digits and `.-*_` stay, a space
 * becomes `+`, and every other character is written as the `%XY` escapes of
 * its UTF-8 bytes.
 */
module UrlEncoding {
  import opened Wrappers

  /** The characters `URLEncoder` leaves as they are. */
  predicate Unreserved(c: char) {
    ('a' <= c <= 'z') || ('A' <= c <= 'Z') || ('0' <= c <= '9') || c == '.' || c == '-' || c == '*' || c == '_'
  }

  /** An upper-case hexadecimal digit. */
  function HexDigit(n: nat): (c: char)
    requires n < 16
  {
    if n < 10 then ('0' as int + n) as char else ('A' as int + n - 10) as char
  }

  /** The UTF-8 encoding of one character (a Unicode scalar value). */
  function Utf8(c: char): (bytes: seq<nat>)
    ensures 1 <= |bytes| <= 4
    ensures forall i :: 0 <= i < |bytes| ==> bytes[i] < 256
  {
    var v := c as int;
    if v < 0x80 then [v]
    else if v < 0x800 then [0xC0 + v / 0x40, 0x80 + v % 0x40]
    else if v < 0x1_0000 then [0xE0 + v / 0x1000, 0x80 + v / 0x40 % 0x40, 0x80 + v % 0x40]
    else [0xF0 + v / 0x4_0000, 0x80 + v / 0x1000 % 0x40, 0x80 + v / 0x40 % 0x40, 0x80 + v % 0x40]
  }

  /** `%XY` for each byte. */
  function Escapes(bytes: seq<nat>): (r: string)
    requires forall i :: 0 <= i < |bytes| ==> bytes[i] < 256
    ensures |r| == 3 * |bytes|
  {
    if bytes == [] then ""
    else ['%', HexDigit(bytes[0] / 16), HexDigit(bytes[0] % 16)] + Escapes(bytes[1..])
  }

  function EncodeChar(c: char): string {
    if Unreserved(c) then [c]
    else if c == ' ' then "+"
    else Escapes(Utf8(c))
  }

  /** `URLEncoder.encode(s, UTF_8)`. */
  function UrlEncode(s: string): string {
    if s == "" then "" else EncodeChar(s[0]) + UrlEncode(s[1..])
  }

  lemma {:induction false} EscapesPlain(bytes: seq<nat>)
    requires forall i :: 0 <= i < |bytes| ==> bytes[i] < 256
    ensures '&' !in Escapes(bytes) && '=' !in Escapes(bytes) && ' ' !in Escapes(bytes)
  {
    if bytes != [] {
      EscapesPlain(bytes[1..]);
    }
  }

  /**
   * The encoding never holds `&`, `=` or a space, and is empty only for the
   * empty text: it is always a plain token of a form body.
   */
  lemma {:induction false} EncodedPlain(s: string)
    ensures '&' !in UrlEncode(s) && '=' !in UrlEncode(s) && ' ' !in UrlEncode(s)
    ensures UrlEncode(s) == "" <==> s == ""
  {
    if s != "" {
      EncodedPlain(s[1..]);
      if !Unreserved(s[0]) && s[0] != ' ' {
        EscapesPlain(Utf8(s[0]));
      }
    }
  }

  /** Text made of unreserved characters only is sent unchanged. */
  lemma {:induction false} UnreservedUnchanged(s: string)
    requires forall i :: 0 <= i < |s| ==> Unreserved(s[i])
    ensures UrlEncode(s) == s
  {
    if s != "" {
      UnreservedUnchanged(s[1..]);
      assert [s[0]] + s[1..] == s;
    }
  }

  /** Encoding works character by character. */
  lemma {:induction false} EncodeConcat(a: string, b: string)
    ensures UrlEncode(a + b) == UrlEncode(a) + UrlEncode(b)
  {
    if a == "" {
      assert a + b == b;
    } else {
      assert (a + b)[1..] == a[1..] + b;
      EncodeConcat(a[1..], b);
    }
  }

  /** A space between two words is sent as `+`. */
  lemma SpaceAsPlus(a: string, b: string)
    ensures UrlEncode(a + " " + b) == UrlEncode(a) + "+" + UrlEncode(b)
  {
    EncodeConcat(a + " ", b);
    EncodeConcat(a, " ");
    assert UrlEncode(" ") == "+" by {
      assert !Unreserved(' ');
      assert " "[1..] == "";
    }
  }

  // ---------------------------------------------------------------- decoding

  /** A character of the encoded text, or the byte one `%XY` escape stands for. */
  datatype Token = Plain(c: char) | Escaped(b: nat)

  predicate IsHex(c: char) {
    ('0' <= c <= '9') || ('A' <= c <= 'F') || ('a' <= c <= 'f')
  }

  function HexValue(c: char): (n: nat)
    requires IsHex(c)
    ensures n < 16
  {
    if '0' <= c <= '9' then c as int - '0' as int
    else if 'A' <= c <= 'F' then c as int - 'A' as int + 10
    else c as int - 'a' as int + 10
  }

  /**
   * The tokens of an encoded text: `+` stands for a space and `%XY` for a
   * byte; `None` for a `%` without two hexadecimal digits after it, which
   * `URLDecoder` rejects.
   */
  function Tokens(t: string): Option<seq<Token>> {
    if t == "" then Some([])
    else if t[0] == '%' then
      if |t| >= 3 && IsHex(t[1]) && IsHex(t[2]) then
        Prepend([Escaped(HexValue(t[1]) * 16 + HexValue(t[2]))], Tokens(t[3..]))
      else None
    else Prepend([Plain(if t[0] == '+' then ' ' else t[0])], Tokens(t[1..]))
  }

  function Prepend(head: seq<Token>, rest: Option<seq<Token>>): Option<seq<Token>> {
    if rest.None? then None else Some(head + rest.value)
  }

  /** How many bytes the UTF-8 sequence that `lead` starts has; 0 for a byte no sequence starts with. */
  function Utf8Length(lead: nat): nat {
    if lead < 0x80 then 1
    else if 0xC0 <= lead < 0xE0 then 2
    else if 0xE0 <= lead < 0xF0 then 3
    else if 0xF0 <= lead < 0xF8 then 4
    else 0
  }

  predicate Continuation(t: Token) {
    t.Escaped? && 0x80 <= t.b < 0xC0
  }

  /** An escaped byte followed by the `n - 1` continuation bytes it announces. */
  predicate WellContinued(ts: seq<Token>, n: nat) {
    1 <= n <= 4 && n <= |ts| && ts[0].Escaped?
    && (n >= 2 ==> Continuation(ts[1]))
    && (n >= 3 ==> Continuation(ts[2]))
    && (n >= 4 ==> Continuation(ts[3]))
  }

  /** The code point the `n` escaped bytes at the head of `ts` spell. */
  function CodePoint(ts: seq<Token>, n: nat): int
    requires WellContinued(ts, n)
  {
    if n == 1 then ts[0].b
    else if n == 2 then (ts[0].b - 0xC0) * 0x40 + (ts[1].b - 0x80)
    else if n == 3 then (ts[0].b - 0xE0) * 0x1000 + (ts[1].b - 0x80) * 0x40 + (ts[2].b - 0x80)
    else (ts[0].b - 0xF0) * 0x4_0000 + (ts[1].b - 0x80) * 0x1000 + (ts[2].b - 0x80) * 0x40 + (ts[3].b - 0x80)
  }

  predicate IsScalar(v: int) {
    0 <= v < 0x11_0000 && !(0xD800 <= v < 0xE000)
  }

  const Replacement: char := '\U{FFFD}'

  /**
   * The text the tokens stand for: plain characters as they are, escaped
   * bytes read as UTF-8; a byte that starts no well-formed sequence becomes
   * U+FFFD.
   */
  function DecodeTokens(ts: seq<Token>): string
    decreases |ts|
  {
    if ts == [] then ""
    else if ts[0].Plain? then [ts[0].c] + DecodeTokens(ts[1..])
    else
      var n := Utf8Length(ts[0].b);
      if WellContinued(ts, n) && IsScalar(CodePoint(ts, n)) then
        [CodePoint(ts, n) as char] + DecodeTokens(ts[n..])
      else [Replacement] + DecodeTokens(ts[1..])
  }

  /** `URLDecoder.decode(t, UTF_8)`; `None` where it throws. */
  function UrlDecode(t: string): Option<string> {
    var ts := Tokens(t);
    if ts.None? then None else Some(DecodeTokens(ts.value))
  }

  // ---------------------------------------------------------------- the round trip

  function EscapedAll(bytes: seq<nat>): (r: seq<Token>)
    ensures |r| == |bytes|
    ensures forall i :: 0 <= i < |r| ==> r[i] == Escaped(bytes[i])
  {
    if bytes == [] then [] else [Escaped(bytes[0])] + EscapedAll(bytes[1..])
  }

  /** The tokens one character is sent as. */
  function CharTokens(c: char): seq<Token> {
    if Unreserved(c) || c == ' ' then [Plain(c)] else EscapedAll(Utf8(c))
  }

  lemma HexRoundTrip(n: nat)
    requires n < 16
    ensures IsHex(HexDigit(n)) && HexValue(HexDigit(n)) == n
  {
  }

  /** One escape reads back as its byte, whatever follows. */
  lemma EscapeToken(b: nat, tail: string)
    requires b < 256
    ensures Tokens(['%', HexDigit(b / 16), HexDigit(b % 16)] + tail) == Prepend([Escaped(b)], Tokens(tail))
  {
    var t := ['%', HexDigit(b / 16), HexDigit(b % 16)] + tail;
    HexRoundTrip(b / 16);
    HexRoundTrip(b % 16);
    assert t[3..] == tail;
  }

  /** One more escaped byte in front keeps the escapes reading back as their bytes. */
  lemma EscapesStep(b: nat, more: seq<nat>, rest: string)
    requires b < 256 && forall i :: 0 <= i < |more| ==> more[i] < 256
    requires Tokens(Escapes(more) + rest) == Prepend(EscapedAll(more), Tokens(rest))
    ensures Tokens(Escapes([b] + more) + rest) == Prepend(EscapedAll([b] + more), Tokens(rest))
  {
    var bytes := [b] + more;
    assert bytes[1..] == more;
    var tail := Escapes(more) + rest;
    assert Escapes(bytes) + rest == ['%', HexDigit(b / 16), HexDigit(b % 16)] + tail;
    EscapeToken(b, tail);
    assert EscapedAll(bytes) == [Escaped(b)] + EscapedAll(more);
    if Tokens(rest).Some? {
      assert [Escaped(b)] + (EscapedAll(more) + Tokens(rest).value) == EscapedAll(bytes) + Tokens(rest).value;
    }
  }

  lemma {:induction false} EscapesTokens(bytes: seq<nat>, rest: string)
    requires forall i :: 0 <= i < |bytes| ==> bytes[i] < 256
    ensures Tokens(Escapes(bytes) + rest) == Prepend(EscapedAll(bytes), Tokens(rest))
  {
    if bytes == [] {
      assert Escapes(bytes) + rest == rest;
      if Tokens(rest).Some? {
        assert EscapedAll(bytes) + Tokens(rest).value == Tokens(rest).value;
      }
    } else {
      EscapesTokens(bytes[1..], rest);
      EscapesStep(bytes[0], bytes[1..], rest);
      assert [bytes[0]] + bytes[1..] == bytes;
    }
  }

  lemma CharTokensOf(c: char, rest: string)
    ensures Tokens(EncodeChar(c) + rest) == Prepend(CharTokens(c), Tokens(rest))
  {
    if Unreserved(c) || c == ' ' {
      assert (EncodeChar(c) + rest)[1..] == rest;
    } else {
      EscapesTokens(Utf8(c), rest);
    }
  }

  /** The tokens of an encoded text, one character at a time. */
  function TokensOf(s: string): seq<Token> {
    if s == "" then [] else CharTokens(s[0]) + TokensOf(s[1..])
  }

  lemma {:induction false} EncodedTokens(s: string)
    ensures Tokens(UrlEncode(s)) == Some(TokensOf(s))
  {
    if s != "" {
      EncodedTokens(s[1..]);
      CharTokensOf(s[0], UrlEncode(s[1..]));
    }
  }

  /** Decoding the tokens of one character gives it back, whatever follows. */
  lemma DecodeCharTokens(c: char, rest: seq<Token>)
    ensures DecodeTokens(CharTokens(c) + rest) == [c] + DecodeTokens(rest)
  {
    var ts := CharTokens(c) + rest;
    if Unreserved(c) || c == ' ' {
      assert ts[1..] == rest;
    } else {
      DecodeCharBytes(c, rest);
    }
  }

  /** Decoding the UTF-8 bytes of one character gives it back, whatever follows. */
  lemma DecodeCharBytes(c: char, rest: seq<Token>)
    ensures DecodeTokens(EscapedAll(Utf8(c)) + rest) == [c] + DecodeTokens(rest)
  {
    var ts := EscapedAll(Utf8(c)) + rest;
    var n := |Utf8(c)|;
    Utf8Decodes(c);
    assert ts[..n] == EscapedAll(Utf8(c));
    assert ts[n..] == rest;
    assert CodePoint(ts, n) == c as int;
  }

  /** The bytes of a character start a well-formed sequence of their own length that spells it. */
  lemma Utf8Decodes(c: char)
    ensures var bytes := Utf8(c); var ts := EscapedAll(bytes);
      Utf8Length(bytes[0]) == |bytes|
      && WellContinued(ts, |bytes|)
      && CodePoint(ts, |bytes|) == c as int
  {
    var v := c as int;
    if v >= 0x800 {
      assert v / 0x40 == v / 0x1000 * 0x40 + v / 0x40 % 0x40;
      if v >= 0x1_0000 {
        assert v / 0x1000 == v / 0x4_0000 * 0x40 + v / 0x1000 % 0x40;
      }
    }
  }

  lemma {:induction false} DecodeTokensOf(s: string)
    ensures DecodeTokens(TokensOf(s)) == s
  {
    if s != "" {
      DecodeCharTokens(s[0], TokensOf(s[1..]));
      DecodeTokensOf(s[1..]);
      assert [s[0]] + s[1..] == s;
    }
  }

  /** `URLDecoder.decode` undoes `URLEncoder.encode`. */
  lemma UrlRoundTrip(s: string)
    ensures UrlDecode(UrlEncode(s)) == Some(s)
  {
    EncodedTokens(s);
    DecodeTokensOf(s);
  }
}
