/**
 * `sendResponse` in both handlers: the header announces `response.length()`,
 * the text's number of UTF-16 units, and the body written is
 * `response.getBytes()`, its bytes in the default charset, taken to be
 * UTF-8. The exchange's fixed-length stream refuses to write more bytes than
 * were announced, so such a body never reaches the client.
 */
module ResponseLength {
  import opened Wrappers
  import opened JavaText
  import opened StudentModel
  import opened UrlEncoding

  /** `String.length()`: one UTF-16 unit per character, two beyond U+FFFF. */
  function Utf16Length(text: string): nat {
    if text == "" then 0 else (if text[0] as int < 0x1_0000 then 1 else 2) + Utf16Length(text[1..])
  }

  /** `String.getBytes()` under UTF-8. */
  function Utf8Bytes(text: string): (bytes: seq<nat>)
    ensures forall i :: 0 <= i < |bytes| ==> bytes[i] < 256
  {
    if text == "" then [] else Utf8(text[0]) + Utf8Bytes(text[1..])
  }

  predicate Ascii(text: string) {
    forall k :: 0 <= k < |text| ==> text[k] as int < 0x80
  }

  /**
   * The bytes the client receives when `announced` bytes were promised for
   * `text`: all of them, or nothing when there are more than announced.
   */
  function Sent(text: string, announced: nat): Option<seq<nat>> {
    if |Utf8Bytes(text)| <= announced then Some(Utf8Bytes(text)) else None
  }

  /** How the client's reader turns the bytes back into text (UTF-8). */
  function ReadUtf8(bytes: seq<nat>): string {
    DecodeTokens(EscapedAll(bytes))
  }

  /** A text never has fewer UTF-8 bytes than UTF-16 units, and has as many exactly when it is ASCII. */
  lemma {:induction false} BytesCoverUnits(text: string)
    ensures |Utf8Bytes(text)| >= Utf16Length(text)
    ensures |Utf8Bytes(text)| == Utf16Length(text) <==> Ascii(text)
  {
    if text != "" {
      var tail := text[1..];
      BytesCoverUnits(tail);
      assert forall k :: 0 <= k < |tail| ==> tail[k] == text[k + 1];
      var v := text[0] as int;
      assert |Utf8(text[0])| == 1 <==> v < 0x80;
      assert |Utf8(text[0])| == 4 <==> v >= 0x1_0000;
      if Ascii(text) {
        assert Ascii(tail);
      }
      if v < 0x80 && Ascii(tail) {
        forall k | 0 <= k < |text|
          ensures text[k] as int < 0x80
        {
          if k > 0 {
            assert text[k] == tail[k - 1];
          }
        }
      }
    }
  }

  /** As written: an answer reaches the client exactly when its text is ASCII. */
  lemma SentAsWritten(text: string)
    ensures Sent(text, Utf16Length(text)).Some? <==> Ascii(text)
  {
    BytesCoverUnits(text);
  }

  /** A text holding a non-ASCII text is not ASCII either. */
  lemma ContainsNonAscii(s: string, t: string)
    requires Contains(s, t) && !Ascii(t)
    ensures !Ascii(s)
  {
    var p :| 0 <= p <= |s| - |t| && MatchAt(s, t, p);
    var k :| 0 <= k < |t| && t[k] as int >= 0x80;
    assert s[p + k] == s[p..p + |t|][k];
  }

  /**
   * `GET /students/{id}` of a student with a non-ASCII first name, such as
   * "Émile": the record is never delivered, and the same holds for every
   * list that shows the student.
   */
  lemma AccentedRecordLost(d: StudentData)
    requires !Ascii(d.firstName)
    ensures Sent(RecordText(d), Utf16Length(RecordText(d))).None?
  {
    RecordShowsNames(d);
    var q := Quote(d.firstName);
    var k :| 0 <= k < |d.firstName| && d.firstName[k] as int >= 0x80;
    assert q[k + 1] == d.firstName[k];
    ContainsNonAscii(RecordText(d), q);
    SentAsWritten(RecordText(d));
  }

  /** One more character in front: its bytes come first, and decoding takes it off first. */
  lemma {:induction false} ReadBytes(text: string)
    ensures ReadUtf8(Utf8Bytes(text)) == text
  {
    if text != "" {
      var head, tail := Utf8(text[0]), Utf8Bytes(text[1..]);
      assert EscapedAll(head + tail) == EscapedAll(head) + EscapedAll(tail);
      DecodeCharBytes(text[0], EscapedAll(tail));
      ReadBytes(text[1..]);
      assert [text[0]] + text[1..] == text;
    }
  }

  /**
   * Intended: with the byte count announced, every answer reaches the client
   * and reads back as the text the handler sent.
   */
  lemma SentByByteCount(text: string)
    ensures Sent(text, |Utf8Bytes(text)|) == Some(Utf8Bytes(text))
    ensures ReadUtf8(Sent(text, |Utf8Bytes(text)|).value) == text
  {
    ReadBytes(text);
  }

  /** The client's form bodies are URL-encoded, hence ASCII, so its own `Content-Length` of `postData.length()` is right. */
  lemma {:induction false} EncodedAscii(s: string)
    ensures Ascii(UrlEncode(s))
    ensures |Utf8Bytes(UrlEncode(s))| == Utf16Length(UrlEncode(s))
  {
    if s != "" {
      EncodedAscii(s[1..]);
      EncodeCharAscii(s[0]);
      AsciiConcat(EncodeChar(s[0]), UrlEncode(s[1..]));
    }
    BytesCoverUnits(UrlEncode(s));
  }

  lemma EncodeCharAscii(c: char)
    ensures Ascii(EncodeChar(c))
  {
    if !Unreserved(c) && c != ' ' {
      EscapesAscii(Utf8(c));
    }
  }

  lemma AsciiConcat(a: string, b: string)
    requires Ascii(a) && Ascii(b)
    ensures Ascii(a + b)
  {
    forall k | 0 <= k < |a + b|
      ensures (a + b)[k] as int < 0x80
    {
      if k >= |a| {
        assert (a + b)[k] == b[k - |a|];
      }
    }
  }

  lemma {:induction false} EscapesAscii(bytes: seq<nat>)
    requires forall i :: 0 <= i < |bytes| ==> bytes[i] < 256
    ensures Ascii(Escapes(bytes))
  {
    if bytes != [] {
      EscapesAscii(bytes[1..]);
      var head := ['%', HexDigit(bytes[0] / 16), HexDigit(bytes[0] % 16)];
      assert Ascii(head);
      AsciiConcat(head, Escapes(bytes[1..]));
    }
  }
}
