/** Percent-encoding as the frontend uses it: the UTF-8 bytes of a code point, the
    application/x-www-form-urlencoded serializer of URLSearchParams.toString() (section 5.2 of
    the WHATWG URL Standard) and the global encodeURIComponent (section 19.2.6.5 of ECMA-262).
    Strings are sequences of Unicode scalar values: a lone surrogate, on which
    encodeURIComponent throws URIError, cannot occur here. */
module UrlEncoding {
  import JsText

  type Byte = b: int | 0 <= b < 256

  /** The UTF-8 encoding of one Unicode scalar value. */
  function Utf8(c: char): (bs: seq<Byte>)
    ensures 1 <= |bs| <= 4
    ensures |bs| == 1 <==> c as int < 0x80
    ensures |bs| == 1 ==> bs[0] == c as int
    ensures forall i :: 1 <= i < |bs| ==> 0x80 <= bs[i] < 0xC0
  {
    var n := c as int;
    if n < 0x80 then [n]
    else if n < 0x800 then [0xC0 + n / 0x40, 0x80 + n % 0x40]
    else if n < 0x10000 then [0xE0 + n / 0x1000, 0x80 + (n / 0x40) % 0x40, 0x80 + n % 0x40]
    else [0xF0 + n / 0x40000, 0x80 + (n / 0x1000) % 0x40, 0x80 + (n / 0x40) % 0x40, 0x80 + n % 0x40]
  }

  /** An upper-case hexadecimal digit. */
  function HexDigit(d: int): (c: char)
    requires 0 <= d < 16
    ensures ('0' <= c <= '9') || ('A' <= c <= 'F')
  {
    if d < 10 then (d + '0' as int) as char else (d - 10 + 'A' as int) as char
  }

  /** "%XY" for a byte. */
  function PercentByte(b: Byte): (r: string)
    ensures |r| == 3 && r[0] == '%'
  {
    ['%', HexDigit(b / 16), HexDigit(b % 16)]
  }

  /** The percent-encoded UTF-8 bytes of a code point. */
  function PercentEncoded(c: char): (r: string)
    ensures |r| >= 3 && r[0] == '%'
    ensures forall i :: 0 <= i < |r| ==> r[i] == '%' || ('0' <= r[i] <= '9') || ('A' <= r[i] <= 'F')
  {
    var bs := Utf8(c);
    PercentBytes(bs)
  }

  function PercentBytes(bs: seq<Byte>): (r: string)
    ensures |r| == 3 * |bs|
    ensures bs != [] ==> r[0] == '%'
    ensures forall i :: 0 <= i < |r| ==> r[i] == '%' || ('0' <= r[i] <= '9') || ('A' <= r[i] <= 'F')
  {
    if bs == [] then [] else PercentByte(bs[0]) + PercentBytes(bs[1..])
  }

  predicate IsAsciiAlphanumeric(c: char) {
    ('0' <= c <= '9') || ('A' <= c <= 'Z') || ('a' <= c <= 'z')
  }

  /** Code points the form-urlencoded serializer leaves as they are. */
  predicate FormSafe(c: char) {
    IsAsciiAlphanumeric(c) || c == '*' || c == '-' || c == '.' || c == '_'
  }

  /** Code points encodeURIComponent leaves as they are (uriUnescaped). */
  predicate UriUnescaped(c: char) {
    IsAsciiAlphanumeric(c) || c == '-' || c == '_' || c == '.' || c == '!' || c == '~' ||
    c == '*' || c == '\'' || c == '(' || c == ')'
  }

  /** The form-urlencoded serialization of one code point: a space becomes '+'. */
  function FormEncodeChar(c: char): string {
    if c == ' ' then "+" else if FormSafe(c) then [c] else PercentEncoded(c)
  }

  /** The form-urlencoded serialization of a name or a value. */
  function FormEncode(s: string): (r: string)
    ensures |r| >= |s|
  {
    if s == [] then [] else FormEncodeChar(s[0]) + FormEncode(s[1..])
  }

  /** encodeURIComponent: every code point outside uriUnescaped becomes its percent-encoded
      UTF-8 bytes (a space becomes "%20"). */
  function EncodeUriComponent(s: string): (r: string)
    ensures |r| >= |s|
  {
    if s == [] then [] else UriEncodeChar(s[0]) + EncodeUriComponent(s[1..])
  }

  function UriEncodeChar(c: char): string {
    if UriUnescaped(c) then [c] else PercentEncoded(c)
  }

  /** The form-urlencoded text of a name or value holds no '&', '=' or space, so the pairs of
      a query string can be told apart; it is never shorter than the text it encodes. */
  lemma {:induction false} FormEncodeAvoidsDelimiters(s: string)
    ensures var r := FormEncode(s);
      |r| >= |s| && forall i :: 0 <= i < |r| ==> r[i] != '&' && r[i] != '=' && r[i] != ' '
  {
    if s != [] {
      FormEncodeAvoidsDelimiters(s[1..]);
      var head := FormEncodeChar(s[0]);
      assert forall i :: 0 <= i < |head| ==> head[i] != '&' && head[i] != '=' && head[i] != ' ';
    }
  }

  /** encodeURIComponent leaves no '&', '/', '?' or space, so its text stays inside one path
      segment or one query value. */
  lemma {:induction false} EncodeUriComponentAvoidsDelimiters(s: string)
    ensures var r := EncodeUriComponent(s);
      |r| >= |s| && forall i :: 0 <= i < |r| ==> r[i] != '&' && r[i] != '/' && r[i] != '?' && r[i] != ' '
  {
    if s != [] {
      EncodeUriComponentAvoidsDelimiters(s[1..]);
    }
  }

  /** The form serializer works code point by code point. */
  lemma {:induction false} FormEncodeConcat(a: string, b: string)
    ensures FormEncode(a + b) == FormEncode(a) + FormEncode(b)
  {
    if a != [] {
      assert (a + b)[1..] == a[1..] + b;
      assert (a + b)[0] == a[0];
      FormEncodeConcat(a[1..], b);
      JsText.ConcatAssociative(FormEncodeChar(a[0]), FormEncode(a[1..]), FormEncode(b));
    } else {
      assert a + b == b;
    }
  }

  /** encodeURIComponent works code point by code point. */
  lemma {:induction false} EncodeUriComponentConcat(a: string, b: string)
    ensures EncodeUriComponent(a + b) == EncodeUriComponent(a) + EncodeUriComponent(b)
  {
    if a != [] {
      assert (a + b)[1..] == a[1..] + b;
      assert (a + b)[0] == a[0];
      EncodeUriComponentConcat(a[1..], b);
      JsText.ConcatAssociative(UriEncodeChar(a[0]), EncodeUriComponent(a[1..]), EncodeUriComponent(b));
    } else {
      assert a + b == b;
    }
  }

  /** A string of code points that both encoders leave unchanged. */
  lemma {:induction false} FormEncodeOfSafe(s: string)
    requires forall i :: 0 <= i < |s| ==> FormSafe(s[i])
    ensures FormEncode(s) == s && EncodeUriComponent(s) == s
  {
    if s != [] {
      FormEncodeOfSafe(s[1..]);
    }
  }

  /** Two runs of safe code points around one space: the space becomes '+'. */
  lemma FormEncodeWords(a: string, b: string)
    requires forall i :: 0 <= i < |a| ==> FormSafe(a[i])
    requires forall i :: 0 <= i < |b| ==> FormSafe(b[i])
    ensures FormEncode(a + " " + b) == a + "+" + b
  {
    assert FormEncode(" " + b) == "+" + b by {
      FormEncodeOfSafe(b);
      FormEncodeConcat(" ", b);
      FormEncodedSpace();
    }
    JsText.ConcatAssociative(a, " ", b);
    FormEncodeOfSafe(a);
    FormEncodeConcat(a, " " + b);
    JsText.ConcatAssociative(a, "+", b);
  }


  /** The form serializer writes a space as "+". */
  lemma FormEncodedSpace()
    ensures FormEncode(" ") == "+"
  {
    assert FormEncode(" ") == FormEncodeChar(' ') + FormEncode([]);
  }

  /** A space is percent-encoded as "%20". */
  lemma EncodedSpace()
    ensures EncodeUriComponent(" ") == "%20"
  {
    PercentByteOfSpace();
    assert Utf8(' ') == [0x20];
    assert PercentBytes([0x20]) == PercentByte(0x20) + PercentBytes([]);
    assert EncodeUriComponent(" ") == UriEncodeChar(' ') + EncodeUriComponent([]);
  }

  lemma PercentByteOfSpace()
    ensures PercentByte(0x20) == "%20"
  {
    assert HexDigit(2) == '2' && HexDigit(0) == '0';
  }

  /** encodeURIComponent turns the space between two runs of safe code points into "%20". */
  lemma UriEncodeWords(a: string, b: string)
    requires forall i :: 0 <= i < |a| ==> FormSafe(a[i])
    requires forall i :: 0 <= i < |b| ==> FormSafe(b[i])
    ensures EncodeUriComponent(a + " " + b) == a + "%20" + b
  {
    assert EncodeUriComponent(" " + b) == "%20" + b by {
      FormEncodeOfSafe(b);
      EncodeUriComponentConcat(" ", b);
      EncodedSpace();
    }
    JsText.ConcatAssociative(a, " ", b);
    FormEncodeOfSafe(a);
    EncodeUriComponentConcat(a, " " + b);
    JsText.ConcatAssociative(a, "%20", b);
  }

  /** The query-string serialization of name/value pairs: "name=value" joined by '&'. */
  function SerializePairs(pairs: seq<(string, string)>): (r: string)
    ensures r == "" <==> pairs == []
  {
    if pairs == [] then ""
    else
      var front := SerializePairs(pairs[..|pairs| - 1]);
      var last := FormEncode(pairs[|pairs| - 1].0) + "=" + FormEncode(pairs[|pairs| - 1].1);
      if front == "" then last else front + "&" + last
  }
}
