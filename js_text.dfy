/** The pieces of JavaScript's string and number semantics the core relies on:
    String.prototype.trim, the global parseInt with radix 10 (section 19.2.5 of ECMA-262),
    the decimal text of an integer Number, and Array.prototype.join over strings. */
module JsText {
  import opened Wrappers

  /** ECMAScript WhiteSpace (section 12.2 of ECMA-262: TAB, VT, FF, ZWNBSP and every
      code point of category Zs) or LineTerminator (section 12.3: LF, CR, LS, PS).
      These are the code points that trim and parseInt skip. */
  predicate IsWhiteSpace(c: char) {
    var n := c as int;
    n == 0x09 || n == 0x0A || n == 0x0B || n == 0x0C || n == 0x0D || n == 0x20 ||
    n == 0xA0 || n == 0x1680 || (0x2000 <= n <= 0x200A) || n == 0x2028 || n == 0x2029 ||
    n == 0x202F || n == 0x205F || n == 0x3000 || n == 0xFEFF
  }

  predicate AllWhiteSpace(s: string) {
    forall i :: 0 <= i < |s| ==> IsWhiteSpace(s[i])
  }

  /** A string without white space at either end. */
  predicate IsTrimmed(s: string) {
    s == [] || (!IsWhiteSpace(s[0]) && !IsWhiteSpace(s[|s| - 1]))
  }

  /** `s` is `r` with white space added on both sides. */
  ghost predicate PaddedBy(s: string, r: string) {
    exists k :: 0 <= k <= |s| - |r| && AllWhiteSpace(s[..k]) &&
      s[k..k + |r|] == r && AllWhiteSpace(s[k + |r|..])
  }

  /** String.prototype.trimStart. */
  function TrimStart(s: string): (r: string)
    ensures |r| <= |s|
  {
    if s != [] && IsWhiteSpace(s[0]) then TrimStart(s[1..]) else s
  }

  /** String.prototype.trimEnd. */
  function TrimEnd(s: string): (r: string)
    ensures |r| <= |s|
  {
    if s != [] && IsWhiteSpace(s[|s| - 1]) then TrimEnd(s[..|s| - 1]) else s
  }

  /** trimStart drops the longest white-space prefix: what is left is a suffix of `s` that
      does not start with white space, and what was dropped is all white space. */
  lemma {:induction false} TrimStartShape(s: string)
    ensures var r := TrimStart(s);
      && |r| <= |s| && r == s[|s| - |r|..]
      && AllWhiteSpace(s[..|s| - |r|])
      && (r != [] ==> !IsWhiteSpace(r[0]))
  {
    if s != [] && IsWhiteSpace(s[0]) {
      TrimStartShape(s[1..]);
      var r := TrimStart(s[1..]);
      assert s[1..][|s| - 1 - |r|..] == s[|s| - |r|..];
      assert s[..|s| - |r|] == [s[0]] + s[1..][..|s| - 1 - |r|];
    }
  }

  /** trimEnd drops the longest white-space suffix. */
  lemma {:induction false} TrimEndShape(s: string)
    ensures var r := TrimEnd(s);
      && |r| <= |s| && r == s[..|r|]
      && AllWhiteSpace(s[|r|..])
      && (r != [] ==> !IsWhiteSpace(r[|r| - 1]))
  {
    if s != [] && IsWhiteSpace(s[|s| - 1]) {
      var front := s[..|s| - 1];
      TrimEndShape(front);
      var r := TrimEnd(front);
      assert front[..|r|] == s[..|r|];
      assert s[|r|..] == front[|r|..] + [s[|s| - 1]];
    }
  }

  /** String.prototype.trim. */
  function Trim(s: string): (r: string)
    ensures |r| <= |s|
  {
    TrimEnd(TrimStart(s))
  }

  /** trim leaves a string without white space at its ends, which `s` pads with white space. */
  lemma TrimShape(s: string)
    ensures IsTrimmed(Trim(s)) && PaddedBy(s, Trim(s))
  {
    var t := TrimStart(s);
    var r := TrimEnd(t);
    TrimStartShape(s);
    TrimEndShape(t);
    var k := |s| - |t|;
    assert s[k..] == t;
    assert s[k..k + |r|] == r;
    assert s[k + |r|..] == t[|r|..];
    assert IsTrimmed(r) by {
      if r != [] {
        assert r[0] == t[0];
      }
    }
  }

  /** Trimming leaves nothing exactly when the string is all white space. */
  lemma TrimEmptyIff(s: string)
    ensures Trim(s) == [] <==> AllWhiteSpace(s)
  {
    TrimShape(s);
    var k :| 0 <= k <= |s| - |Trim(s)| && AllWhiteSpace(s[..k]) &&
      s[k..k + |Trim(s)|] == Trim(s) && AllWhiteSpace(s[k + |Trim(s)|..]);
    if Trim(s) == [] {
      forall i | 0 <= i < |s| ensures IsWhiteSpace(s[i]) {
        if i < k {
          assert s[..k][i] == s[i];
        } else {
          assert s[k..][i - k] == s[i];
        }
      }
    } else {
      assert s[k..k + |Trim(s)|][0] == s[k];
    }
  }

  /** A string that has no white space at its ends trims to itself. */
  lemma TrimOfTrimmed(s: string)
    requires IsTrimmed(s)
    ensures Trim(s) == s
  {
  }

  /** Trimming is idempotent. */
  lemma TrimIdempotent(s: string)
    ensures Trim(Trim(s)) == Trim(s)
  {
    TrimShape(s);
    TrimOfTrimmed(Trim(s));
  }

  predicate IsDigit(c: char) {
    '0' <= c <= '9'
  }

  predicate AllDigits(s: string) {
    forall i :: 0 <= i < |s| ==> IsDigit(s[i])
  }

  function DigitValue(c: char): (d: nat)
    requires IsDigit(c)
    ensures d < 10
  {
    c as int - '0' as int
  }

  function DigitChar(d: nat): (c: char)
    requires d < 10
    ensures IsDigit(c) && DigitValue(c) == d
  {
    (d + '0' as int) as char
  }

  /** The value of a string of decimal digits, most significant first. */
  function DigitsValue(ds: string): nat
    requires AllDigits(ds)
  {
    if ds == [] then 0 else DigitsValue(ds[..|ds| - 1]) * 10 + DigitValue(ds[|ds| - 1])
  }

  /** The longest prefix of `s` made of decimal digits. */
  function DigitPrefix(s: string): (r: string)
    ensures |r| <= |s| && r == s[..|r|] && AllDigits(r)
    ensures |r| < |s| ==> !IsDigit(s[|r|])
  {
    if s != [] && IsDigit(s[0]) then [s[0]] + DigitPrefix(s[1..]) else []
  }

  /** The decimal text of a natural number, without leading zeros
      (Number.prototype.toString for a safe integer). */
  function NatToString(n: nat): (r: string)
    ensures |r| >= 1 && AllDigits(r)
    ensures |r| > 1 ==> r[0] != '0'
  {
    if n < 10 then [DigitChar(n)] else NatToString(n / 10) + [DigitChar(n % 10)]
  }

  /** The decimal text of an integer, with a leading '-' when it is negative. */
  function IntToString(n: int): (r: string)
    ensures |r| >= 1
    ensures n >= 0 ==> r == NatToString(n)
    ensures n < 0 ==> r == "-" + NatToString(-n)
  {
    if n < 0 then "-" + NatToString(-n) else NatToString(n)
  }

  /** parseInt(s, 10): skip leading white space, take an optional sign, then the longest run
      of decimal digits; NaN (None) when that run is empty. Negative zero is folded into 0. */
  function ParseInt(s: string): (r: Option<int>)
    ensures r.None? <==> DigitPrefix(SignStripped(TrimStart(s))) == []
  {
    var t := TrimStart(s);
    var negative := t != [] && t[0] == '-';
    var z := DigitPrefix(SignStripped(t));
    var v: int := if z == [] then 0 else DigitsValue(z);
    if z == [] then None else Some(if negative then -v else v)
  }

  /** `t` without its leading '+' or '-', if any. */
  function SignStripped(t: string): (u: string)
    ensures |u| <= |t|
  {
    if t != [] && (t[0] == '+' || t[0] == '-') then t[1..] else t
  }

  /** Reading back the decimal text of a natural number gives that number. */
  lemma {:induction false} DigitsValueOfNatToString(n: nat)
    ensures DigitsValue(NatToString(n)) == n
  {
    if n >= 10 {
      var s := NatToString(n);
      assert s[..|s| - 1] == NatToString(n / 10);
      DigitsValueOfNatToString(n / 10);
    }
  }

  /** The digit run of a digit string followed by a non-digit is that digit string. */
  lemma {:induction false} DigitPrefixOfDigits(ds: string, rest: string)
    requires AllDigits(ds)
    requires rest == [] || !IsDigit(rest[0])
    ensures DigitPrefix(ds + rest) == ds
  {
    if ds != [] {
      assert (ds + rest)[1..] == ds[1..] + rest;
      DigitPrefixOfDigits(ds[1..], rest);
    }
  }

  /** parseInt reads back the decimal text of any integer, whatever white space precedes it
      and whatever non-digit text follows it. */
  lemma {:induction false} ParseIntOfIntToString(ws: string, n: int, rest: string)
    requires AllWhiteSpace(ws)
    requires rest == [] || !IsDigit(rest[0])
    ensures ParseInt(ws + IntToString(n) + rest) == Some(n)
  {
    var m: nat := if n < 0 then -n else n;
    var body := IntToString(n) + rest;
    SignedTextShape(n, rest);
    TrimStartSkipsWhiteSpace(ws, body);
    DigitPrefixOfDigits(NatToString(m), rest);
    DigitsValueOfNatToString(m);
    ConcatAssociative(ws, IntToString(n), rest);
  }

  /** Proof helper: concatenation of strings is associative. */
  lemma ConcatAssociative(a: string, b: string, c: string)
    ensures a + b + c == a + (b + c)
  {
  }

  /** The decimal text of `n` followed by `rest`: where its sign is and what follows the sign. */
  lemma SignedTextShape(n: int, rest: string)
    ensures var body := IntToString(n) + rest;
      && body != [] && !IsWhiteSpace(body[0])
      && (body[0] == '-' <==> n < 0)
      && SignStripped(body) == NatToString(if n < 0 then -n else n) + rest
  {
    var body := IntToString(n) + rest;
    if n < 0 {
      assert body == "-" + (NatToString(-n) + rest);
    } else {
      var digits := NatToString(n);
      assert body == digits + rest;
      assert body[0] == digits[0];
      assert IsDigit(body[0]);
    }
  }

  /** trimStart drops exactly a white-space prefix in front of text that does not start with white space. */
  lemma {:induction false} TrimStartSkipsWhiteSpace(ws: string, body: string)
    requires AllWhiteSpace(ws)
    requires body == [] || !IsWhiteSpace(body[0])
    ensures TrimStart(ws + body) == body
  {
    if ws != [] {
      assert (ws + body)[1..] == ws[1..] + body;
      TrimStartSkipsWhiteSpace(ws[1..], body);
    }
  }

  /** parseInt of exactly the decimal text of an integer. */
  lemma ParseIntRoundTrip(n: int)
    ensures ParseInt(IntToString(n)) == Some(n)
  {
    ParseIntOfIntToString("", n, "");
    assert "" + IntToString(n) + "" == IntToString(n);
  }

  /** Array.prototype.join over strings. */
  function Join(parts: seq<string>, sep: string): (r: string)
    ensures parts == [] ==> r == ""
    ensures |parts| == 1 ==> r == parts[0]
  {
    if parts == [] then ""
    else if |parts| == 1 then parts[0]
    else Join(parts[..|parts| - 1], sep) + sep + parts[|parts| - 1]
  }
}
