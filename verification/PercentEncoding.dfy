/** `encodeURIComponent` and `decodeURIComponent` on well-formed strings: UTF-8 (RFC 3629) in
    percent-encoded form (section 2.1 of RFC 3986). A `char` is a Unicode scalar value. */
module PercentEncoding {
  import opened Wrappers

  type Octet = b: nat | b < 256

  // ----- UTF-8

  function Utf8(c: char): (r: seq<Octet>)
    ensures 1 <= |r| <= 4
    ensures |r| == 1 <==> (c as int) < 0x80
    ensures |r| == 1 ==> r[0] == c as int
  {
    var v := c as int;
    if v < 0x80 then [v]
    else if v < 0x800 then [0xC0 + v / 64, 0x80 + v % 64]
    else if v < 0x10000 then [0xE0 + v / 4096, 0x80 + v / 64 % 64, 0x80 + v % 64]
    else [0xF0 + v / 262144, 0x80 + v / 4096 % 64, 0x80 + v / 64 % 64, 0x80 + v % 64]
  }

  predicate Continuation(b: Octet) {
    0x80 <= b < 0xC0
  }

  /** The length announced by a leading octet above 0x7F, or 0 if it is not a leading octet. */
  function LeadLength(b: Octet): (n: nat)
    ensures n == 0 || 2 <= n <= 4
  {
    if 0xC0 <= b < 0xE0 then 2 else if 0xE0 <= b < 0xF0 then 3 else if 0xF0 <= b < 0xF8 then 4 else 0
  }

  predicate ScalarValue(v: int) {
    0 <= v < 0xD800 || 0xE000 <= v < 0x110000
  }

  /** The character of a whole UTF-8 sequence: only the shortest form of a scalar value is valid. */
  function FromUtf8(bs: seq<Octet>): Option<char> {
    if |bs| == 1 && bs[0] < 0x80 then Some(bs[0] as char)
    else if |bs| < 2 || LeadLength(bs[0]) != |bs| || (exists i :: 1 <= i < |bs| && !Continuation(bs[i])) then None
    else
      var v := SequenceValue(bs);
      if v >= Least(|bs|) && ScalarValue(v) then Some(v as char) else None
  }

  function SequenceValue(bs: seq<Octet>): int
    requires 2 <= |bs| <= 4
  {
    var b, c: int := bs[0], bs[1];
    if |bs| == 2 then (b - 0xC0) * 64 + (c - 0x80)
    else
      var d: int := bs[2];
      if |bs| == 3 then (b - 0xE0) * 4096 + (c - 0x80) * 64 + (d - 0x80)
      else
        var e: int := bs[3];
        (b - 0xF0) * 262144 + (c - 0x80) * 4096 + (d - 0x80) * 64 + (e - 0x80)
  }

  /** The least value that needs a sequence of this length. */
  function Least(n: nat): int {
    if n == 2 then 0x80 else if n == 3 then 0x800 else 0x10000
  }

  lemma Digits(v: nat)
    ensures v == v / 64 * 64 + v % 64
    ensures v / 64 == v / 4096 * 64 + v / 64 % 64
    ensures v / 4096 == v / 262144 * 64 + v / 4096 % 64
  {
    assert v / 64 / 64 == v / 4096;
    assert v / 4096 / 64 == v / 262144;
  }

  lemma Utf8RoundTrip(c: char)
    ensures FromUtf8(Utf8(c)) == Some(c)
    ensures |Utf8(c)| > 1 ==> LeadLength(Utf8(c)[0]) == |Utf8(c)|
  {
    var v, bs := c as int, Utf8(c);
    if |bs| > 1 {
      Digits(v);
      assert forall i :: 1 <= i < |bs| ==> Continuation(bs[i]);
      SequenceOf(c);
    }
  }

  lemma SequenceOf(c: char)
    requires |Utf8(c)| > 1
    ensures SequenceValue(Utf8(c)) == c as int >= Least(|Utf8(c)|)
    ensures LeadLength(Utf8(c)[0]) == |Utf8(c)|
  {
    Digits(c as int);
  }

  // ----- hexadecimal

  function HexDigit(n: nat): (c: char)
    requires n < 16
    ensures '0' <= c <= '9' || 'A' <= c <= 'F'
  {
    if n < 10 then ('0' as int + n) as char else ('A' as int + (n - 10)) as char
  }

  function HexValue(c: char): (r: Option<nat>)
    ensures r.Some? ==> r.value < 16
  {
    if '0' <= c <= '9' then Some(c as int - '0' as int)
    else if 'A' <= c <= 'F' then Some(c as int - 'A' as int + 10)
    else if 'a' <= c <= 'f' then Some(c as int - 'a' as int + 10)
    else None
  }

  function Escape(b: Octet): (r: string)
    ensures |r| == 3 && r[0] == '%'
  {
    ['%', HexDigit(b / 16), HexDigit(b % 16)]
  }

  /** The octet of the escape at index `i`. */
  function EscapeAt(s: string, i: nat): Option<Octet> {
    if i + 2 < |s| && s[i] == '%' && HexValue(s[i + 1]).Some? && HexValue(s[i + 2]).Some?
    then Some(HexValue(s[i + 1]).value * 16 + HexValue(s[i + 2]).value)
    else None
  }

  // ----- strings

  /** Letters, digits and `- _ . ! ~ * ' ( )` stay as they are. */
  predicate Unreserved(c: char) {
    'A' <= c <= 'Z' || 'a' <= c <= 'z' || '0' <= c <= '9' ||
    c == '-' || c == '_' || c == '.' || c == '!' || c == '~' || c == '*' || c == '\'' || c == '(' || c == ')'
  }

  function EscapeAll(bs: seq<Octet>): (r: string)
    ensures |r| == 3 * |bs|
  {
    if bs == [] then [] else Escape(bs[0]) + EscapeAll(bs[1..])
  }

  function EncodeChar(c: char): string {
    if Unreserved(c) then [c] else EscapeAll(Utf8(c))
  }

  function Encode(s: string): string {
    if s == [] then [] else EncodeChar(s[0]) + Encode(s[1..])
  }

  /** The octets of `n` consecutive escapes from index `i` on. */
  function EscapesAt(s: string, i: nat, n: nat): (r: Option<seq<Octet>>)
    ensures r.Some? ==> |r.value| == n && (n > 0 ==> i + 3 * n <= |s|)
    decreases n
  {
    if n == 0 then Some([])
    else
      match EscapeAt(s, i)
      case None => None
      case Some(b) => (match EscapesAt(s, i + 3, n - 1)
                       case None => None
                       case Some(bs) => Some([b] + bs))
  }

  /** How many escapes the character that begins with octet `b` takes. */
  function SequenceLength(b: Octet): nat {
    if b < 0x80 then 1 else LeadLength(b)
  }

  /** `None` where the original throws a `URIError`. */
  function Decode(s: string): Option<string>
    decreases |s|
  {
    if s == [] then Some([])
    else if s[0] != '%' then Prepend(Some(s[0]), Decode(s[1..]))
    else
      match EscapeAt(s, 0)
      case None => None
      case Some(b) =>
        var n := SequenceLength(b);
        if n == 0 then None
        else
          match EscapesAt(s, 0, n)
          case None => None
          case Some(bs) => Prepend(FromUtf8(bs), Decode(s[3 * n..]))
  }

  function Prepend(c: Option<char>, s: Option<string>): Option<string> {
    if c.Some? && s.Some? then Some([c.value] + s.value) else None
  }

  lemma EscapeRoundTrip(b: Octet, rest: string)
    ensures EscapeAt(Escape(b) + rest, 0) == Some(b)
  {
    var s := Escape(b) + rest;
    assert s[0] == '%' && s[1] == HexDigit(b / 16) && s[2] == HexDigit(b % 16);
  }

  lemma {:induction false} EscapesShift(a: string, s: string, i: nat, n: nat)
    ensures EscapesAt(a + s, |a| + i, n) == EscapesAt(s, i, n)
    decreases n
  {
    if n > 0 {
      EscapesShift(a, s, i + 3, n - 1);
      if i + 2 < |s| {
        assert (a + s)[|a| + i] == s[i] && (a + s)[|a| + i + 1] == s[i + 1] && (a + s)[|a| + i + 2] == s[i + 2];
      }
    }
  }

  lemma {:induction false} EscapesRoundTrip(bs: seq<Octet>, rest: string)
    ensures EscapesAt(EscapeAll(bs) + rest, 0, |bs|) == Some(bs)
  {
    if bs != [] {
      var tail := EscapeAll(bs[1..]) + rest;
      assert EscapeAll(bs) + rest == Escape(bs[0]) + tail;
      EscapeRoundTrip(bs[0], tail);
      EscapesShift(Escape(bs[0]), tail, 0, |bs| - 1);
      EscapesRoundTrip(bs[1..], rest);
      assert [bs[0]] + bs[1..] == bs;
    }
  }

  lemma {:induction false} DecodeChar(c: char, rest: string)
    ensures Decode(EncodeChar(c) + rest) == Prepend(Some(c), Decode(rest))
  {
    var s := EncodeChar(c) + rest;
    if Unreserved(c) {
      assert s[0] == c && s[1..] == rest;
    } else {
      var bs := Utf8(c);
      var tail := EscapeAll(bs[1..]) + rest;
      Utf8RoundTrip(c);
      assert s == Escape(bs[0]) + tail;
      EscapeRoundTrip(bs[0], tail);
      EscapesRoundTrip(bs, rest);
      assert s[3 * |bs|..] == rest;
    }
  }

  /** Decoding inverts encoding, for every well-formed string. */
  lemma {:induction false} DecodeEncode(s: string)
    ensures Decode(Encode(s)) == Some(s)
  {
    if s != [] {
      DecodeEncode(s[1..]);
      DecodeChar(s[0], Encode(s[1..]));
      assert [s[0]] + s[1..] == s;
    }
  }

  /** The characters of encoded text: no separator, quote, plus or blank is among them. */
  predicate Safe(c: char) {
    Unreserved(c) || c == '%'
  }

  lemma {:induction false} EncodedIsSafe(s: string)
    ensures forall i :: 0 <= i < |Encode(s)| ==> Safe(Encode(s)[i])
  {
    if s != [] {
      EncodedIsSafe(s[1..]);
      if !Unreserved(s[0]) {
        EscapesAreSafe(Utf8(s[0]));
      }
    }
  }

  lemma {:induction false} EscapesAreSafe(bs: seq<Octet>)
    ensures forall i :: 0 <= i < |EscapeAll(bs)| ==> Safe(EscapeAll(bs)[i])
  {
    if bs != [] {
      EscapesAreSafe(bs[1..]);
    }
  }

  // ----- decoding texts that were not encoded here

  /** A character that cannot be part of an escape. */
  predicate Neutral(c: char) {
    c != '%' && HexValue(c).None?
  }

  lemma EscapeBefore(a: string, c: char, b: string, i: nat)
    requires Neutral(c) && i <= |a|
    ensures EscapeAt(a + [c] + b, i) == EscapeAt(a, i)
  {
    var u := a + [c] + b;
    assert u[|a|] == c && forall k :: 0 <= k < |a| ==> u[k] == a[k];
  }

  lemma {:induction false} EscapesBefore(a: string, c: char, b: string, i: nat, n: nat)
    requires Neutral(c) && i <= |a|
    ensures EscapesAt(a + [c] + b, i, n) == EscapesAt(a, i, n)
    decreases n
  {
    hide EscapeAt, HexValue;
    if n > 0 {
      EscapeBefore(a, c, b, i);
      EscapeFits(a, i);
      if EscapeAt(a, i).Some? {
        EscapesBefore(a, c, b, i + 3, n - 1);
      }
    }
  }

  lemma EscapeFits(s: string, i: nat)
    ensures EscapeAt(s, i).Some? ==> i + 3 <= |s|
  {
  }

  function Around(x: Option<string>, c: char, y: Option<string>): Option<string> {
    if x.Some? && y.Some? then Some(x.value + [c] + y.value) else None
  }

  /** A character outside escapes separates what is decoded before it from what is decoded after it. */
  lemma {:induction false} DecodeAround(a: string, c: char, b: string)
    requires Neutral(c)
    ensures Decode(a + [c] + b) == Around(Decode(a), c, Decode(b))
    decreases |a|
  {
    hide EscapesAt, EscapeAt, HexValue, FromUtf8, SequenceLength, Decode;
    var u := a + [c] + b;
    if a == [] {
      assert u == [c] + b;
      DecodePlain(c, b);
      DecodeNothing();
      if Decode(b).Some? {
        assert [] + [c] + Decode(b).value == [c] + Decode(b).value;
      }
    } else if a[0] != '%' {
      assert u == [a[0]] + (a[1..] + [c] + b) && a == [a[0]] + a[1..];
      DecodePlain(a[0], a[1..] + [c] + b);
      DecodePlain(a[0], a[1..]);
      DecodeAround(a[1..], c, b);
      PrependAround(Some(a[0]), Decode(a[1..]), c, Decode(b));
    } else {
      EscapeBefore(a, c, b, 0);
      DecodeEscape(a);
      DecodeEscape(u);
      if EscapeAt(a, 0).Some? {
        var n := SequenceLength(EscapeAt(a, 0).value);
        EscapesBefore(a, c, b, 0, n);
        if n > 0 && EscapesAt(a, 0, n).Some? {
          assert u[3 * n..] == a[3 * n..] + [c] + b;
          DecodeAround(a[3 * n..], c, b);
          PrependAround(FromUtf8(EscapesAt(a, 0, n).value), Decode(a[3 * n..]), c, Decode(b));
        }
      }
    }
  }

  lemma DecodeNothing()
    ensures Decode([]) == Some([])
  {
  }

  lemma {:induction false} DecodePlain(c: char, s: string)
    requires c != '%'
    ensures Decode([c] + s) == Prepend(Some(c), Decode(s))
  {
    assert ([c] + s)[1..] == s;
  }

  lemma {:induction false} DecodeEscape(s: string)
    requires s != [] && s[0] == '%'
    ensures Decode(s) ==
            match EscapeAt(s, 0)
            case None => None
            case Some(b) =>
              var n := SequenceLength(b);
              if n == 0 || EscapesAt(s, 0, n).None? then None
              else Prepend(FromUtf8(EscapesAt(s, 0, n).value), Decode(s[3 * n..]))
  {
  }

  lemma PrependAround(x: Option<char>, s: Option<string>, c: char, t: Option<string>)
    ensures Prepend(x, Around(s, c, t)) == Around(Prepend(x, s), c, t)
  {
    if x.Some? && s.Some? && t.Some? {
      assert [x.value] + (s.value + [c] + t.value) == ([x.value] + s.value) + [c] + t.value;
    }
  }

  // ----- the characters that stay as they are

  const UPPER := "ABCDEFGHIJKLMNOPQRSTUVWXYZ"
  const LOWER := "abcdefghijklmnopqrstuvwxyz"
  const DIGITS := "0123456789"
  const MARKS := "-_.!~*'()"

  lemma UpperAt(i: nat)
    requires i < 26
    ensures UPPER[i] as int == 'A' as int + i
  {
  }

  lemma LowerAt(i: nat)
    requires i < 26
    ensures LOWER[i] as int == 'a' as int + i
  {
  }

  lemma DigitAt(i: nat)
    requires i < 10
    ensures DIGITS[i] as int == '0' as int + i
  {
  }

  lemma UpperIff(c: char)
    ensures c in UPPER <==> 'A' <= c <= 'Z'
  {
    assert forall i :: 0 <= i < 26 ==> UPPER[i] as int == 'A' as int + i;
    if 'A' <= c <= 'Z' {
      assert UPPER[c as int - 'A' as int] == c;
    }
  }

  lemma LowerIff(c: char)
    ensures c in LOWER <==> 'a' <= c <= 'z'
  {
    assert forall i :: 0 <= i < 26 ==> LOWER[i] as int == 'a' as int + i;
    if 'a' <= c <= 'z' {
      assert LOWER[c as int - 'a' as int] == c;
    }
  }

  lemma DigitIff(c: char)
    ensures c in DIGITS <==> '0' <= c <= '9'
  {
    assert forall i :: 0 <= i < 10 ==> DIGITS[i] as int == '0' as int + i;
    if '0' <= c <= '9' {
      assert DIGITS[c as int - '0' as int] == c;
    }
  }

  /** A character is left alone exactly if it is one of these. */
  lemma KeptIff(c: char)
    ensures EncodeChar(c) == [c] <==> c in UPPER || c in LOWER || c in DIGITS || c in MARKS
  {
    hide EscapeAll, Utf8;
    UpperIff(c);
    LowerIff(c);
    DigitIff(c);
    assert |EscapeAll(Utf8(c))| == 3 * |Utf8(c)|;
  }

  // ----- which escapes are read

  const HEX := "0123456789ABCDEF"
  const SMALL_HEX := "0123456789abcdef"

  /** Digits are written in upper case and read in either case. */
  lemma HexIff(c: char, n: nat)
    requires n < 16
    ensures HexDigit(n) == HEX[n]
    ensures HexValue(c) == Some(n) <==> c == HEX[n] || c == SMALL_HEX[n]
  {
  }

  lemma EscapeAtIff(s: string, i: nat, b: Octet)
    ensures EscapeAt(s, i) == Some(b) <==>
            i + 2 < |s| && s[i] == '%' && HexValue(s[i + 1]) == Some(b / 16) && HexValue(s[i + 2]) == Some(b % 16)
  {
  }

  /** Octets are read as a character exactly if they are its UTF-8 form: no overlong forms, no surrogates. */
  lemma FromUtf8Iff(bs: seq<Octet>, c: char)
    ensures FromUtf8(bs) == Some(c) <==> bs == Utf8(c)
  {
    hide Utf8;
    Utf8RoundTrip(c);
    if FromUtf8(bs) == Some(c) {
      OnlyUtf8(bs, c);
    }
  }

  lemma OnlyUtf8(bs: seq<Octet>, c: char)
    requires FromUtf8(bs) == Some(c)
    ensures bs == Utf8(c)
  {
    hide Utf8, FromUtf8, LeadLength, SequenceValue;
    FromUtf8Facts(bs, c);
    ShortUtf8(c);
    LongUtf8(c);
    if |bs| == 2 {
      TwoOctetsOnly(bs, c as int);
    } else if |bs| == 3 {
      ThreeOctetsOnly(bs, c as int);
    } else if |bs| == 4 {
      FourOctetsOnly(bs, c as int);
    }
  }

  lemma FromUtf8Facts(bs: seq<Octet>, c: char)
    requires FromUtf8(bs) == Some(c)
    ensures 1 <= |bs| <= 4
    ensures |bs| == 1 ==> bs[0] == c as int < 0x80
    ensures |bs| > 1 ==>
              && LeadLength(bs[0]) == |bs| && (forall i :: 1 <= i < |bs| ==> Continuation(bs[i]))
              && SequenceValue(bs) == c as int >= Least(|bs|)
  {
    hide SequenceValue;
  }

  lemma TwoOctetsOnly(bs: seq<Octet>, v: int)
    requires |bs| == 2 && LeadLength(bs[0]) == 2 && Continuation(bs[1]) && v == SequenceValue(bs)
    ensures v < 0x800 && bs == [0xC0 + v / 64, 0x80 + v % 64]
  {
    var b, d: int := bs[0], bs[1];
    HighLow(b - 0xC0, d - 0x80, v);
  }

  lemma ThreeOctetsOnly(bs: seq<Octet>, v: int)
    requires |bs| == 3 && LeadLength(bs[0]) == 3 && Continuation(bs[1]) && Continuation(bs[2]) && v == SequenceValue(bs)
    ensures v < 0x10000 && bs == [0xE0 + v / 4096, 0x80 + v / 64 % 64, 0x80 + v % 64]
  {
    var b, d, e: int := bs[0], bs[1], bs[2];
    ThreeDigits(b - 0xE0, d - 0x80, e - 0x80, v);
  }

  lemma FourOctetsOnly(bs: seq<Octet>, v: int)
    requires |bs| == 4 && LeadLength(bs[0]) == 4 && v == SequenceValue(bs)
    requires Continuation(bs[1]) && Continuation(bs[2]) && Continuation(bs[3])
    ensures v / 262144 < 8 && v / 4096 % 64 < 64
    ensures bs == [0xF0 + v / 262144, 0x80 + v / 4096 % 64, 0x80 + v / 64 % 64, 0x80 + v % 64]
  {
    var b, d, e, f: int := bs[0], bs[1], bs[2], bs[3];
    FourDigits(b - 0xF0, d - 0x80, e - 0x80, f - 0x80, v);
  }

  lemma ShortUtf8(c: char)
    ensures (c as int) < 0x80 ==> Utf8(c) == [c as int]
  {
  }

  lemma LongUtf8(c: char)
    ensures var v := c as int;
            && (0x80 <= v < 0x800 ==> Utf8(c) == [0xC0 + v / 64, 0x80 + v % 64])
            && (0x800 <= v < 0x10000 ==> Utf8(c) == [0xE0 + v / 4096, 0x80 + v / 64 % 64, 0x80 + v % 64])
            && (0x10000 <= v ==>
                  Utf8(c) == [0xF0 + v / 262144, 0x80 + v / 4096 % 64, 0x80 + v / 64 % 64, 0x80 + v % 64])
  {
  }

  lemma FourDigits(top: int, high: int, mid: int, low: int, v: int)
    requires v == ((top * 64 + high) * 64 + mid) * 64 + low
    requires 0 <= high < 64 && 0 <= mid < 64 && 0 <= low < 64
    ensures v / 262144 == top && v / 4096 % 64 == high && v / 64 % 64 == mid && v % 64 == low
  {
    ThreeDigits(top * 64 + high, mid, low, v);
    HighLow(top, high, v / 4096);
    assert v / 4096 / 64 == v / 262144;
  }

  lemma HighLow(high: int, low: int, v: int)
    requires v == high * 64 + low && 0 <= low < 64
    ensures v / 64 == high && v % 64 == low
  {
  }

  lemma ThreeDigits(high: int, mid: int, low: int, v: int)
    requires v == (high * 64 + mid) * 64 + low && 0 <= mid < 64 && 0 <= low < 64
    ensures v / 4096 == high && v / 64 % 64 == mid && v % 64 == low
  {
    HighLow(high * 64 + mid, low, v);
    HighLow(high, mid, v / 64);
    assert v / 64 / 64 == v / 4096;
  }

  /** However its octets are escaped, a character is read. */
  lemma {:induction false} DecodeSpelled(t: string, bs: seq<Octet>, rest: string)
    requires |bs| > 0 && |t| == 3 * |bs| && SequenceLength(bs[0]) == |bs|
    requires EscapesAt(t + rest, 0, |bs|) == Some(bs)
    ensures Decode(t + rest) == Prepend(FromUtf8(bs), Decode(rest))
  {
    hide FromUtf8, SequenceLength, Decode;
    var s := t + rest;
    assert s[3 * |bs|..] == rest;
    assert EscapeAt(s, 0) == Some(bs[0]);
    DecodeEscape(s);
  }
}
