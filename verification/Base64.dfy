/** Standard base64 with padding (section 4 of RFC 4648), as Go's StdEncoding reads it: line breaks are
    skipped anywhere, padding is required, and nothing may follow it. */
module Base64 {
  import opened Wrappers
  import opened PercentEncoding

  type Sextet = n: nat | n < 64

  function Symbol(n: Sextet): (c: char)
    ensures 'A' <= c <= 'Z' || 'a' <= c <= 'z' || '0' <= c <= '9' || c == '+' || c == '/'
  {
    if n < 26 then ('A' as int + n) as char
    else if n < 52 then ('a' as int + (n - 26)) as char
    else if n < 62 then ('0' as int + (n - 52)) as char
    else if n == 62 then '+' else '/'
  }

  function SextetOf(c: char): Option<Sextet> {
    if 'A' <= c <= 'Z' then Some(c as int - 'A' as int)
    else if 'a' <= c <= 'z' then Some(c as int - 'a' as int + 26)
    else if '0' <= c <= '9' then Some(c as int - '0' as int + 52)
    else if c == '+' then Some(62)
    else if c == '/' then Some(63)
    else None
  }

  lemma SymbolRoundTrip(n: Sextet)
    ensures SextetOf(Symbol(n)) == Some(n)
  {
  }

  function Encode64(bs: seq<Octet>): string {
    if bs == [] then ""
    else if |bs| == 1 then [Symbol(bs[0] / 4), Symbol(bs[0] % 4 * 16), '=', '=']
    else if |bs| == 2 then [Symbol(bs[0] / 4), Symbol(bs[0] % 4 * 16 + bs[1] / 16), Symbol(bs[1] % 16 * 4), '=']
    else
      [Symbol(bs[0] / 4), Symbol(bs[0] % 4 * 16 + bs[1] / 16), Symbol(bs[1] % 16 * 4 + bs[2] / 64), Symbol(bs[2] % 64)]
      + Encode64(bs[3..])
  }

  function WithoutLineBreaks(s: string): string {
    if s == "" then "" else (if s[0] == '\r' || s[0] == '\n' then "" else [s[0]]) + WithoutLineBreaks(s[1..])
  }

  /** Groups of four symbols; only the last may be padded. Bits that padding makes superfluous are ignored. */
  function DecodeGroups(s: string): Option<seq<Octet>> {
    if s == "" then Some([])
    else if |s| < 4 || SextetOf(s[0]).None? || SextetOf(s[1]).None? then None
    else
      var a, b := SextetOf(s[0]).value, SextetOf(s[1]).value;
      if s[2] == '=' && s[3] == '=' && |s| == 4 then Some([a * 4 + b / 16])
      else
        match SextetOf(s[2])
        case None => None
        case Some(c) =>
          if s[3] == '=' && |s| == 4 then Some([a * 4 + b / 16, b % 16 * 16 + c / 4])
          else
            match SextetOf(s[3])
            case None => None
            case Some(d) =>
              match DecodeGroups(s[4..])
              case None => None
              case Some(rest) => Some([a * 4 + b / 16, b % 16 * 16 + c / 4, c % 4 * 64 + d] + rest)
  }

  function Decode64(s: string): Option<seq<Octet>> {
    DecodeGroups(WithoutLineBreaks(s))
  }

  /** Encoded text consists of symbols and padding. */
  predicate Printable(c: char) {
    SextetOf(c).Some? || c == '='
  }

  lemma {:induction false} EncodedIsPrintable(bs: seq<Octet>)
    ensures forall i :: 0 <= i < |Encode64(bs)| ==> Printable(Encode64(bs)[i])
  {
    if |bs| >= 3 {
      EncodedIsPrintable(bs[3..]);
    }
  }

  lemma {:induction false} NoLineBreaks(s: string)
    requires forall i :: 0 <= i < |s| ==> s[i] != '\r' && s[i] != '\n'
    ensures WithoutLineBreaks(s) == s
  {
    if s != "" {
      NoLineBreaks(s[1..]);
    }
  }

  lemma {:induction false} GroupsRoundTrip(bs: seq<Octet>)
    ensures DecodeGroups(Encode64(bs)) == Some(bs)
  {
    hide DecodeGroups, Symbol;
    if bs == [] {
      NoOctet();
    } else if |bs| == 1 {
      OneOctet(bs[0]);
      assert bs == [bs[0]];
    } else if |bs| == 2 {
      TwoOctets(bs[0], bs[1]);
      assert bs == [bs[0], bs[1]];
    } else {
      GroupsRoundTrip(bs[3..]);
      WholeGroup(bs[0], bs[1], bs[2], Encode64(bs[3..]), bs[3..]);
      assert bs == [bs[0], bs[1], bs[2]] + bs[3..];
    }
  }

  lemma NoOctet()
    ensures DecodeGroups("") == Some([])
  {
  }

  lemma OneOctet(x: Octet)
    ensures DecodeGroups(Encode64([x])) == Some([x])
  {
  }

  lemma TwoOctets(x: Octet, y: Octet)
    ensures DecodeGroups(Encode64([x, y])) == Some([x, y])
  {
    hide DecodeGroups, Symbol;
    var a, b, c: Sextet := x / 4, x % 4 * 16 + y / 16, y % 16 * 4;
    assert Encode64([x, y]) == [Symbol(a), Symbol(b), Symbol(c), '='];
    PaddedGroup(a, b, c);
    Group(x, y, 0);
  }

  lemma PaddedGroup(a: Sextet, b: Sextet, c: Sextet)
    ensures DecodeGroups([Symbol(a), Symbol(b), Symbol(c), '=']) == Some([a * 4 + b / 16, b % 16 * 16 + c / 4])
  {
    hide Symbol, SextetOf;
    SymbolRoundTrip(a);
    SymbolRoundTrip(b);
    SymbolRoundTrip(c);
  }

  lemma {:induction false} WholeGroup(x: Octet, y: Octet, z: Octet, s: string, rest: seq<Octet>)
    requires DecodeGroups(s) == Some(rest)
    ensures DecodeGroups([Symbol(x / 4), Symbol(x % 4 * 16 + y / 16), Symbol(y % 16 * 4 + z / 64),
              Symbol(z % 64)] + s) ==
            Some([x, y, z] + rest)
  {
    hide Symbol, SextetOf;
    var a, b, c, d: Sextet := x / 4, x % 4 * 16 + y / 16, y % 16 * 4 + z / 64, z % 64;
    var t := [Symbol(a), Symbol(b), Symbol(c), Symbol(d)] + s;
    assert t[4..] == s;
    SymbolRoundTrip(a);
    SymbolRoundTrip(b);
    SymbolRoundTrip(c);
    SymbolRoundTrip(d);
    Group(x, y, z);
  }

  lemma Group(x: Octet, y: Octet, z: Octet)
    ensures var a, b, c, d := x / 4, x % 4 * 16 + y / 16, y % 16 * 4 + z / 64, z % 64;
            a * 4 + b / 16 == x && b % 16 * 16 + c / 4 == y && c % 4 * 64 + d == z
  {
  }

  /** Decoding inverts encoding. */
  lemma {:induction false} Base64RoundTrip(bs: seq<Octet>)
    ensures Decode64(Encode64(bs)) == Some(bs)
  {
    hide Encode64, DecodeGroups, WithoutLineBreaks;
    EncodedIsPrintable(bs);
    NoLineBreaks(Encode64(bs));
    GroupsRoundTrip(bs);
  }

  // ----- which texts are read

  const ALPHABET := UPPER + LOWER + DIGITS + "+/"

  /** The alphabet of section 4 of RFC 4648. */
  lemma SymbolIs(n: Sextet)
    ensures |ALPHABET| == 64 && Symbol(n) == ALPHABET[n]
  {
    if n < 26 {
      UpperAt(n);
    } else if n < 52 {
      LowerAt(n - 26);
    } else if n < 62 {
      DigitAt(n - 52);
    }
  }

  /** A group of four: symbols, the last one or two of which may be padding at the end. */
  predicate TailOk(y: char, z: char) {
    (SextetOf(y).Some? && (SextetOf(z).Some? || z == '=')) || (y == '=' && z == '=')
  }

  predicate WellFormed(s: string) {
    |s| % 4 == 0 && (forall i :: 0 <= i < |s| - 2 ==> SextetOf(s[i]).Some?)
        && (s != "" ==> TailOk(s[|s| - 2], s[|s| - 1]))
  }

  lemma {:induction false} WellFormedTail(s: string)
    requires |s| > 4
    ensures WellFormed(s) <==> (forall i :: 0 <= i < 4 ==> SextetOf(s[i]).Some?) && WellFormed(s[4..])
  {
    hide SextetOf;
    var t := s[4..];
    assert |t| % 4 == |s| % 4;
    if WellFormed(t) && (forall i :: 0 <= i < 4 ==> SextetOf(s[i]).Some?) {
      assert |t| >= 4;
      forall i | 0 <= i < |s| - 2 ensures SextetOf(s[i]).Some? {
        if i >= 4 {
          assert t[i - 4] == s[i];
        }
      }
    }
    if WellFormed(s) {
      assert |s| >= 8;
      assert forall i :: 0 <= i < |t| - 2 ==> t[i] == s[i + 4];
    }
  }

  /** Exactly the well-formed texts are read. */
  lemma {:induction false} ReadsIff(s: string)
    ensures DecodeGroups(s).Some? <==> WellFormed(s)
  {
    hide SextetOf;
    if |s| > 4 {
      ReadsIff(s[4..]);
      WellFormedTail(s);
      PaddingIsNoSymbol();
    } else if |s| == 4 {
      PaddingIsNoSymbol();
      NoOctet();
      assert s[4..] == "";
    }
  }

  lemma PaddingIsNoSymbol()
    ensures SextetOf('=') == None
  {
  }

  /** Line breaks are ignored wherever they are. */
  lemma {:induction false} BreaksAreIgnored(a: string, c: char, b: string)
    requires c == '\r' || c == '\n'
    ensures Decode64(a + [c] + b) == Decode64(a + b)
  {
    hide DecodeGroups;
    BreakDrops(a, c, b);
  }

  lemma {:induction false} BreakDrops(a: string, c: char, b: string)
    requires c == '\r' || c == '\n'
    ensures WithoutLineBreaks(a + [c] + b) == WithoutLineBreaks(a + b)
  {
    if a == "" {
      assert a + [c] + b == [c] + b && ([c] + b)[1..] == b && a + b == b;
    } else {
      BreakDrops(a[1..], c, b);
      assert (a + [c] + b)[1..] == a[1..] + [c] + b && (a + b)[1..] == a[1..] + b;
    }
  }

  /** The bits that padding makes superfluous do not matter. */
  lemma SuperfluousBits(a: Sextet, b: Sextet, c: Sextet)
    ensures DecodeGroups([Symbol(a), Symbol(b), '=', '=']) == Some([a * 4 + b / 16])
    ensures DecodeGroups([Symbol(a), Symbol(b), Symbol(c), '=']) == Some([a * 4 + b / 16, b % 16 * 16 + c / 4])
  {
    hide DecodeGroups, Symbol;
    PaddedGroup(a, b, c);
    PaddedTwice(a, b);
  }

  lemma PaddedTwice(a: Sextet, b: Sextet)
    ensures DecodeGroups([Symbol(a), Symbol(b), '=', '=']) == Some([a * 4 + b / 16])
  {
    hide Symbol, SextetOf;
    SymbolRoundTrip(a);
    SymbolRoundTrip(b);
  }
}
