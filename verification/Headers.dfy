/** The header parser of the outbox producer: texts of the form "key:base64;key:base64". */
module Headers {
  import opened Sequences
  import opened Wrappers
  import opened PercentEncoding
  import opened TextSplit
  import opened Base64

  type HeaderMap = map<string, seq<Octet>>

  /** White space in the sense of Go's `unicode.IsSpace`. */
  predicate IsSpace(c: char) {
    var v := c as int;
    9 <= v <= 13 || v == 0x20 || v == 0x85 || v == 0xA0 || v == 0x1680 || 0x2000 <= v <= 0x200A ||
    v == 0x2028 || v == 0x2029 || v == 0x202F || v == 0x205F || v == 0x3000
  }

  function TrimLeft(s: string): (r: string)
    ensures |r| <= |s| && r == s[|s| - |r|..]
    ensures r != "" ==> !IsSpace(r[0])
    ensures forall i :: 0 <= i < |s| - |r| ==> IsSpace(s[i])
  {
    if s == "" || !IsSpace(s[0]) then s else TrimLeft(s[1..])
  }

  function TrimRight(s: string): (r: string)
    ensures |r| <= |s| && r == s[..|r|]
    ensures r != "" ==> !IsSpace(r[|r| - 1])
    ensures forall i :: |r| <= i < |s| ==> IsSpace(s[i])
  {
    if s == "" || !IsSpace(s[|s| - 1]) then s else TrimRight(s[..|s| - 1])
  }

  function TrimSpace(s: string): (r: string)
    ensures r != "" ==> !IsSpace(r[0])
  {
    TrimRight(TrimLeft(s))
  }

  /** The key and, if it decodes, the value of one token. */
  function DecodeBase64(encodedHeader: string): (string, Option<seq<Octet>>) {
    var i := IndexOf(encodedHeader, ":", 0);
    if i == |encodedHeader| then ("", None)
    else (encodedHeader[..i], Decode64(encodedHeader[i + 1..]))
  }

  /** What one token adds: nothing if it is blank or malformed. */
  function TokenMap(token: string): HeaderMap {
    var t := TrimSpace(token);
    if t == "" then map[]
    else
      var (key, value) := DecodeBase64(t);
      if key != "" && value.Some? then map[key := value.value] else map[]
  }

  function TokensMap(tokens: seq<string>): HeaderMap {
    if tokens == [] then map[] else TokensMap(tokens[..|tokens| - 1]) + TokenMap(tokens[|tokens| - 1])
  }

  function DecodeHeaders(text: string): HeaderMap {
    TokensMap(Split(text, ";"))
  }

  method DecodeHeadersFromBase64(text: string) returns (headers: HeaderMap)
    ensures headers == DecodeHeaders(text)
  {
    hide TokensMap, Decode64, TrimSpace;
    headers := map[];
    NoTokens();
    if TrimSpace(text) == "" {
      BlankText(text);
      return;
    }
    var tokens := Split(text, ";");
    for i := 0 to |tokens|
      invariant headers == TokensMap(tokens[..i])
    {
      NextToken(tokens, i);
      var token := TrimSpace(tokens[i]);
      if token == "" {
        continue;
      }
      var (key, value) := DecodeBase64(token);
      if key != "" && value.Some? {
        headers := headers[key := value.value];
      }
    }
    assert tokens[..|tokens|] == tokens;
  }

  lemma NoTokens()
    ensures TokensMap([]) == map[]
  {
  }

  lemma NextToken(tokens: seq<string>, i: nat)
    requires i < |tokens|
    ensures tokens[..0] == []
    ensures TokensMap(tokens[..i + 1]) == TokensMap(tokens[..i]) + TokenMap(tokens[i])
  {
    hide TokenMap;
    assert tokens[..i + 1][..i] == tokens[..i];
  }

  // ----- the early return for blank texts is no special case

  lemma TrimBlank(s: string)
    requires TrimSpace(s) == ""
    ensures forall i :: 0 <= i < |s| ==> IsSpace(s[i])
  {
  }

  lemma BlankText(text: string)
    requires TrimSpace(text) == ""
    ensures DecodeHeaders(text) == map[]
  {
    TrimBlank(text);
    forall k | 0 <= k < |text| ensures !OccursAt(text, ";", k) {
      assert IsSpace(text[k]);
      NotThere(text, ";", k);
    }
    IndexUnique(text, ";", 0, |text|);
    OneToken(text);
  }

  lemma OneToken(token: string)
    ensures TokensMap([token]) == TokenMap(token)
  {
  }

  // ----- compositionality

  lemma {:induction false} TokensSnoc(tokens: seq<string>, last: string)
    ensures TokensMap(tokens + [last]) == TokensMap(tokens) + TokenMap(last)
  {
    hide TokenMap;
    assert (tokens + [last])[..|tokens|] == tokens;
  }

  lemma {:induction false} TokensMapConcat(a: seq<string>, b: seq<string>)
    ensures TokensMap(a + b) == TokensMap(a) + TokensMap(b)
  {
    hide TokensMap, TokenMap;
    if b == [] {
      NoTokens();
      assert a + b == a;
    } else {
      var init, last := b[..|b| - 1], b[|b| - 1];
      TokensMapConcat(a, init);
      TokensSnoc(a + init, last);
      TokensSnoc(init, last);
      assert a + b == (a + init) + [last] && b == init + [last];
    }
  }

  /** Decoding is compositional: joining two texts overrides the headers of the first by those of the
      second, so malformed tokens affect nothing else. */
  lemma DecodeIsCompositional(s: string, t: string)
    ensures DecodeHeaders(s + ";" + t) == DecodeHeaders(s) + DecodeHeaders(t)
  {
    hide Split, TokensMap;
    SplitConcat(s, ';', t);
    TokensMapConcat(Split(s, ";"), Split(t, ";"));
  }

  lemma {:induction false} DecodeThree(s: string, x: string, t: string)
    ensures DecodeHeaders(s + ";" + x + ";" + t) == DecodeHeaders(s) + DecodeHeaders(x) + DecodeHeaders(t)
    ensures DecodeHeaders(s + ";" + t) == DecodeHeaders(s) + DecodeHeaders(t)
  {
    hide DecodeHeaders;
    DecodeIsCompositional(s, t);
    DecodeIsCompositional(s + ";" + x, t);
    DecodeIsCompositional(s, x);
  }

  ghost predicate Ignored(x: string) {
    forall s, t :: DecodeHeaders(s + ";" + x + ";" + t) == DecodeHeaders(s + ";" + t)
  }

  /** A piece in the middle affects nothing, whatever surrounds it, exactly if it holds no header itself. */
  lemma {:induction false} IgnoredIff(x: string)
    ensures Ignored(x) <==> DecodeHeaders(x) == map[]
  {
    hide DecodeHeaders;
    if DecodeHeaders(x) == map[] {
      forall s, t ensures DecodeHeaders(s + ";" + x + ";" + t) == DecodeHeaders(s + ";" + t) {
        DecodeThree(s, x, t);
      }
    } else {
      DecodeThree("", x, "");
      BlankText("");
    }
  }

  // ----- the printer, and which keys it can print

  type Header = (string, seq<Octet>)

  function PrintHeader(h: Header): string {
    h.0 + ":" + Encode64(h.1)
  }

  function PrintTexts(hs: seq<Header>): (r: seq<string>)
    ensures |r| == |hs| && forall i :: 0 <= i < |r| ==> r[i] == PrintHeader(hs[i])
  {
    seq(|hs|, i requires 0 <= i < |hs| => PrintHeader(hs[i]))
  }

  function PrintHeaders(hs: seq<Header>): string {
    Join(PrintTexts(hs), ";")
  }

  function HeadersOf(hs: seq<Header>): HeaderMap {
    if hs == [] then map[] else HeadersOf(hs[..|hs| - 1])[hs[|hs| - 1].0 := hs[|hs| - 1].1]
  }

  /** A key that survives: not empty, without ':' and ';', and not beginning with white space. */
  predicate GoodKey(k: string) {
    k != "" && ':' !in k && ';' !in k && !IsSpace(k[0])
  }

  lemma TrimKeeps(s: string)
    requires s != "" && !IsSpace(s[0]) && !IsSpace(s[|s| - 1])
    ensures TrimSpace(s) == s
  {
  }

  lemma PrintedToken(h: Header)
    requires GoodKey(h.0)
    ensures ';' !in PrintHeader(h)
    ensures TokenMap(PrintHeader(h)) == map[h.0 := h.1]
  {
    hide Decode64, Encode64, IndexOf, TrimSpace, IsSpace, TokenMap, SextetOf;
    var k, e := h.0, Encode64(h.1);
    var t := PrintHeader(h);
    EncodedIsPrintable(h.1);
    PrintableFacts(e);
    assert t[0] == k[0] && t == k + ":" + e;
    assert t[|t| - 1] == if e != "" then e[|e| - 1] else ':';
    TrimKeeps(t);
    IndexAfterPart(k, ":", e);
    assert t[..|k|] == k && t[|k| + 1..] == e;
    Base64RoundTrip(h.1);
    assert DecodeBase64(t) == (k, Some(h.1));
    TokenOf(t, k, h.1);
  }

  lemma PrintableFacts(e: string)
    requires forall i :: 0 <= i < |e| ==> Printable(e[i])
    ensures ';' !in e && (e != "" ==> !IsSpace(e[|e| - 1])) && !IsSpace(':')
  {
  }

  lemma TokenOf(t: string, k: string, v: seq<Octet>)
    requires TrimSpace(t) == t && t != "" && k != "" && DecodeBase64(t) == (k, Some(v))
    ensures TokenMap(t) == map[k := v]
  {
  }

  lemma {:induction false} PrintedTokens(hs: seq<Header>)
    requires forall i :: 0 <= i < |hs| ==> GoodKey(hs[i].0)
    ensures TokensMap(PrintTexts(hs)) == HeadersOf(hs)
  {
    hide TokensMap, TokenMap, PrintHeader, GoodKey;
    if hs == [] {
      NoTokens();
      assert PrintTexts(hs) == [];
    } else {
      var init, last := hs[..|hs| - 1], hs[|hs| - 1];
      PrintedTokens(init);
      PrintedToken(last);
      assert PrintTexts(hs) == PrintTexts(init) + [PrintHeader(last)];
      TokensSnoc(PrintTexts(init), PrintHeader(last));
    }
  }

  /** Printing headers with good keys, and decoding the text, gives the headers back. */
  lemma {:induction false} HeadersRoundTrip(hs: seq<Header>)
    requires forall i :: 0 <= i < |hs| ==> GoodKey(hs[i].0)
    ensures DecodeHeaders(PrintHeaders(hs)) == HeadersOf(hs)
  {
    hide TokensMap, TokenMap, PrintHeader;
    if hs == [] {
      BlankText("");
    } else {
      forall i | 0 <= i < |hs| ensures ';' !in PrintTexts(hs)[i] {
        PrintedToken(hs[i]);
      }
      SplitJoin(PrintTexts(hs), ";");
      PrintedTokens(hs);
    }
  }

  // ----- conversely, only good keys are ever decoded

  lemma {:induction false} SplitParts(s: string, c: char)
    ensures forall i :: 0 <= i < |Split(s, [c])| ==> c !in Split(s, [c])[i]
    decreases |s|
  {
    var i := IndexOf(s, [c], 0);
    forall k | 0 <= k < i ensures s[k] != c {
      assert !OccursAt(s, [c], k) && s[k..k + 1] == [s[k]];
    }
    assert c !in s[..i];
    if i == |s| {
      assert s[..i] == s;
    } else {
      SplitParts(s[i + 1..], c);
    }
  }

  lemma TokenKeyIsGood(token: string)
    requires ';' !in token
    ensures forall k :: k in TokenMap(token) ==> GoodKey(k)
  {
    hide TrimSpace, Decode64, IndexOf, IsSpace;
    var t := TrimSpace(token);
    TrimIsPart(token);
    if t != "" {
      FirstPart(t);
    }
  }

  lemma TrimIsPart(s: string)
    ensures forall c :: c in TrimSpace(s) ==> c in s
  {
  }

  lemma {:induction false} FirstPart(t: string)
    ensures var i := IndexOf(t, ":", 0); ':' !in t[..i] && forall c :: c in t[..i] ==> c in t
  {
    var i := IndexOf(t, ":", 0);
    forall k | 0 <= k < i ensures t[k] != ':' {
      assert !OccursAt(t, ":", k) && t[k..k + 1] == [t[k]];
    }
  }

  lemma {:induction false} TokensKeysAreGood(tokens: seq<string>)
    requires forall i :: 0 <= i < |tokens| ==> ';' !in tokens[i]
    ensures forall k :: k in TokensMap(tokens) ==> GoodKey(k)
  {
    hide TokenMap, GoodKey;
    if tokens != [] {
      TokensKeysAreGood(tokens[..|tokens| - 1]);
      TokenKeyIsGood(tokens[|tokens| - 1]);
    }
  }

  lemma {:induction false} HeadersOfKeys(hs: seq<Header>)
    ensures forall i :: 0 <= i < |hs| ==> hs[i].0 in HeadersOf(hs)
  {
    if hs != [] {
      HeadersOfKeys(hs[..|hs| - 1]);
    }
  }

  /** Headers survive printing and decoding exactly if all their keys are good. */
  lemma {:induction false} HeadersSurviveIff(hs: seq<Header>)
    ensures DecodeHeaders(PrintHeaders(hs)) == HeadersOf(hs) <==> forall i :: 0 <= i < |hs| ==> GoodKey(hs[i].0)
  {
    hide TokensMap, GoodKey, PrintHeaders, HeadersOf;
    if forall i :: 0 <= i < |hs| ==> GoodKey(hs[i].0) {
      HeadersRoundTrip(hs);
    }
    var text := PrintHeaders(hs);
    SplitParts(text, ';');
    TokensKeysAreGood(Split(text, ";"));
    if DecodeHeaders(text) == HeadersOf(hs) {
      HeadersOfKeys(hs);
      forall i | 0 <= i < |hs| ensures GoodKey(hs[i].0) {
        assert hs[i].0 in DecodeHeaders(text);
      }
    }
  }

  // ----- what a token holds

  predicate Blank(s: string) {
    forall i :: 0 <= i < |s| ==> IsSpace(s[i])
  }

  /** Among the ASCII characters: tab, line feed, vertical tab, form feed, carriage return and space. */
  lemma AsciiSpace(c: char)
    requires (c as int) < 128
    ensures IsSpace(c) <==> c as int in {9, 10, 11, 12, 13, 32}
  {
  }

  /** The token is a key, a colon and a value in base64, with white space around. */
  ghost predicate HoldsHeader(token: string, key: string, value: seq<Octet>) {
    exists a, e, b :: token == a + (key + ":" + e) + b && Spells(a, key, e, b, value)
  }

  predicate Spells(a: string, key: string, e: string, b: string, value: seq<Octet>) {
    && Blank(a) && Blank(b)
    && key != "" && ':' !in key && !IsSpace(key[0])
    && (e == "" || !IsSpace(e[|e| - 1])) && Decode64(e) == Some(value)
  }

  lemma {:induction false} TrimLeftOff(a: string, s: string)
    requires Blank(a) && (s == "" || !IsSpace(s[0]))
    ensures TrimLeft(a + s) == s
  {
    hide IsSpace;
    if a == "" {
      assert a + s == s;
    } else {
      TrimLeftOff(a[1..], s);
      assert (a + s)[1..] == a[1..] + s;
    }
  }

  lemma {:induction false} TrimRightOff(s: string, b: string)
    requires Blank(b) && (s == "" || !IsSpace(s[|s| - 1]))
    ensures TrimRight(s + b) == s
  {
    hide IsSpace;
    if b == "" {
      assert s + b == s;
    } else {
      TrimRightOff(s, b[..|b| - 1]);
      assert (s + b)[..|s + b| - 1] == s + b[..|b| - 1];
    }
  }

  lemma {:induction false} TrimOff(a: string, t: string, b: string)
    requires Blank(a) && Blank(b) && t != "" && !IsSpace(t[0]) && !IsSpace(t[|t| - 1])
    ensures TrimSpace(a + t + b) == t
  {
    hide TrimLeft, TrimRight;
    assert a + t + b == a + (t + b);
    TrimLeftOff(a, t + b);
    TrimRightOff(t, b);
  }

  lemma TrimParts(s: string)
    ensures exists a, b :: Blank(a) && Blank(b) && s == a + TrimSpace(s) + b
    ensures TrimSpace(s) != "" ==> !IsSpace(TrimSpace(s)[|TrimSpace(s)| - 1])
  {
    hide TrimLeft, TrimRight, IsSpace;
    var l := TrimLeft(s);
    var t := TrimRight(l);
    var a, b := s[..|s| - |l|], l[|t|..];
    assert Blank(a) && Blank(b) && s == a + t + b;
  }

  /** A token holds at most one header, and exactly the one it spells; any other token holds none. */
  lemma {:induction false} TokenHoldsIff(token: string, key: string, value: seq<Octet>)
    ensures key in TokenMap(token) && TokenMap(token)[key] == value <==> HoldsHeader(token, key, value)
    ensures |TokenMap(token)| <= 1
  {
    hide TrimSpace, Decode64, IndexOf, IsSpace;
    if key in TokenMap(token) && TokenMap(token)[key] == value {
      TokenSpells(token, key, value);
    }
    if a, e, b :| token == a + (key + ":" + e) + b && Spells(a, key, e, b, value) {
      SpelledToken(a, key, e, b, value);
    }
  }

  lemma {:induction false} TokenSpells(token: string, key: string, value: seq<Octet>)
    requires key in TokenMap(token) && TokenMap(token)[key] == value
    ensures HoldsHeader(token, key, value)
  {
    hide TrimSpace, Decode64, IndexOf, IsSpace;
    var t := TrimSpace(token);
    var i := IndexOf(t, ":", 0);
    TrimParts(token);
    FirstPart(t);
    var a, b :| Blank(a) && Blank(b) && token == a + t + b;
    ColonAt(t, i);
    var e := t[i + 1..];
    assert t == key + ":" + e;
    assert Spells(a, key, e, b, value);
  }

  lemma {:induction false} ColonAt(t: string, i: nat)
    requires i == IndexOf(t, ":", 0) < |t|
    ensures t[i] == ':' && t == t[..i] + ":" + t[i + 1..]
  {
    hide IndexOf;
    assert t[i..i + 1] == ":";
    assert t == t[..i] + t[i..i + 1] + t[i + 1..];
  }

  lemma {:induction false} SpelledToken(a: string, key: string, e: string, b: string, value: seq<Octet>)
    requires Spells(a, key, e, b, value)
    ensures TokenMap(a + (key + ":" + e) + b) == map[key := value]
  {
    hide TrimSpace, Decode64, IndexOf;
    var t := key + ":" + e;
    assert t[0] == key[0] && t[|t| - 1] == if e != "" then e[|e| - 1] else ':';
    TrimOff(a, t, b);
    IndexAfterPart(key, ":", e);
    assert t[..|key|] == key && t[|key| + 1..] == e;
  }
}
