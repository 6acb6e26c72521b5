/** The cookie plugin in its default mode: writing a cookie, and reading one or all of them back. */
module Cookies {
  import opened Wrappers
  import opened PercentEncoding
  import opened TextSplit

  /** `Thrown` where decoding a cookie's name throws. */
  datatype Outcome<+T> = Thrown | Returned(value: T)

  type Cookie = (string, string)

  /** The name and value part of what is assigned to `document.cookie`. */
  function Stringify(key: string, value: string): string {
    Encode(key) + "=" + Encode(value)
  }

  function Replace(s: string, a: char, b: char): (r: string)
    ensures |r| == |s| && forall i :: 0 <= i < |s| ==> r[i] == if s[i] == a then b else s[i]
  {
    seq(|s|, i requires 0 <= i < |s| => if s[i] == a then b else s[i])
  }

  /** Replaces every `\` followed by `c` by `c`. */
  function Unescape(s: string, c: char): string {
    if |s| < 2 then s
    else if s[0] == '\\' && s[1] == c then [c] + Unescape(s[2..], c)
    else [s[0]] + Unescape(s[1..], c)
  }

  /** A quoted value loses its first and last character and its backslashes. */
  function Unquote(s: string): string {
    if s != "" && s[0] == '"' then Unescape(Unescape(if |s| == 1 then "" else s[1..|s| - 1], '"'), '\\') else s
  }

  /** `None` where the value cannot be decoded. */
  function ParseCookieValue(s: string): Option<string> {
    Decode(Replace(Unquote(s), '+', ' '))
  }

  function CookieTexts(jar: string): seq<string> {
    if jar == "" then [] else Split(jar, "; ")
  }

  /** The text before the first `=`, and everything after it. */
  function NamePart(text: string): string {
    Split(text, "=")[0]
  }

  function ValuePart(text: string): string {
    Join(Split(text, "=")[1..], "=")
  }

  /** The first cookie of the given name, from index `i` on. */
  function ReadOne(texts: seq<string>, i: nat, key: string): Outcome<Option<string>>
    requires i <= |texts|
    decreases |texts| - i
  {
    if i == |texts| then Returned(None)
    else
      match Decode(NamePart(texts[i]))
      case None => Thrown
      case Some(name) =>
        if name == key then Returned(ParseCookieValue(ValuePart(texts[i]))) else ReadOne(texts, i + 1, key)
  }

  /** All cookies that can be decoded, added to `result` from index `i` on. */
  function ReadAll(texts: seq<string>, i: nat, result: map<string, string>): Outcome<map<string, string>>
    requires i <= |texts|
    decreases |texts| - i
  {
    if i == |texts| then Returned(result)
    else
      match Decode(NamePart(texts[i]))
      case None => Thrown
      case Some(name) =>
        match ParseCookieValue(ValuePart(texts[i]))
        case None => ReadAll(texts, i + 1, result)
        case Some(value) => ReadAll(texts, i + 1, result[name := value])
  }

  /** The loop for a given key. */
  method ReadCookie(jar: string, key: string) returns (r: Outcome<Option<string>>)
    requires key != ""
    ensures r == ReadOne(CookieTexts(jar), 0, key)
    ensures FirstIs(CookieTexts(jar), key, r)
  {
    var cookies := if jar != "" then Split(jar, "; ") else [];
    ReadOneIsFirst(cookies, 0, key);
    for i := 0 to |cookies|
      invariant ReadOne(cookies, i, key) == ReadOne(cookies, 0, key)
    {
      var parts := Split(cookies[i], "=");
      var name := Decode(parts[0]);
      if name.None? {
        return Thrown;
      }
      var cookie := Join(parts[1..], "=");
      if name.value == key {
        return Returned(ParseCookieValue(cookie));
      }
    }
    return Returned(None);
  }

  /** The loop without a key. */
  method ReadCookies(jar: string) returns (r: Outcome<map<string, string>>)
    ensures r == ReadAll(CookieTexts(jar), 0, map[])
    ensures LastAre(CookieTexts(jar), r)
  {
    var result: map<string, string> := map[];
    var cookies := if jar != "" then Split(jar, "; ") else [];
    ReadAllIsLast(cookies, 0, map[]);
    for i := 0 to |cookies|
      invariant ReadAll(cookies, i, result) == ReadAll(cookies, 0, map[])
    {
      var parts := Split(cookies[i], "=");
      var name := Decode(parts[0]);
      if name.None? {
        return Thrown;
      }
      var cookie := ParseCookieValue(Join(parts[1..], "="));
      if cookie.Some? {
        result := result[name.value := cookie.value];
      }
    }
    return Returned(result);
  }

  // ----- what reading gives for any cookies

  function NameOf(text: string): Option<string> {
    Decode(NamePart(text))
  }

  function ValueOf(text: string): Option<string> {
    ParseCookieValue(ValuePart(text))
  }

  /** The value of the first cookie of the name, which is no value if it cannot be decoded; an exception if a name
      before it cannot be. */
  ghost predicate FirstIs(texts: seq<string>, key: string, r: Outcome<Option<string>>) {
    exists k :: 0 <= k <= |texts| && StopsAt(texts, key, k, r)
  }

  predicate StopsAt(texts: seq<string>, key: string, k: nat, r: Outcome<Option<string>>)
    requires k <= |texts|
  {
    && (forall j :: 0 <= j < k ==> NameOf(texts[j]).Some? && NameOf(texts[j]) != Some(key))
    && (k == |texts| ==> r == Returned(None))
    && (k < |texts| ==> NameOf(texts[k]) == None || NameOf(texts[k]) == Some(key))
    && (k < |texts| && NameOf(texts[k]) == None ==> r == Thrown)
    && (k < |texts| && NameOf(texts[k]) == Some(key) ==> r == Returned(ValueOf(texts[k])))
  }

  lemma {:induction false} ReadOneIsFirst(texts: seq<string>, i: nat, key: string)
    requires i <= |texts|
    requires forall j :: 0 <= j < i ==> NameOf(texts[j]).Some? && NameOf(texts[j]) != Some(key)
    ensures FirstIs(texts, key, ReadOne(texts, i, key))
    decreases |texts| - i
  {
    hide NamePart, ValuePart, Decode, ParseCookieValue;
    if i == |texts| || NameOf(texts[i]) == None || NameOf(texts[i]) == Some(key) {
      assert StopsAt(texts, key, i, ReadOne(texts, i, key));
    } else {
      ReadOneIsFirst(texts, i + 1, key);
    }
  }

  /** An exception if any name cannot be decoded, and otherwise the last value of every name, where cookies whose
      value cannot be decoded are skipped. */
  ghost predicate LastAre(texts: seq<string>, r: Outcome<map<string, string>>) {
    && (r == Thrown <==> exists i :: 0 <= i < |texts| && NameOf(texts[i]) == None)
    && (r.Returned? ==> LastIn(texts, |texts|, r.value))
  }

  /** The last values among the first `n` cookies. */
  ghost predicate LastIn(texts: seq<string>, n: nat, m: map<string, string>)
    requires n <= |texts|
  {
    && (forall i :: 0 <= i < n && Readable(texts[i]) ==> NameOf(texts[i]).value in m)
    && (forall k :: k in m ==> HasLast(texts, n, k, m[k]))
  }

  ghost predicate HasLast(texts: seq<string>, n: nat, key: string, value: string)
    requires n <= |texts|
  {
    exists i :: IsLast(texts, n, i, key, value)
  }

  predicate Readable(text: string) {
    NameOf(text).Some? && ValueOf(text).Some?
  }

  predicate IsLast(texts: seq<string>, n: nat, i: int, key: string, value: string)
    requires n <= |texts|
  {
    && 0 <= i < n && NameOf(texts[i]) == Some(key) && ValueOf(texts[i]) == Some(value)
    && forall j :: i < j < n && Readable(texts[j]) ==> NameOf(texts[j]) != Some(key)
  }

  lemma {:induction false} ReadAllIsLast(texts: seq<string>, i: nat, result: map<string, string>)
    requires i <= |texts| && (forall j :: 0 <= j < i ==> NameOf(texts[j]).Some?) && LastIn(texts, i, result)
    ensures LastAre(texts, ReadAll(texts, i, result))
    decreases |texts| - i
  {
    hide NamePart, ValuePart, Decode, ParseCookieValue, LastIn;
    if i < |texts| && NameOf(texts[i]).Some? {
      LastNext(texts, i, result);
      if ValueOf(texts[i]).Some? {
        ReadAllIsLast(texts, i + 1, result[NameOf(texts[i]).value := ValueOf(texts[i]).value]);
      } else {
        ReadAllIsLast(texts, i + 1, result);
      }
    }
  }

  lemma LastNext(texts: seq<string>, n: nat, m: map<string, string>)
    requires n < |texts| && LastIn(texts, n, m) && NameOf(texts[n]).Some?
    ensures LastIn(texts, n + 1, if ValueOf(texts[n]).Some? then m[NameOf(texts[n]).value := ValueOf(texts[n]).value]
              else m)
  {
    hide NameOf, ValueOf;
    var name, value := NameOf(texts[n]).value, ValueOf(texts[n]);
    var m' := if value.Some? then m[name := value.value] else m;
    forall k | k in m' ensures HasLast(texts, n + 1, k, m'[k]) {
      if value.Some? && k == name {
        assert IsLast(texts, n + 1, n, k, m'[k]);
      } else {
        assert HasLast(texts, n, k, m[k]);
        var i :| IsLast(texts, n, i, k, m[k]);
        assert IsLast(texts, n + 1, i, k, m'[k]);
      }
    }
  }

  /** A cookie is cut at its first `=`; without one, all of it is the name. */
  lemma {:induction false} CutsAtFirst(name: string, value: string)
    requires '=' !in name
    ensures NamePart(name + "=" + value) == name && ValuePart(name + "=" + value) == value
    ensures NamePart(name) == name && ValuePart(name) == ""
  {
    hide Split, Join;
    SplitFirst(name, '=', value);
    JoinSplit(value, "=");
    assert ([name] + Split(value, "="))[1..] == Split(value, "=") && [name][1..] == [];
    JoinNothing();
  }

  lemma JoinNothing()
    ensures Join<char>([], "=") == []
  {
  }

  /** The parts between pluses, decoded. */
  function Decoded(parts: seq<string>): (r: Option<seq<string>>)
    ensures r.Some? <==> forall i :: 0 <= i < |parts| ==> Decode(parts[i]).Some?
    ensures r.Some? ==> |r.value| == |parts| && forall i :: 0 <= i < |parts| ==> Decode(parts[i]) == Some(r.value[i])
  {
    if parts == [] then Some([])
    else
      match Decode(parts[0])
      case None => None
      case Some(v) => (match Decoded(parts[1..])
                       case None => None
                       case Some(vs) => Some([v] + vs))
  }

  /** The parts joined by blanks, if all of them can be decoded. */
  function Blanked(parts: seq<string>): Option<string> {
    match Decoded(parts)
    case None => None
    case Some(values) => Some(Join(values, " "))
  }

  /** Every plus that a server wrote is read as a blank, and what is between them is decoded. */
  lemma {:induction false} PlusIsBlank(parts: seq<string>)
    requires parts != [] && forall i :: 0 <= i < |parts| ==> '+' !in parts[i]
    ensures Decode(Replace(Join(parts, "+"), '+', ' ')) == Blanked(parts)
  {
    hide Decode;
    ReplaceJoin(parts);
    DecodeBlanks(parts);
  }

  lemma {:induction false} ReplaceJoin(parts: seq<string>)
    requires forall i :: 0 <= i < |parts| ==> '+' !in parts[i]
    ensures Replace(Join(parts, "+"), '+', ' ') == Join(parts, " ")
  {
    if |parts| > 1 {
      ReplaceJoin(parts[1..]);
      var a, b := parts[0], Join(parts[1..], "+");
      assert Replace(a + "+" + b, '+', ' ') == a + " " + Replace(b, '+', ' ');
    }
  }

  lemma {:induction false} DecodeBlanks(parts: seq<string>)
    requires parts != []
    ensures Decode(Join(parts, " ")) == Blanked(parts)
  {
    hide Decode;
    if |parts| == 1 {
      assert parts[1..] == [] && Decoded(parts[1..]) == Some([]);
    } else {
      DecodeBlanks(parts[1..]);
      DecodeAround(parts[0], ' ', Join(parts[1..], " "));
      if Decoded(parts).Some? {
        assert Decoded(parts).value[1..] == Decoded(parts[1..]).value;
      }
    }
  }

  /** A plain value: what is between its pluses is decoded, and joined by blanks. */
  lemma {:induction false} ParsesPlain(v: string)
    requires v == "" || v[0] != '"'
    ensures ParseCookieValue(v) == Blanked(Split(v, "+"))
  {
    hide Decode, Replace, Blanked;
    JoinSplit(v, "+");
    PartsLack(v, '+');
    PlusIsBlank(Split(v, "+"));
  }

  // ----- quoted values

  /** How a server quotes a value (RFC 2068): backslashes and quotes get a backslash. */
  function Escaped(v: string): string {
    if v == "" then ""
    else (if v[0] == '\\' || v[0] == '"' then ['\\', v[0]] else [v[0]]) + Escaped(v[1..])
  }

  function Quoted(v: string): string {
    "\"" + Escaped(v) + "\""
  }

  /** With only the backslashes doubled. */
  function Doubled(v: string): string {
    if v == "" then "" else (if v[0] == '\\' then "\\\\" else [v[0]]) + Doubled(v[1..])
  }

  lemma {:induction false} UnescapeQuotes(v: string)
    ensures Unescape(Escaped(v), '"') == Doubled(v)
    ensures Escaped(v) != "" ==> Escaped(v)[0] != '"'
  {
    if v != "" {
      var rest := Escaped(v[1..]);
      UnescapeQuotes(v[1..]);
      if v[0] == '"' {
        UnescapePair('"', rest);
      } else if v[0] == '\\' {
        assert Escaped(v) == ['\\'] + (['\\'] + rest);
        UnescapeOther('\\', ['\\'] + rest, '"');
        UnescapeOther('\\', rest, '"');
        assert ['\\'] + (['\\'] + Doubled(v[1..])) == "\\\\" + Doubled(v[1..]);
      } else {
        UnescapeOther(v[0], rest, '"');
      }
    }
  }

  lemma {:induction false} UnescapeBackslashes(v: string)
    ensures Unescape(Doubled(v), '\\') == v
  {
    if v != "" {
      UnescapeBackslashes(v[1..]);
      if v[0] == '\\' {
        UnescapePair('\\', Doubled(v[1..]));
      } else {
        UnescapeOther(v[0], Doubled(v[1..]), '\\');
      }
    }
  }

  lemma {:induction false} UnescapePair(c: char, rest: string)
    ensures Unescape(['\\', c] + rest, c) == [c] + Unescape(rest, c)
  {
    assert (['\\', c] + rest)[2..] == rest;
  }

  lemma {:induction false} UnescapeOther(x: char, rest: string, c: char)
    requires x != '\\' || rest == "" || rest[0] != c
    ensures Unescape([x] + rest, c) == [x] + Unescape(rest, c)
  {
    assert ([x] + rest)[1..] == rest;
  }

  /** Removing the quotes of any value gives the value, which is then read like a plain one. */
  lemma {:induction false} ParsesQuoted(v: string)
    ensures Unquote(Quoted(v)) == v
    ensures ParseCookieValue(Quoted(v)) == Blanked(Split(v, "+"))
  {
    hide Decode, Replace, Blanked, Unescape, Escaped, Doubled, Split, Join;
    var q := Quoted(v);
    assert q[1..|q| - 1] == Escaped(v);
    UnescapeQuotes(v);
    UnescapeBackslashes(v);
    JoinSplit(v, "+");
    PartsLack(v, '+');
    SplitNotEmpty(v);
    PlusIsBlank(Split(v, "+"));
  }

  lemma {:induction false} SplitNotEmpty(v: string)
    ensures Split(v, "+") != []
  {
  }

  // ----- round trips

  function Texts(cookies: seq<Cookie>): (r: seq<string>)
    ensures |r| == |cookies| && forall i :: 0 <= i < |r| ==> r[i] == Stringify(cookies[i].0, cookies[i].1)
  {
    seq(|cookies|, i requires 0 <= i < |cookies| => Stringify(cookies[i].0, cookies[i].1))
  }

  /** The cookies of a page as the browser gives them back (section 4.2.1 of RFC 6265). */
  function Jar(cookies: seq<Cookie>): string {
    Join(Texts(cookies), "; ")
  }

  lemma {:induction false} SafeText(s: string)
    ensures forall c :: c in Encode(s) ==> Safe(c)
  {
    EncodedIsSafe(s);
  }

  lemma {:induction false} SplitsCookie(key: string, value: string)
    ensures NamePart(Stringify(key, value)) == Encode(key)
    ensures ValuePart(Stringify(key, value)) == Encode(value)
  {
    var parts := [Encode(key), Encode(value)];
    SafeText(key);
    SafeText(value);
    assert parts[1..] == [Encode(value)];
    assert Join(parts, "=") == Stringify(key, value);
    SplitJoin(parts, "=");
  }

  lemma {:induction false} ParsesValue(value: string)
    ensures ParseCookieValue(Encode(value)) == Some(value)
  {
    var s := Encode(value);
    SafeText(value);
    if s != "" {
      assert s[0] in s;
    }
    assert Replace(s, '+', ' ') == s by {
      assert forall i :: 0 <= i < |s| ==> s[i] in s;
    }
    DecodeEncode(value);
  }

  lemma TextsOfJar(cookies: seq<Cookie>)
    ensures CookieTexts(Jar(cookies)) == Texts(cookies)
  {
    var texts := Texts(cookies);
    if cookies != [] {
      forall i | 0 <= i < |texts| ensures ';' !in texts[i] && texts[i] != "" {
        SafeText(cookies[i].0);
        SafeText(cookies[i].1);
        assert texts[i] == Encode(cookies[i].0) + "=" + Encode(cookies[i].1);
      }
      SplitJoin(texts, "; ");
      if |texts| == 1 {
        assert Jar(cookies) == texts[0];
      } else {
        assert Jar(cookies) == texts[0] + "; " + Join(texts[1..], "; ");
      }
    }
  }

  /** The value of the first cookie of a name. */
  function FirstValue(cookies: seq<Cookie>, i: nat, key: string): Option<string>
    requires i <= |cookies|
    decreases |cookies| - i
  {
    if i == |cookies| then None
    else if cookies[i].0 == key then Some(cookies[i].1)
    else FirstValue(cookies, i + 1, key)
  }

  function MapOf(cookies: seq<Cookie>): map<string, string> {
    if cookies == [] then map[]
    else MapOf(cookies[..|cookies| - 1])[cookies[|cookies| - 1].0 := cookies[|cookies| - 1].1]
  }

  lemma {:induction false} ReadOneFrom(cookies: seq<Cookie>, i: nat, key: string)
    requires i <= |cookies|
    ensures ReadOne(Texts(cookies), i, key) == Returned(FirstValue(cookies, i, key))
    decreases |cookies| - i
  {
    hide ParseCookieValue, NamePart, ValuePart, Stringify, Encode, Decode;
    if i < |cookies| {
      SplitsCookie(cookies[i].0, cookies[i].1);
      DecodeEncode(cookies[i].0);
      ParsesValue(cookies[i].1);
      ReadOneFrom(cookies, i + 1, key);
    }
  }

  lemma {:induction false} ReadAllFrom(cookies: seq<Cookie>, i: nat)
    requires i <= |cookies|
    ensures ReadAll(Texts(cookies), i, MapOf(cookies[..i])) == Returned(MapOf(cookies))
    decreases |cookies| - i
  {
    hide ParseCookieValue, NamePart, ValuePart, Stringify, Encode, Decode;
    if i < |cookies| {
      SplitsCookie(cookies[i].0, cookies[i].1);
      DecodeEncode(cookies[i].0);
      ParsesValue(cookies[i].1);
      ReadAllFrom(cookies, i + 1);
      assert cookies[..i + 1][..i] == cookies[..i];
    } else {
      assert cookies[..i] == cookies;
    }
  }

  predicate DistinctNames(cookies: seq<Cookie>) {
    forall i, j :: 0 <= i < j < |cookies| ==> cookies[i].0 != cookies[j].0
  }

  lemma {:induction false} MapOfAt(cookies: seq<Cookie>)
    requires DistinctNames(cookies)
    ensures forall i :: 0 <= i < |cookies| ==>
              cookies[i].0 in MapOf(cookies) && MapOf(cookies)[cookies[i].0] == cookies[i].1
    ensures forall k :: k in MapOf(cookies) ==> exists i :: 0 <= i < |cookies| && cookies[i].0 == k
  {
    if cookies != [] {
      var init := cookies[..|cookies| - 1];
      MapOfAt(init);
      forall k | k in MapOf(cookies) ensures exists i :: 0 <= i < |cookies| && cookies[i].0 == k {
        if k in MapOf(init) {
          var i :| 0 <= i < |init| && init[i].0 == k;
          assert cookies[i].0 == k;
        } else {
          assert cookies[|cookies| - 1].0 == k;
        }
      }
    }
  }

  lemma {:induction false} FirstIsAny(cookies: seq<Cookie>, i: nat, j: nat)
    requires DistinctNames(cookies) && i <= j < |cookies|
    ensures FirstValue(cookies, i, cookies[j].0) == Some(cookies[j].1)
    decreases j - i
  {
    if i < j {
      FirstIsAny(cookies, i + 1, j);
    }
  }

  lemma {:induction false} FirstIsNone(cookies: seq<Cookie>, i: nat, key: string)
    requires i <= |cookies| && forall j :: i <= j < |cookies| ==> cookies[j].0 != key
    ensures FirstValue(cookies, i, key) == None
    decreases |cookies| - i
  {
    if i < |cookies| {
      FirstIsNone(cookies, i + 1, key);
    }
  }

  /** Cookies of distinct names, written in the default mode, are read back exactly: all of them as the
      map that was written, and one name as its value in that map. */
  lemma {:induction false} CookiesRoundTrip(cookies: seq<Cookie>, key: string)
    requires DistinctNames(cookies)
    ensures ReadAll(CookieTexts(Jar(cookies)), 0, map[]) == Returned(MapOf(cookies))
    ensures key != "" ==>
              ReadOne(CookieTexts(Jar(cookies)), 0, key) ==
              Returned(if key in MapOf(cookies) then Some(MapOf(cookies)[key]) else None)
  {
    hide ReadOne, ReadAll, Jar, CookieTexts, MapOf;
    TextsOfJar(cookies);
    ReadAllFrom(cookies, 0);
    EmptyMap(cookies);
    ReadOneFrom(cookies, 0, key);
    MapOfAt(cookies);
    if key in MapOf(cookies) {
      var j :| 0 <= j < |cookies| && cookies[j].0 == key;
      FirstIsAny(cookies, 0, j);
    } else {
      FirstIsNone(cookies, 0, key);
    }
  }

  lemma EmptyMap(cookies: seq<Cookie>)
    ensures MapOf(cookies[..0]) == map[]
  {
  }
}
