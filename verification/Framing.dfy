/** The request loop of the test server: framing requests out of whatever pieces the socket delivers. */
module Framing {
  import opened Sequences
  import opened Wrappers
  import opened PercentEncoding
  import opened TextSplit

  type Bytes = seq<Octet>

  /** The blank line that ends a header. */
  const TERMINATOR: Bytes := [13, 10, 13, 10]

  const SPACE: Bytes := [0x20]
  const SILENT: Bytes := [0x2F, 0x73, 0x69, 0x6C, 0x65, 0x6E, 0x74]
  const CLOSE: Bytes := [0x2F, 0x63, 0x6C, 0x6F, 0x73, 0x65]

  /** Why a connection ends: the peer closed it, a header had no readable path, or the path asked for it. */
  datatype Ending = Eof | Failed | Silenced | Closed

  /** What a header makes the server do: go on (`None`), or end the connection. `decodes` says which byte
      strings are valid text. */
  function Verdict(header: Bytes, number: nat, decodes: Bytes -> bool): (r: Option<Ending>)
    ensures r != Some(Eof)
  {
    var fields := Split(header, SPACE);
    if |fields| < 2 || !decodes(fields[1]) then Some(Failed)
    else if SILENT <= fields[1] && number > 1 then Some(Silenced)
    else if CLOSE <= fields[1] then Some(Closed)
    else None
  }

  // ----- the verdict in terms of the header's bytes

  function Ascii(s: string): Bytes
    requires forall i :: 0 <= i < |s| ==> s[i] < 128 as char
  {
    seq(|s|, i requires 0 <= i < |s| => s[i] as int)
  }

  /** The path stands after the first blank, and reaches to the next one or to the end. */
  predicate PathBetween(header: Bytes, m: Bytes, path: Bytes, rest: Bytes) {
    && header == m + [0x20] + path + rest && 0x20 !in m && 0x20 !in path
    && (rest == [] || rest[0] == 0x20)
  }

  /** The header has this path, and it is valid text. */
  ghost predicate Requests(header: Bytes, path: Bytes, decodes: Bytes -> bool) {
    decodes(path) && exists m, rest :: PathBetween(header, m, path, rest)
  }

  ghost predicate Fails(header: Bytes, decodes: Bytes -> bool) {
    forall path :: !Requests(header, path, decodes)
  }

  /** Only a connection that is used again goes silent. */
  ghost predicate GoesSilent(header: Bytes, number: nat, decodes: Bytes -> bool) {
    number > 1 && exists path :: Requests(header, path, decodes) && Ascii("/silent") <= path
  }

  ghost predicate Closes(header: Bytes, decodes: Bytes -> bool) {
    exists path :: Requests(header, path, decodes) && Ascii("/close") <= path
  }

  ghost predicate GoesOn(header: Bytes, number: nat, decodes: Bytes -> bool) {
    exists path :: Requests(header, path, decodes) && !(number > 1 && Ascii("/silent") <= path)
        && !(Ascii("/close") <= path)
  }

  lemma {:induction false} FieldsOf(header: Bytes, m: Bytes, path: Bytes, rest: Bytes)
    requires PathBetween(header, m, path, rest)
    ensures |Split(header, SPACE)| >= 2 && Split(header, SPACE)[1] == path
  {
    hide Split;
    SplitFirst(m, 0x20, path + rest);
    assert header == m + [0x20] + (path + rest);
    if rest == [] {
      assert path + rest == path;
      SplitFirst(path, 0x20, []);
    } else {
      SplitFirst(path, 0x20, rest[1..]);
      assert path + rest == path + [0x20] + rest[1..];
    }
  }

  lemma {:induction false} PathOfFields(header: Bytes)
    requires |Split(header, SPACE)| >= 2
    ensures exists m, rest :: PathBetween(header, m, Split(header, SPACE)[1], rest)
  {
    hide Split, Join;
    var fields := Split(header, SPACE);
    PartsLack(header, 0x20);
    JoinSplit(header, SPACE);
    var m, path := fields[0], fields[1];
    JoinCons(m, fields[1..], SPACE);
    assert [m] + fields[1..] == fields;
    if |fields| == 2 {
      JoinOne(path);
      assert fields[1..] == [path];
      assert PathBetween(header, m, path, []);
    } else {
      JoinCons(path, fields[2..], SPACE);
      assert [path] + fields[2..] == fields[1..];
      assert PathBetween(header, m, path, SPACE + Join(fields[2..], SPACE));
    }
  }

  lemma JoinOne(part: Bytes)
    ensures Join([part], SPACE) == part
  {
  }

  lemma Names()
    ensures SILENT == Ascii("/silent") && CLOSE == Ascii("/close")
  {
  }

  /** The only path a header can have. */
  lemma {:induction false} OnlyPath(header: Bytes, path: Bytes, decodes: Bytes -> bool)
    ensures Requests(header, path, decodes) <==>
            decodes(path) && |Split(header, SPACE)| >= 2 && Split(header, SPACE)[1] == path
  {
    hide Split;
    if m, rest :| PathBetween(header, m, path, rest) {
      FieldsOf(header, m, path, rest);
    }
    if |Split(header, SPACE)| >= 2 {
      PathOfFields(header);
    }
  }

  lemma {:induction false} VerdictMeans(header: Bytes, number: nat, decodes: Bytes -> bool)
    ensures Verdict(header, number, decodes) == Some(Failed) <==> Fails(header, decodes)
    ensures Verdict(header, number, decodes) == Some(Silenced) <==> GoesSilent(header, number, decodes)
    ensures Verdict(header, number, decodes) == Some(Closed) <==> Closes(header, decodes)
    ensures Verdict(header, number, decodes) == None <==> GoesOn(header, number, decodes)
  {
    hide Split, Requests, Ascii;
    Names();
    forall path ensures Requests(header, path, decodes) <==>
        decodes(path) && |Split(header, SPACE)| >= 2 && Split(header, SPACE)[1] == path
    {
      OnlyPath(header, path, decodes);
    }
    assert SILENT[1] != CLOSE[1];
  }

  lemma FirstIsNotSilenced(header: Bytes, number: nat, decodes: Bytes -> bool)
    ensures GoesSilent(header, number, decodes) ==> number > 1
  {
  }

  /** What the headers made the server do: all but the last one let it go on, and the last one, if the peer did not
      close the connection, ended it for the given reason. */
  ghost predicate Obeyed(headers: seq<Bytes>, ending: Ending, decodes: Bytes -> bool) {
    && (forall i :: 0 <= i < |headers| - 1 ==> GoesOn(headers[i], i + 1, decodes))
    && (ending == Eof && headers != [] ==> GoesOn(headers[|headers| - 1], |headers|, decodes))
    && (ending != Eof ==> headers != [] && EndsWith(headers[|headers| - 1], |headers|, ending, decodes))
  }

  ghost predicate EndsWith(header: Bytes, number: nat, ending: Ending, decodes: Bytes -> bool) {
    match ending
    case Eof => false
    case Failed => Fails(header, decodes)
    case Silenced => GoesSilent(header, number, decodes)
    case Closed => Closes(header, decodes)
  }

  // ----- the loop

  datatype Service = Service(headers: seq<Bytes>, ending: Ending)

  /** The reference meaning: the headers a server extracts that sees all bytes at once, and why it stops. */
  function Serve(bytes: Bytes, number: nat, decodes: Bytes -> bool): Service
    decreases |bytes|
  {
    var i := IndexOf(bytes, TERMINATOR, 0);
    if i == |bytes| then Service([], Eof)
    else
      var header := bytes[..i];
      match Verdict(header, number + 1, decodes)
      case Some(ending) => Service([header], ending)
      case None =>
        var rest := Serve(bytes[i + 4..], number + 1, decodes);
        Service([header] + rest.headers, rest.ending)
  }

  function Concat(chunks: seq<Bytes>): Bytes {
    if chunks == [] then [] else chunks[0] + Concat(chunks[1..])
  }

  /** Headers with their terminators, as they were received. */
  function Framed(headers: seq<Bytes>): Bytes {
    if headers == [] then [] else Framed(headers[..|headers| - 1]) + headers[|headers| - 1] + TERMINATOR
  }

  /** The terminator does not occur. */
  predicate Clean(bytes: Bytes) {
    IndexOf(bytes, TERMINATOR, 0) == |bytes|
  }

  /** The server's loop over the pieces it receives. The empty receive that tells of the peer's closing is the
      end of `chunks`. Returns the headers, why it stopped, what was left pending and how many pieces it read.
      The headers and the reason depend on the bytes alone, not on how they were cut into pieces. */
  method Handle(chunks: seq<Bytes>, decodes: Bytes -> bool)
    returns (headers: seq<Bytes>, ending: Ending, pending: Bytes, received: nat)
    ensures Service(headers, ending) == Serve(Concat(chunks), 0, decodes)
    ensures received <= |chunks| && Framed(headers) + pending == Concat(chunks[..received])
    ensures ending == Eof ==> received == |chunks| && Clean(pending)
    ensures forall h :: h in headers ==> Clean(h)
    ensures Obeyed(headers, ending, decodes) && (ending == Silenced ==> |headers| > 1)
  {
    hide Serve, Verdict, IndexOf, Framed, Concat, Clean, GoesOn, Fails, GoesSilent, Closes;
    pending, headers, received := [], [], 0;
    ghost var all := Serve(Concat(chunks), 0, decodes);
    HandleStart(chunks);
    while true
      invariant received <= |chunks| && Framed(headers) + pending == Concat(chunks[..received])
      invariant var rest := Serve(pending + Concat(chunks[received..]), |headers|, decodes);
                all.headers == headers + rest.headers && all.ending == rest.ending
      invariant forall h :: h in headers ==> Clean(h)
      invariant forall i :: 0 <= i < |headers| ==> GoesOn(headers[i], i + 1, decodes)
      decreases |pending + Concat(chunks[received..])|
    {
      var received' := received;
      pending, received' := Fill(chunks, pending, received);
      ReceivedMore(chunks, received, received');
      received := received';
      var i := IndexOf(pending, TERMINATOR, 0);
      CleanIs(pending);
      if i == |pending| {
        Nothing(pending, chunks, |headers|, decodes);
        return headers, Eof, pending, received;
      }
      ServeStep(pending, Concat(chunks[received..]), |headers|, decodes);
      var header := pending[..i];
      FrameStep(headers, header, pending);
      HeaderIsClean(pending);
      headers := headers + [header];
      pending := pending[i + 4..];
      var verdict := Verdict(header, |headers|, decodes);
      VerdictMeans(header, |headers|, decodes);
      FirstIsNotSilenced(header, |headers|, decodes);
      if verdict.Some? {
        return headers, verdict.value, pending, received;
      }
    }
  }

  /** The inner loop: receive until a whole header is pending, or the peer closes. */
  method Fill(chunks: seq<Bytes>, pending: Bytes, received: nat) returns (pending': Bytes, received': nat)
    requires received <= |chunks|
    ensures received <= received' <= |chunks| && pending' == pending + Concat(chunks[received..received'])
    ensures pending' + Concat(chunks[received'..]) == pending + Concat(chunks[received..])
    ensures IndexOf(pending', TERMINATOR, 0) == |pending'| ==> received' == |chunks|
  {
    pending', received' := pending, received;
    assert chunks[received..received] == [];
    while IndexOf(pending', TERMINATOR, 0) == |pending'|
      invariant received <= received' <= |chunks| && pending' == pending + Concat(chunks[received..received'])
      decreases |chunks| - received'
    {
      if received' == |chunks| {
        break;
      }
      ConcatSnoc(chunks, received, received');
      pending' := pending' + chunks[received'];
      received' := received' + 1;
    }
    ConcatSplit(chunks[received..], received' - received);
    assert chunks[received..][..received' - received] == chunks[received..received'];
    assert chunks[received..][received' - received..] == chunks[received'..];
  }

  lemma {:induction false} ConcatSplit(chunks: seq<Bytes>, k: nat)
    requires k <= |chunks|
    ensures Concat(chunks) == Concat(chunks[..k]) + Concat(chunks[k..])
  {
    if k == 0 {
      assert chunks[0..] == chunks;
    } else {
      ConcatSplit(chunks[1..], k - 1);
      assert chunks[..k][1..] == chunks[1..][..k - 1] && chunks[1..][k - 1..] == chunks[k..];
    }
  }

  lemma ConcatSnoc(chunks: seq<Bytes>, a: nat, b: nat)
    requires a <= b < |chunks|
    ensures Concat(chunks[a..b + 1]) == Concat(chunks[a..b]) + chunks[b]
  {
    var part := chunks[a..b + 1];
    ConcatSplit(part, b - a);
    assert part[..b - a] == chunks[a..b] && part[b - a..] == [chunks[b]];
    assert Concat([chunks[b]]) == chunks[b] + [];
  }

  lemma {:induction false} HandleStart(chunks: seq<Bytes>)
    ensures [] + Concat(chunks[0..]) == Concat(chunks) && Framed([]) + [] == Concat(chunks[..0])
  {
  }

  lemma {:induction false} CleanIs(bytes: Bytes)
    ensures Clean(bytes) <==> IndexOf(bytes, TERMINATOR, 0) == |bytes|
  {
  }

  lemma ReceivedMore(chunks: seq<Bytes>, a: nat, b: nat)
    requires a <= b <= |chunks|
    ensures Concat(chunks[..b]) == Concat(chunks[..a]) + Concat(chunks[a..b])
  {
    ConcatSplit(chunks[..b], a);
    assert chunks[..b][..a] == chunks[..a] && chunks[..b][a..] == chunks[a..b];
  }

  lemma {:induction false} Nothing(pending: Bytes, chunks: seq<Bytes>, number: nat, decodes: Bytes -> bool)
    requires IndexOf(pending, TERMINATOR, 0) == |pending|
    ensures Serve(pending + Concat(chunks[|chunks|..]), number, decodes) == Service([], Eof)
  {
    assert pending + Concat(chunks[|chunks|..]) == pending;
  }

  /** The first terminator stays the first one, whatever else arrives. */
  lemma {:induction false} FirstStaysFirst(bytes: Bytes, more: Bytes)
    requires IndexOf(bytes, TERMINATOR, 0) < |bytes|
    ensures IndexOf(bytes + more, TERMINATOR, 0) == IndexOf(bytes, TERMINATOR, 0)
  {
    var i, u := IndexOf(bytes, TERMINATOR, 0), bytes + more;
    forall k | 0 <= k < i ensures !OccursAt(u, TERMINATOR, k) {
      assert !OccursAt(bytes, TERMINATOR, k);
      assert u[k..k + 4] == bytes[k..k + 4];
    }
    assert u[i..i + 4] == bytes[i..i + 4];
    IndexUnique(u, TERMINATOR, 0, i);
  }

  lemma {:induction false} ServeStep(bytes: Bytes, more: Bytes, number: nat, decodes: Bytes -> bool)
    requires IndexOf(bytes, TERMINATOR, 0) < |bytes|
    ensures var i := IndexOf(bytes, TERMINATOR, 0);
            i + 4 <= |bytes| &&
            Serve(bytes + more, number, decodes) ==
              match Verdict(bytes[..i], number + 1, decodes)
              case Some(ending) => Service([bytes[..i]], ending)
              case None =>
                var rest := Serve(bytes[i + 4..] + more, number + 1, decodes);
                Service([bytes[..i]] + rest.headers, rest.ending)
  {
    hide Verdict, IndexOf;
    var i := IndexOf(bytes, TERMINATOR, 0);
    FirstStaysFirst(bytes, more);
    assert (bytes + more)[..i] == bytes[..i] && (bytes + more)[i + 4..] == bytes[i + 4..] + more;
  }

  lemma {:induction false} FrameStep(headers: seq<Bytes>, header: Bytes, pending: Bytes)
    requires IndexOf(pending, TERMINATOR, 0) < |pending| && header == pending[..IndexOf(pending, TERMINATOR, 0)]
    ensures |header| + 4 <= |pending|
    ensures Framed(headers + [header]) + pending[|header| + 4..] == Framed(headers) + pending
  {
    hide IndexOf;
    var rest := pending[|header| + 4..];
    assert pending[|header|..|header| + 4] == TERMINATOR;
    assert pending == header + TERMINATOR + rest;
    assert (headers + [header])[..|headers|] == headers;
    Regroup(Framed(headers), header, TERMINATOR, rest);
  }

  lemma Regroup<T>(a: seq<T>, b: seq<T>, c: seq<T>, d: seq<T>)
    ensures (a + b + c) + d == a + (b + c + d)
  {
  }

  lemma {:induction false} HeaderIsClean(bytes: Bytes)
    ensures Clean(bytes[..IndexOf(bytes, TERMINATOR, 0)])
  {
    var i := IndexOf(bytes, TERMINATOR, 0);
    var h := bytes[..i];
    forall k | 0 <= k < |h| ensures !OccursAt(h, TERMINATOR, k) {
      assert !OccursAt(bytes, TERMINATOR, k);
      if k + 4 <= |h| {
        assert h[k..k + 4] == bytes[k..k + 4];
      }
    }
    IndexUnique(h, TERMINATOR, 0, |h|);
  }
}
