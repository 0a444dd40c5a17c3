/**
 The handshakes that are refused: requests of another method or without one of the headers, with the code that is
 answered (RFC 6455 section 4.2.1), and responses with another status or without one of the headers (section 4.1).
 */
module WsRefusals {
  import opened Bytes
  import opened Http
  import opened Numbers
  import opened WsHandshake
  import W = WsReceiver

  /** The elements without the one at k. */
  function Without<T>(s: seq<T>, k: nat): (t: seq<T>)
    requires k < |s|
    ensures |t| == |s| - 1
  {
    s[..k] + s[k + 1..]
  }

  /** Lines with line ends behind them, and then an empty one. */
  function TextOf(lines: seq<string>): string
  {
    Unlines(lines) + "\r\n"
  }

  // ----- Headers -----

  lemma {:induction false} NotFound(headers: seq<Header>, key: string)
    requires forall i :: 0 <= i < |headers| ==> headers[i].key != key
    ensures Lookup(headers, key) == None
  {
    if headers != [] {
      NotFound(headers[1..], key);
    }
  }

  /** Taking away the only header of a name takes away what is found by it, and nothing else. */
  lemma {:induction false} LookupWithout(headers: seq<Header>, k: nat, key: string)
    requires k < |headers|
    requires forall i :: 0 <= i < |headers| && i != k ==> headers[i].key != headers[k].key
    ensures Lookup(Without(headers, k), key) == if headers[k].key == key then None else Lookup(headers, key)
  {
    if k == 0 {
      assert Without(headers, k) == headers[1..];
      if headers[0].key == key {
        NotFound(headers[1..], key);
      }
    } else {
      LookupWithout(headers[1..], k - 1, key);
      assert Without(headers, k)[1..] == Without(headers[1..], k - 1);
      assert headers[1..][k - 1] == headers[k];
    }
  }

  lemma HeadersWithout(lines: seq<string>, k: nat)
    requires k < |lines|
    ensures HeadersOf(Without(lines, k)) == Without(HeadersOf(lines), k)
  {
    hide HeaderOf;
  }

  lemma NamesDiffer(headers: seq<Header>, host: string, key: string, list: Option<string>, k: nat)
    requires AreRequestHeaders(headers, host, key, list) && k < |headers|
    ensures forall i :: 0 <= i < |headers| && i != k ==> headers[i].key != headers[k].key
  {
    NameRead(Host);
    NameRead(Connection);
    NameRead(Upgrade);
    NameRead(Version);
    NameRead(Key);
    NameRead(Protocol);
    hide Name, LowerName, ToLower, WEBSOCKET;
    assert headers[0].key == LowerName(Host) && headers[1].key == LowerName(Connection);
    assert headers[2].key == LowerName(Upgrade) && headers[3].key == LowerName(Version);
    assert headers[4].key == LowerName(Key) && (|headers| == 6 ==> headers[5].key == LowerName(Protocol));
  }

  /** What the server finds when the header at k is missing. */
  lemma RequestLookupsWithout(headers: seq<Header>, host: string, key: string, list: Option<string>, k: nat)
    requires AreRequestHeaders(headers, host, key, list) && k < |headers|
    ensures var rest := Without(headers, k);
            && Lookup(rest, LowerName(Host)) == (if k == 0 then None else Some(host))
            && Lookup(rest, LowerName(Upgrade)) == (if k == 2 then None else Some(WEBSOCKET))
            && Lookup(rest, LowerName(Key)) == (if k == 4 then None else Some(key))
            && Lookup(rest, LowerName(Protocol)) == (if k == 5 then None else list)
  {
    NamesDiffer(headers, host, key, list, k);
    RequestLookups(headers, host, key, list);
    NameRead(Host);
    NameRead(Connection);
    NameRead(Upgrade);
    NameRead(Version);
    NameRead(Key);
    NameRead(Protocol);
    hide Name, LowerName, ToLower, WEBSOCKET, Lookup, Without;
    LookupWithout(headers, k, LowerName(Host));
    LookupWithout(headers, k, LowerName(Upgrade));
    LookupWithout(headers, k, LowerName(Key));
    LookupWithout(headers, k, LowerName(Protocol));
  }

  // ----- Requests -----

  /** What the server makes of a request that is complete. */
  lemma ReadRequest(s: string, lines: seq<string>)
    requires IsHttpRequest(s) && ParseLines(s) == Lines(lines, |s|) && lines != []
    ensures ParseRequest(s) == RequestOf(lines[0], HeadersOf(lines[1..]), |s|)
  {
    hide IsHttpRequest, ParseLines, HeadersOf, RequestOf;
  }

  lemma DecidedWithout(line: string, headers: seq<Header>, length: nat, host: string, key: string,
                       list: Option<string>, k: nat)
    requires Word(line).0 == "GET" && AreRequestHeaders(headers, host, key, list) && k < |headers|
    ensures RequestOf(line, Without(headers, k), length) ==
            match k
            case 0 => Failed(Some(400))
            case 2 => Failed(Some(426))
            case 4 => Failed(Some(400))
            case _ =>
              Parsed(length, Opening(Word(Word(line).1).0, host, key,
                                     if list == None || k == 5 then None else Some(Explode(list.value, ','))))
  {
    hide WEBSOCKET, LowerName, ToLower, Explode, Lookup, Word, AreRequestHeaders, Without;
    RequestLookupsWithout(headers, host, key, list, k);
    FixedValues();
  }

  /**
   A client's request from which one header line is missing: without the host or the key it is answered with 400, and
   without the upgrade with 426; the others are not needed.
   */
  lemma RequestWithout(host: string, path: string, key: string, protocols: seq<string>, k: nat)
    requires Sendable(host, path, key, protocols)
    requires 1 <= k < |RequestLines(host, path, key, protocols)|
    ensures var s := TextOf(Without(RequestLines(host, path, key, protocols), k));
            ParseRequest(s) ==
            match k
            case 1 => Failed(Some(400))
            case 3 => Failed(Some(426))
            case 5 => Failed(Some(400))
            case _ => Parsed(|s|, Opening(path, host, key, if protocols == [] || k == 6 then None else Some(protocols)))
  {
    hide *;
    var lines := RequestLines(host, path, key, protocols);
    var list := if protocols == [] then None else Some(Implode(protocols, ','));
    RequestLinesAre(host, path, key, protocols);
    RequestLinesAreLines(host, path, key, protocols);
    RequestHeaders(host, path, key, protocols);
    SendableParts(host, path, key, protocols);
    RequestLineRead(path);
    ExplodeOfImplode(protocols, ',');
    LinesWithout(lines, k);
    TextIsRead(Without(lines, k), path);
    DecidedWithout(lines[0], HeadersOf(lines[1..]), |TextOf(Without(lines, k))|, host, key, list, k - 1);
  }

  lemma LinesWithout(lines: seq<string>, k: nat)
    requires 1 <= k < |lines|
    requires forall i :: 0 <= i < |lines| ==> IsLine(lines[i])
    ensures var rest := Without(lines, k);
            && rest != [] && rest[0] == lines[0] && (forall i :: 0 <= i < |rest| ==> IsLine(rest[i]))
            && k - 1 < |HeadersOf(lines[1..])| && HeadersOf(rest[1..]) == Without(HeadersOf(lines[1..]), k - 1)
  {
    hide IsLine, HeadersOf;
    assert Without(lines, k)[1..] == Without(lines[1..], k - 1);
    HeadersWithout(lines[1..], k - 1);
  }

  lemma TextIsRead(lines: seq<string>, path: string)
    requires lines != [] && lines[0] == RequestLine(path)
    requires forall i :: 0 <= i < |lines| ==> IsLine(lines[i])
    ensures ParseRequest(TextOf(lines)) == RequestOf(lines[0], HeadersOf(lines[1..]), |TextOf(lines)|)
  {
    var s := TextOf(lines);
    hide IsLine, ParseRequest, RequestOf, HeadersOf, RequestLine;
    LinesOfUnlines(lines);
    RequestStart(path, lines);
    RequestIsHttp(s, s[4..]);
    ReadRequest(s, lines);
  }

  /** A POST request is answered with 405, whatever its headers are. */
  lemma PostRefused(rest: string, headers: seq<string>)
    requires '\n' !in rest && forall i :: 0 <= i < |headers| ==> IsLine(headers[i])
    ensures ParseRequest(TextOf(["POST " + rest] + headers)) == Failed(Some(405))
  {
    var line := "POST " + rest;
    var lines := [line] + headers;
    var s := TextOf(lines);
    PostLine(rest);
    PostIsHttp(s, rest, headers);
    hide IsLine, Word, ParseRequest, IsHttpRequest, HeadersOf;
    LinesOfUnlines(lines);
    ReadRequest(s, lines);
  }

  lemma PostLine(rest: string)
    requires '\n' !in rest
    ensures IsLine("POST " + rest) && Word("POST " + rest).0 == "POST"
  {
    assert "POST " + rest == "POST" + ([' '] + rest);
    WordRead("POST", [' '] + rest);
  }

  lemma PostIsHttp(s: string, rest: string, headers: seq<string>)
    requires s == TextOf(["POST " + rest] + headers)
    ensures IsHttpRequest(s)
  {
    var lines := ["POST " + rest] + headers;
    assert lines[0] == "POST " + rest;
    assert s[..5] == lines[0][..5] == "POST ";
    assert s[0] == 'P' && s[1] == 'O' && s[2] == 'S' && s[3] == 'T' && s[4] == ' ';
    assert MethodEnds(s, 0, 4);
    IsHttpRequestExactly(s, 0);
  }

  /** What does not begin like a request is answered with 400. */
  lemma NoRequestRefused(s: string)
    requires s != [] && !('A' <= s[0] <= 'Z')
    ensures ParseRequest(s) == Failed(Some(400))
  {}

  /** A refused request is answered with the code, and the connection fails. */
  lemma RefusalIsAnswered(p: W.Peer, chunk: seq<byte>, code: int)
    requires p.state == W.Connecting
    requires ParseRequest(Text(p.buffer + chunk)) == Failed(Some(code))
    ensures W.PrefixStable(ServerParser())
    ensures var q := W.Incoming(p, chunk, ServerParser());
            q.state == W.Failed && q.events == p.events + [W.ErrorSent(code), W.StateChanged(W.Failed)]
  {
    ParsersAreStable("");
    hide ParseRequest, W.PrefixStable;
    assert ServerParser()(p.buffer + chunk) == W.Rejected(Some(code));
  }

  // ----- Responses -----

  function StatusLine(code: nat, reason: string): string
  {
    "HTTP/1.1 " + Decimal(code) + [' '] + reason
  }

  /** The code of a status line is read back. */
  lemma StatusIsRead(code: nat, reason: string)
    requires '\n' !in reason
    ensures StatusCode(StatusLine(code, reason)) == code && IsLine(StatusLine(code, reason))
  {
    var digits := Decimal(code) + ([' '] + reason);
    DecimalIsDigits(code);
    DecimalRead(code, [' '] + reason);
    hide Decimal;
    assert IsDigit(digits[0]) by { assert digits[0] == Decimal(code)[0]; }
    assert StatusLine(code, reason) == "HTTP/1.1" + ([' '] + digits);
    StatusParts();
    WordRead("HTTP/1.1", [' '] + digits);
    assert ([' '] + digits)[1..] == digits;
    assert SkipWhite([' '] + digits) == SkipWhite(digits) == digits;
  }

  /** A response with another status is refused, whatever its headers are. */
  lemma OtherStatusRefused(code: nat, reason: string, headers: seq<string>, expected: string)
    requires '\n' !in reason && forall i :: 0 <= i < |headers| ==> IsLine(headers[i])
    requires code != 101
    ensures ParseResponse(TextOf([StatusLine(code, reason)] + headers), expected) == Failed(None)
  {
    var lines := [StatusLine(code, reason)] + headers;
    StatusIsRead(code, reason);
    hide StatusLine, StatusCode, IsLine, HeadersOf, ParseLines;
    LinesOfUnlines(lines);
  }

  /** The server's response without one of its header lines: only the upgrade and the accept key are needed. */
  lemma ResponseWithout(acceptKey: string, k: nat)
    requires IsValue(acceptKey) && 1 <= k < 5
    ensures |ResponseLines(acceptKey)| == 5
    ensures var s := TextOf(Without(ResponseLines(acceptKey), k));
            ParseResponse(s, acceptKey) == if k == 3 || k == 4 then Failed(None) else Parsed(|s|, ())
  {
    var lines := ResponseLines(acceptKey);
    StatusRead();
    FixedValues();
    hide STATUS_LINE, WEBSOCKET, UPGRADE, SERVER, Line, Name, LowerName, HeaderOf, ToLower, IsLine, Lookup,
         IsValue, StatusCode, ParseLines, Unlines, HeadersOf, Without;
    HeaderLineRead(Server, SERVER);
    HeaderLineRead(Connection, UPGRADE);
    HeaderLineRead(Upgrade, WEBSOCKET);
    HeaderLineRead(Accept, acceptKey);
    LinesWithout(lines, k);
    LinesOfUnlines(Without(lines, k));
    ResponseLookups(lines, acceptKey, k - 1);
  }

  lemma ResponseLookups(lines: seq<string>, acceptKey: string, k: nat)
    requires |lines| == 5 && k < 4
    requires HeaderOf(lines[1]).key == LowerName(Server) && HeaderOf(lines[2]).key == LowerName(Connection)
    requires HeaderOf(lines[3]) == Header(LowerName(Upgrade), WEBSOCKET)
    requires HeaderOf(lines[4]) == Header(LowerName(Accept), acceptKey)
    ensures var headers := HeadersOf(lines[1..]);
            && |headers| == 4
            && Lookup(Without(headers, k), LowerName(Upgrade)) == (if k == 2 then None else Some(WEBSOCKET))
            && Lookup(Without(headers, k), LowerName(Accept)) == (if k == 3 then None else Some(acceptKey))
  {
    NameRead(Server);
    NameRead(Connection);
    NameRead(Upgrade);
    NameRead(Accept);
    hide WEBSOCKET, Name, LowerName, HeaderOf, ToLower, Lookup, Without;
    var headers := HeadersOf(lines[1..]);
    assert forall i :: 0 <= i < 4 ==> headers[i] == HeaderOf(lines[i + 1]);
    LookupAt(headers, 2, LowerName(Upgrade));
    LookupAt(headers, 3, LowerName(Accept));
    LookupWithout(headers, k, LowerName(Upgrade));
    LookupWithout(headers, k, LowerName(Accept));
  }
}
