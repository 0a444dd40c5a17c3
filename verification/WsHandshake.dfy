/**
 The WebSocket opening handshake (RFC 6455 section 4). SHA-1 is a parameter; the random octets of the
 key are given.
 */
module WsHandshake {
  import opened Bytes
  import opened Http
  import opened Numbers
  import W = WsReceiver
  import E = WsEndToEnd

  // ----- Base 64 -----

  /** The table of the 64 characters. */
  function Symbol(n: int): (c: char)
    requires 0 <= n < 64
    ensures IsPlain(c)
  {
    if n < 26 then ('A' as int + n) as char
    else if n < 52 then ('a' as int + n - 26) as char
    else if n < 62 then ('0' as int + n - 52) as char
    else if n == 62 then '+'
    else '/'
  }

  predicate IsPlain(c: char)
  {
    'A' <= c <= 'Z' || 'a' <= c <= 'z' || '0' <= c <= '9' || c == '+' || c == '/' || c == '='
  }

  predicate AllPlain(s: string)
  {
    forall i :: 0 <= i < |s| ==> IsPlain(s[i])
  }

  /** The characters of three octets. */
  function Quantum(d0: byte, d1: byte, d2: byte): (s: string)
    ensures |s| == 4 && AllPlain(s)
  {
    [Symbol(d0 / 4), Symbol(d0 % 4 * 16 + d1 / 16), Symbol(d1 % 16 * 4 + d2 / 64), Symbol(d2 % 64)]
  }

  function Base64(data: seq<byte>): (s: string)
    ensures |s| == (|data| + 2) / 3 * 4
  {
    assert |data| >= 3 ==> (|data| + 2) / 3 == 1 + (|data| - 1) / 3;
    if data == [] then []
    else if |data| == 1 then Quantum(data[0], 0, 0)[..2] + ['=', '=']
    else if |data| == 2 then Quantum(data[0], data[1], 0)[..3] + ['=']
    else Quantum(data[0], data[1], data[2]) + Base64(data[3..])
  }

  lemma Base64Step(data: seq<byte>, i: nat, out: string)
    requires i + 3 <= |data|
    ensures out + Base64(data[i..]) == out + Quantum(data[i], data[i + 1], data[i + 2]) + Base64(data[i + 3..])
  {
    assert data[i..][3..] == data[i + 3..];
    hide Quantum;
    ConcatAssociative(out, Quantum(data[i], data[i + 1], data[i + 2]), Base64(data[i + 3..]));
  }

  method Base64Encode(data: seq<byte>) returns (out: string)
    ensures out == Base64(data)
  {
    hide AllPlain, Symbol;
    out := [];
    var i := 0;
    while |data| - i >= 3
      invariant 0 <= i <= |data|
      invariant Base64(data) == out + Base64(data[i..])
    {
      Base64Step(data, i, out);
      hide Base64;
      var d0, d1, d2 := data[i], data[i + 1], data[i + 2];
      out := out + [Symbol(d0 / 4), Symbol(d0 % 4 * 16 + d1 / 16), Symbol(d1 % 16 * 4 + d2 / 64), Symbol(d2 % 64)];
      i := i + 3;
    }
    var rest := Base64Rest(data[i..]);
    out := out + rest;
  }

  /** What is left behind the last three octets, with padding. */
  method Base64Rest(data: seq<byte>) returns (out: string)
    requires |data| < 3
    ensures out == Base64(data)
  {
    hide AllPlain, Symbol;
    out := [];
    if |data| != 0 {
      var d0 := data[0];
      out := out + [Symbol(d0 / 4)];
      if |data| == 1 {
        out := out + [Symbol(d0 % 4 * 16)] + "=";
      } else {
        var d1 := data[1];
        out := out + [Symbol(d0 % 4 * 16 + d1 / 16)] + [Symbol(d1 % 16 * 4)];
      }
      out := out + "=";
    }
  }

  /** The number of a character of the table (RFC 4648 section 4). */
  function Digit(c: char): (n: int)
    ensures 0 <= n < 64
  {
    if 'A' <= c <= 'Z' then c as int - 'A' as int
    else if 'a' <= c <= 'z' then c as int - 'a' as int + 26
    else if '0' <= c <= '9' then c as int - '0' as int + 52
    else if c == '+' then 62
    else 63
  }

  /** The octets of four characters, as many as the padding leaves. */
  function Octets(c0: char, c1: char, c2: char, c3: char): (data: seq<byte>)
  {
    var d0 := Digit(c0) * 4 + Digit(c1) / 16;
    var d1 := Digit(c1) % 16 * 16 + Digit(c2) / 4;
    var d2 := Digit(c2) % 4 * 64 + Digit(c3);
    if c2 == '=' then [d0] else if c3 == '=' then [d0, d1] else [d0, d1, d2]
  }

  /** What a reader of base 64 makes of a text. */
  function Unbase64(s: string): (data: seq<byte>)
  {
    if |s| < 4 then [] else Octets(s[0], s[1], s[2], s[3]) + Unbase64(s[4..])
  }

  lemma DigitOfSymbol(n: int)
    requires 0 <= n < 64
    ensures Digit(Symbol(n)) == n && Symbol(n) != '='
  {}

  lemma SixBits(d0: byte, d1: byte, d2: byte)
    ensures d0 / 4 * 4 + (d0 % 4 * 16 + d1 / 16) / 16 == d0
    ensures (d0 % 4 * 16 + d1 / 16) % 16 == d1 / 16
    ensures d1 / 16 * 16 + (d1 % 16 * 4 + d2 / 64) / 4 == d1
    ensures (d1 % 16 * 4 + d2 / 64) % 4 * 64 + d2 % 64 == d2
  {
    assert (d0 % 4 * 16 + d1 / 16) / 16 == d0 % 4 && (d1 % 16 * 4 + d2 / 64) / 4 == d1 % 16;
    assert (d1 % 16 * 4 + d2 / 64) % 4 == d2 / 64;
  }

  lemma OctetsOfQuantum(d0: byte, d1: byte, d2: byte)
    ensures var q := Quantum(d0, d1, d2);
            && Octets(q[0], q[1], q[2], q[3]) == [d0, d1, d2]
            && Octets(q[0], q[1], q[2], '=') == [d0, d1]
            && Octets(q[0], q[1], '=', '=') == [d0]
  {
    var n1, n2 := d0 % 4 * 16 + d1 / 16, d1 % 16 * 4 + d2 / 64;
    var q := Quantum(d0, d1, d2);
    SixBits(d0, d1, d2);
    DigitOfSymbol(d0 / 4);
    DigitOfSymbol(n1);
    DigitOfSymbol(n2);
    DigitOfSymbol(d2 % 64);
    assert q == [Symbol(d0 / 4), Symbol(n1), Symbol(n2), Symbol(d2 % 64)];
    hide Symbol, Digit, Quantum;
    assert Digit(q[0]) == d0 / 4 && Digit(q[1]) == n1 && Digit(q[2]) == n2 && Digit(q[3]) == d2 % 64;
    assert n1 / 16 == d0 % 4 && n1 % 16 == d1 / 16;
  }

  /** Any data is read back from its text. */
  lemma {:induction false} Base64RoundTrip(data: seq<byte>)
    ensures Unbase64(Base64(data)) == data
  {
    hide Quantum, Octets;
    if |data| == 1 {
      OctetsOfQuantum(data[0], 0, 0);
    } else if |data| == 2 {
      OctetsOfQuantum(data[0], data[1], 0);
    } else if data != [] {
      OctetsOfQuantum(data[0], data[1], data[2]);
      Base64RoundTrip(data[3..]);
      var q, rest := Quantum(data[0], data[1], data[2]), Base64(data[3..]);
      assert (q + rest)[4..] == rest && (q + rest)[..4] == q;
      assert [data[0], data[1], data[2]] + data[3..] == data;
    }
  }

  /** A text that can be the value of a header: nothing of it is lost, and it stays in its line. */
  predicate IsValue(s: string)
  {
    '\n' !in s && (s == [] || s[0] != ' ')
  }

  /** Base 64 text has no spaces and no line ends. */
  lemma {:induction false} Base64IsPlain(data: seq<byte>)
    ensures AllPlain(Base64(data))
  {
    if |data| >= 3 {
      Base64IsPlain(data[3..]);
      hide Quantum;
    } else {
      hide Symbol, Quantum;
    }
  }

  lemma Base64IsValue(data: seq<byte>)
    ensures IsValue(Base64(data))
  {
    Base64IsPlain(data);
    hide Base64;
  }

  // ----- The texts -----

  const GUID: string := "258EAFA5-E914-47DA-95CA-C5AB0DC85B11"

  type Hash = string -> seq<byte>

  function AcceptKey(key: string, sha1: Hash): string
  {
    Base64(sha1(key + GUID))
  }

  /** The headers of the handshake. */
  datatype Field = Host | Connection | Upgrade | Version | Key | Protocol | Server | Accept

  function Name(field: Field): string
  {
    match field
    case Host => "Host"
    case Connection => "Connection"
    case Upgrade => "Upgrade"
    case Version => "Sec-WebSocket-Version"
    case Key => "Sec-WebSocket-Key"
    case Protocol => "Sec-WebSocket-Protocol"
    case Server => "Server"
    case Accept => "Sec-WebSocket-Accept"
  }

  /** The name as it is looked up. */
  function LowerName(field: Field): string
  {
    match field
    case Host => "host"
    case Connection => "connection"
    case Upgrade => "upgrade"
    case Version => "sec-websocket-version"
    case Key => "sec-websocket-key"
    case Protocol => "sec-websocket-protocol"
    case Server => "server"
    case Accept => "sec-websocket-accept"
  }

  function Line(field: Field, value: string): string
  {
    Name(field) + ": " + value
  }

  const WEBSOCKET: string := "websocket"
  const UPGRADE: string := "upgrade"
  const VERSION_13: string := "13"
  const SERVER: string := "libdatachannel"
  const STATUS_LINE: string := "HTTP/1.1 101 Switching Protocols"

  function RequestLine(path: string): string
  {
    "GET " + path + " HTTP/1.1"
  }

  function RequestLines(host: string, path: string, key: string, protocols: seq<string>): seq<string>
  {
    [RequestLine(path), Line(Host, host), Line(Connection, UPGRADE), Line(Upgrade, WEBSOCKET),
     Line(Version, VERSION_13), Line(Key, key)] +
    if protocols == [] then [] else [Line(Protocol, Implode(protocols, ','))]
  }

  function ResponseLines(acceptKey: string): seq<string>
  {
    [STATUS_LINE, Line(Server, SERVER), Line(Connection, UPGRADE), Line(Upgrade, WEBSOCKET),
     Line(Accept, acceptKey)]
  }

  function Request(host: string, path: string, key: string, protocols: seq<string>): string
  {
    Unlines(RequestLines(host, path, key, protocols)) + "\r\n"
  }

  function Response(acceptKey: string): string
  {
    Unlines(ResponseLines(acceptKey)) + "\r\n"
  }

  // ----- Parsing -----

  /** Only a request error has a response code to send. */
  datatype Parsed<T> = Partial | Parsed(length: nat, value: T) | Failed(code: Option<int>)

  /** Without the header the protocols are left as they were. */
  datatype Opening = Opening(path: string, host: string, key: string, protocols: Option<seq<string>>)

  function RequestOf(line: string, headers: seq<Header>, length: nat): (r: Parsed<Opening>)
    ensures r != Partial && (r.Parsed? ==> r.length == length)
  {
    var (verb, afterVerb) := Word(line);
    var (path, _) := Word(afterVerb);
    if verb != "GET" then Failed(Some(405))
    else
      var host, upgrade := Lookup(headers, LowerName(Host)), Lookup(headers, LowerName(Upgrade));
      if host == None then Failed(Some(400))
      else if upgrade == None || ToLower(upgrade.value) != WEBSOCKET then Failed(Some(426))
      else
        var key, protocols := Lookup(headers, LowerName(Key)), Lookup(headers, LowerName(Protocol));
        if key == None then Failed(Some(400))
        else
          Parsed(length, Opening(path, host.value, key.value,
                                 if protocols == None then None else Some(Explode(protocols.value, ','))))
  }

  function ParseRequest(s: string): (r: Parsed<Opening>)
  {
    if !IsHttpRequest(s) then Failed(Some(400))
    else
      match ParseLines(s)
      case Unfinished => Partial
      case Lines(lines, length) =>
        if lines == [] then Failed(Some(400)) else RequestOf(lines[0], HeadersOf(lines[1..]), length)
  }

  /** The second word of the status line; a sign is allowed, and a negative number is taken modulo 2^32. */
  function StatusCode(line: string): int
  {
    var (_, rest) := Word(line);
    var s := SkipWhite(rest);
    if s != [] && s[0] == '-' then (TWO_TO_THE_32 - LeadingNumber(s[1..], 0)) % TWO_TO_THE_32
    else LeadingNumber(if s != [] && s[0] == '+' then s[1..] else s, 0)
  }

  function ResponseOf(line: string, headers: seq<Header>, length: nat, acceptKey: string): (r: Parsed<()>)
    ensures r != Partial && (r.Parsed? ==> r.length == length)
  {
    if StatusCode(line) != 101 then Failed(None)
    else
      var upgrade, accept := Lookup(headers, LowerName(Upgrade)), Lookup(headers, LowerName(Accept));
      if upgrade == None || ToLower(upgrade.value) != WEBSOCKET then Failed(None)
      else if accept == None || accept.value != acceptKey then Failed(None)
      else Parsed(length, ())
  }

  function ParseResponse(s: string, acceptKey: string): (r: Parsed<()>)
  {
    match ParseLines(s)
    case Unfinished => Partial
    case Lines(lines, length) =>
      if lines == [] then Failed(None) else ResponseOf(lines[0], HeadersOf(lines[1..]), length, acceptKey)
  }

  // ----- The object -----

  class Handshake {
    var host: string
    var path: string
    var protocols: seq<string>
    var key: string

    /** A client's handshake; a server's starts with nothing. */
    constructor (host: string, path: string, protocols: seq<string>)
      ensures this.host == host && this.path == path && this.protocols == protocols && key == ""
    {
      this.host, this.path, this.protocols, key := host, path, protocols, "";
    }

    method GenerateHttpRequest(random: seq<byte>) returns (out: string)
      requires |random| == 16
      modifies this`key
      ensures key == Base64(random) && out == Request(host, path, key, protocols)
    {
      key := Base64Encode(random);
      out := Request(host, path, key, protocols);
    }

    method GenerateHttpResponse(sha1: Hash) returns (out: string)
      ensures out == Response(AcceptKey(key, sha1))
    {
      var accept := Base64Encode(sha1(key + GUID));
      out := Response(accept);
    }

    /** The server reads the request and keeps what it says. */
    method ParseHttpRequest(buffer: string) returns (r: Parsed<Opening>)
      modifies this
      ensures r == ParseRequest(buffer)
      ensures r.Parsed? ==>
                && path == r.value.path && host == r.value.host && key == r.value.key
                && protocols == if r.value.protocols == None then old(protocols) else r.value.protocols.value
      ensures r.Partial? ==> path == old(path) && host == old(host) && key == old(key) && protocols == old(protocols)
    {
      hide ParseLines, HeadersOf, Lookup, Word, Explode, MethodFrom;
      var valid := IsHttpRequestLoop(buffer);
      if !valid {
        return Failed(Some(400));
      }
      var length, lines := ParseHttpLines(buffer);
      if length == 0 {
        return Partial;
      }
      if lines == [] {
        return Failed(Some(400));
      }
      var verb := Word(lines[0]).0;
      if verb != "GET" {
        return Failed(Some(405));
      }
      path := Word(Word(lines[0]).1).0;
      var headers := ParseHttpHeaders(lines[1..]);
      var h := Lookup(headers, LowerName(Host));
      if h == None {
        return Failed(Some(400));
      }
      host := h.value;
      h := Lookup(headers, LowerName(Upgrade));
      if h == None || ToLower(h.value) != WEBSOCKET {
        return Failed(Some(426));
      }
      h := Lookup(headers, LowerName(Key));
      if h == None {
        return Failed(Some(400));
      }
      key := h.value;
      h := Lookup(headers, LowerName(Protocol));
      if h != None {
        protocols := Explode(h.value, ',');
      }
      r := RequestOf(lines[0], headers, length);
    }

    /** The client checks the answer to its key. */
    method ParseHttpResponse(buffer: string, sha1: Hash) returns (r: Parsed<()>)
      ensures r == ParseResponse(buffer, AcceptKey(key, sha1))
    {
      hide ParseLines, HeadersOf, Lookup, StatusCode;
      var length, lines := ParseHttpLines(buffer);
      if length == 0 {
        return Partial;
      }
      if lines == [] {
        return Failed(None);
      }
      if StatusCode(lines[0]) != 101 {
        return Failed(None);
      }
      var headers := ParseHttpHeaders(lines[1..]);
      var h := Lookup(headers, LowerName(Upgrade));
      if h == None || ToLower(h.value) != WEBSOCKET {
        return Failed(None);
      }
      h := Lookup(headers, LowerName(Accept));
      if h == None {
        return Failed(None);
      }
      var accept := Base64Encode(sha1(key + GUID));
      if h.value != accept {
        return Failed(None);
      }
      return Parsed(length, ());
    }
  }

  // ----- Decisions are stable -----

  lemma RequestOfMore(s: string, t: string)
    requires ParseRequest(s) != Partial
    ensures ParseRequest(s + t) == ParseRequest(s)
    ensures ParseRequest(s).Parsed? ==> ParseRequest(s).length <= |s|
  {
    hide ParseLines, MethodFrom, HeadersOf, RequestOf;
    MethodOfMore(s, 0, t);
    if IsHttpRequest(s) {
      LinesOfMore(s, t);
    }
  }

  lemma ResponseOfMore(s: string, t: string, acceptKey: string)
    requires ParseResponse(s, acceptKey) != Partial
    ensures ParseResponse(s + t, acceptKey) == ParseResponse(s, acceptKey)
    ensures ParseResponse(s, acceptKey).Parsed? ==> ParseResponse(s, acceptKey).length <= |s|
  {
    hide ParseLines, HeadersOf, ResponseOf;
    LinesOfMore(s, t);
  }

  // ----- Agreement -----

  /** A path that is one word, and values that survive; the protocols are told apart by commas. */
  predicate Sendable(host: string, path: string, key: string, protocols: seq<string>)
  {
    && IsValue(host) && IsWord(path) && IsValue(key)
    && (forall i :: 0 <= i < |protocols| ==> '\n' !in protocols[i] && ',' !in protocols[i])
    && (protocols != [] ==>
          protocols[|protocols| - 1] != [] && (protocols[0] == [] || protocols[0][0] != ' '))
  }

  lemma ProtocolsAreAValue(protocols: seq<string>)
    requires protocols != [] && (forall i :: 0 <= i < |protocols| ==> '\n' !in protocols[i])
    requires protocols[0] == [] || protocols[0][0] != ' '
    ensures IsValue(Implode(protocols, ','))
  {
    ImplodeCharacters(protocols, ',', '\n');
    SplitFirst(protocols);
    ImplodeCons(protocols[0], protocols[1..], ',');
  }

  lemma RequestLineRead(path: string)
    requires IsWord(path)
    ensures var line := RequestLine(path);
            Word(line).0 == "GET" && Word(Word(line).1).0 == path && IsLine(line)
  {
    var line := RequestLine(path);
    var rest := [' '] + path + " HTTP/1.1";
    assert line == "GET" + rest;
    assert IsWord("GET");
    RequestLineIsLine(path);
    hide IsWord, IsLine, Word, RequestLine;
    WordRead("GET", rest);
    WordRead(path, " HTTP/1.1");
  }

  lemma RequestLineIsLine(path: string)
    requires IsWord(path)
    ensures IsLine(RequestLine(path))
  {
    assert forall i :: 0 <= i < |path| ==> path[i] != '\n';
  }

  lemma LookupAt(headers: seq<Header>, i: nat, key: string)
    requires i < |headers| && headers[i].key == key
    requires forall j :: 0 <= j < i ==> |headers[j].key| != |key|
    ensures Lookup(headers, key) == Some(headers[i].value)
  {
    if i > 0 {
      LookupAt(headers[1..], i - 1, key);
    }
  }

  lemma LookupNowhere(headers: seq<Header>, key: string)
    requires forall j :: 0 <= j < |headers| ==> |headers[j].key| != |key|
    ensures Lookup(headers, key) == None
  {
    if headers != [] {
      LookupNowhere(headers[1..], key);
    }
  }

  lemma ShortNamesAreLowered(field: Field)
    requires field == Host || field == Connection || field == Upgrade || field == Server
    ensures ToLower(Name(field)) == LowerName(field)
    ensures |Name(field)| == match field case Host => 4 case Connection => 10 case Upgrade => 7 case _ => 6
    ensures ':' !in Name(field) && '\n' !in Name(field)
  {}

  lemma VersionIsLowered()
    ensures ToLower(Name(Version)) == LowerName(Version) && |Name(Version)| == 21
    ensures ':' !in Name(Version) && '\n' !in Name(Version)
  {}

  lemma KeyIsLowered()
    ensures ToLower(Name(Key)) == LowerName(Key) && |Name(Key)| == 17
    ensures ':' !in Name(Key) && '\n' !in Name(Key)
  {}

  lemma ProtocolIsLowered()
    ensures ToLower(Name(Protocol)) == LowerName(Protocol) && |Name(Protocol)| == 22
    ensures ':' !in Name(Protocol) && '\n' !in Name(Protocol)
  {
    NameHasNo(Protocol);
    LowerProtocol();
    hide *;
  }

  lemma NameHasNo(field: Field)
    ensures ':' !in Name(field) && '\n' !in Name(field)
  {}

  lemma LowerProtocol()
    ensures ToLower(Name(Protocol)) == LowerName(Protocol) && |Name(Protocol)| == 22
  {}

  lemma AcceptIsLowered()
    ensures ToLower(Name(Accept)) == LowerName(Accept) && |Name(Accept)| == 20
    ensures ':' !in Name(Accept) && '\n' !in Name(Accept)
  {}

  function NameLength(field: Field): nat
  {
    match field
    case Host => 4
    case Connection => 10
    case Upgrade => 7
    case Version => 21
    case Key => 17
    case Protocol => 22
    case Server => 6
    case Accept => 20
  }

  /** Names are looked up in lower case, and no two have the same length. */
  lemma NameRead(field: Field)
    ensures ToLower(Name(field)) == LowerName(field) && |LowerName(field)| == |Name(field)| == NameLength(field)
    ensures ':' !in Name(field) && '\n' !in Name(field)
  {
    hide Name, LowerName, ToLower;
    match field
    case Version => VersionIsLowered();
    case Key => KeyIsLowered();
    case Protocol => ProtocolIsLowered();
    case Accept => AcceptIsLowered();
    case _ => ShortNamesAreLowered(field);
  }

  /** A header line is read back, and is a line. */
  lemma HeaderLineRead(field: Field, value: string)
    requires IsValue(value)
    ensures IsLine(Line(field, value)) && HeaderOf(Line(field, value)) == Header(LowerName(field), value)
    ensures |LowerName(field)| == NameLength(field)
  {
    NameRead(field);
    hide Name, LowerName, HeaderOf, ToLower;
    HeaderRead(Name(field), value);
  }

  lemma FixedValues()
    ensures IsValue(UPGRADE) && IsValue(WEBSOCKET) && IsValue(VERSION_13) && IsValue(SERVER)
    ensures ToLower(WEBSOCKET) == WEBSOCKET
  {}

  /** The headers of a request, in order; `list` is the value of the last one. */
  predicate AreRequestHeaders(headers: seq<Header>, host: string, key: string, list: Option<string>)
  {
    && |headers| == (if list == None then 5 else 6)
    && headers[0] == Header(LowerName(Host), host)
    && headers[1].key == LowerName(Connection)
    && headers[2] == Header(LowerName(Upgrade), WEBSOCKET)
    && headers[3].key == LowerName(Version)
    && headers[4] == Header(LowerName(Key), key)
    && (list != None ==> headers[5] == Header(LowerName(Protocol), list.value))
  }

  lemma RequestLookups(headers: seq<Header>, host: string, key: string, list: Option<string>)
    requires AreRequestHeaders(headers, host, key, list)
    ensures Lookup(headers, LowerName(Host)) == Some(host)
    ensures Lookup(headers, LowerName(Upgrade)) == Some(WEBSOCKET)
    ensures Lookup(headers, LowerName(Key)) == Some(key)
    ensures Lookup(headers, LowerName(Protocol)) == list
  {
    hide WEBSOCKET, LowerName, Lookup;
    NameRead(Host);
    NameRead(Connection);
    NameRead(Upgrade);
    NameRead(Version);
    NameRead(Key);
    NameRead(Protocol);
    LookupAt(headers, 0, LowerName(Host));
    LookupAt(headers, 2, LowerName(Upgrade));
    LookupAt(headers, 4, LowerName(Key));
    if list == None {
      LookupNowhere(headers, LowerName(Protocol));
    } else {
      LookupAt(headers, 5, LowerName(Protocol));
    }
  }

  lemma SixAndMore<T>(a: T, b: T, c: T, d: T, e: T, f: T, more: seq<T>)
    requires |more| <= 1
    ensures var s := [a, b, c, d, e, f] + more;
            && |s| == 6 + |more|
            && s[0] == a && s[1] == b && s[2] == c && s[3] == d && s[4] == e && s[5] == f
            && (more != [] ==> s[6] == more[0])
  {}

  /** The lines one by one. */
  lemma RequestLinesAre(host: string, path: string, key: string, protocols: seq<string>)
    ensures var lines := RequestLines(host, path, key, protocols);
            && |lines| == (if protocols == [] then 6 else 7)
            && lines[0] == RequestLine(path) && lines[1] == Line(Host, host) && lines[2] == Line(Connection, UPGRADE)
            && lines[3] == Line(Upgrade, WEBSOCKET) && lines[4] == Line(Version, VERSION_13) && lines[5] == Line(Key, key)
            && (protocols != [] ==> lines[6] == Line(Protocol, Implode(protocols, ',')))
  {
    hide WEBSOCKET, UPGRADE, VERSION_13, RequestLine, Line, Name, Implode;
    SixAndMore(RequestLine(path), Line(Host, host), Line(Connection, UPGRADE), Line(Upgrade, WEBSOCKET),
               Line(Version, VERSION_13), Line(Key, key),
               if protocols == [] then [] else [Line(Protocol, Implode(protocols, ','))]);
  }

  lemma SendableParts(host: string, path: string, key: string, protocols: seq<string>)
    requires Sendable(host, path, key, protocols)
    ensures IsValue(host) && IsWord(path) && IsValue(key)
    ensures forall i :: 0 <= i < |protocols| ==> ',' !in protocols[i]
    ensures protocols != [] ==> protocols[|protocols| - 1] != [] && IsValue(Implode(protocols, ','))
  {
    if protocols != [] {
      ProtocolsAreAValue(protocols);
    }
  }

  lemma EachIsLine(lines: seq<string>)
    requires 6 <= |lines| <= 7
    requires IsLine(lines[0]) && IsLine(lines[1]) && IsLine(lines[2])
    requires IsLine(lines[3]) && IsLine(lines[4]) && IsLine(lines[5]) && (|lines| == 7 ==> IsLine(lines[6]))
    ensures forall i :: 0 <= i < |lines| ==> IsLine(lines[i])
  {
    hide IsLine;
  }

  lemma RequestLinesAreLines(host: string, path: string, key: string, protocols: seq<string>)
    requires Sendable(host, path, key, protocols)
    ensures var lines := RequestLines(host, path, key, protocols);
            forall i :: 0 <= i < |lines| ==> IsLine(lines[i])
  {
    hide *;
    SendableParts(host, path, key, protocols);
    FixedValues();
    RequestLineRead(path);
    if protocols != [] {
      HeaderLineRead(Protocol, Implode(protocols, ','));
    }
    RequestLinesAre(host, path, key, protocols);
    HeaderLineRead(Host, host);
    HeaderLineRead(Connection, UPGRADE);
    HeaderLineRead(Upgrade, WEBSOCKET);
    HeaderLineRead(Version, VERSION_13);
    HeaderLineRead(Key, key);
    EachIsLine(RequestLines(host, path, key, protocols));
  }

  /** The headers of a request, as they are read back. */
  lemma RequestHeaders(host: string, path: string, key: string, protocols: seq<string>)
    requires Sendable(host, path, key, protocols)
    ensures AreRequestHeaders(HeadersOf(RequestLines(host, path, key, protocols)[1..]), host, key,
                              if protocols == [] then None else Some(Implode(protocols, ',')))
  {
    FixedValues();
    if protocols != [] {
      ProtocolsAreAValue(protocols);
      HeaderLineRead(Protocol, Implode(protocols, ','));
    }
    SendableParts(host, path, key, protocols);
    RequestLinesAre(host, path, key, protocols);
    hide *;
    HeaderLineRead(Host, host);
    HeaderLineRead(Connection, UPGRADE);
    HeaderLineRead(Upgrade, WEBSOCKET);
    HeaderLineRead(Version, VERSION_13);
    HeaderLineRead(Key, key);
    HeadersAre(RequestLines(host, path, key, protocols), host, key,
               if protocols == [] then None else Some(Implode(protocols, ',')));
  }

  lemma HeadersAre(lines: seq<string>, host: string, key: string, list: Option<string>)
    requires |lines| == (if list == None then 6 else 7)
    requires HeaderOf(lines[1]) == Header(LowerName(Host), host) && HeaderOf(lines[2]).key == LowerName(Connection)
    requires HeaderOf(lines[3]) == Header(LowerName(Upgrade), WEBSOCKET) && HeaderOf(lines[4]).key == LowerName(Version)
    requires HeaderOf(lines[5]) == Header(LowerName(Key), key)
    requires list != None ==> HeaderOf(lines[6]) == Header(LowerName(Protocol), list.value)
    ensures AreRequestHeaders(HeadersOf(lines[1..]), host, key, list)
  {
    hide HeaderOf, LowerName, WEBSOCKET;
  }

  lemma RequestIsHttp(s: string, rest: string)
    requires s == "GET " + rest
    ensures IsHttpRequest(s)
  {
    assert s[0] == 'G' && s[1] == 'E' && s[2] == 'T' && s[3] == ' ';
    assert MethodFrom(s, 3);
    assert MethodFrom(s, 2);
    assert MethodFrom(s, 1);
  }

  /**
   The server reads all of the client's request and gets the host, path, key and protocols it was made
   with; no header is sent for an empty list of protocols.
   */
  lemma RequestAccepted(host: string, path: string, key: string, protocols: seq<string>)
    requires Sendable(host, path, key, protocols)
    ensures var s := Request(host, path, key, protocols);
            ParseRequest(s) ==
            Parsed(|s|, Opening(path, host, key, if protocols == [] then None else Some(protocols)))
  {
    hide *;
    RequestIsRead(host, path, key, protocols);
    RequestHeaders(host, path, key, protocols);
    SendableParts(host, path, key, protocols);
    RequestLineRead(path);
    RequestLinesAre(host, path, key, protocols);
    ExplodeOfImplode(protocols, ',');
    var list := if protocols == [] then None else Some(Implode(protocols, ','));
    RequestDecided(Request(host, path, key, protocols), RequestLines(host, path, key, protocols), host, key, list);
  }

  lemma RequestIsRead(host: string, path: string, key: string, protocols: seq<string>)
    requires Sendable(host, path, key, protocols)
    ensures var s := Request(host, path, key, protocols);
            IsHttpRequest(s) && ParseLines(s) == Lines(RequestLines(host, path, key, protocols), |s|)
  {
    var lines := RequestLines(host, path, key, protocols);
    var s := Request(host, path, key, protocols);
    hide RequestLine, RequestLines, Sendable, IsLine, ParseLines, IsHttpRequest, Unlines;
    RequestLinesAreLines(host, path, key, protocols);
    RequestLinesAre(host, path, key, protocols);
    LinesOfUnlines(lines);
    RequestStart(path, lines);
    RequestIsHttp(s, s[4..]);
  }

  /** What the server makes of the lines and headers of a request. */
  lemma RequestDecided(s: string, lines: seq<string>, host: string, key: string, list: Option<string>)
    requires IsHttpRequest(s) && ParseLines(s) == Lines(lines, |s|) && lines != []
    requires Word(lines[0]).0 == "GET" && AreRequestHeaders(HeadersOf(lines[1..]), host, key, list)
    ensures ParseRequest(s) ==
            Parsed(|s|, Opening(Word(Word(lines[0]).1).0, host, key,
                                if list == None then None else Some(Explode(list.value, ','))))
  {
    hide WEBSOCKET, LowerName, ToLower, Explode, Lookup, Word, ParseLines, IsHttpRequest, HeadersOf,
         AreRequestHeaders, RequestOf;
    HeadersDecided(lines[0], HeadersOf(lines[1..]), |s|, host, key, list);
  }

  lemma HeadersDecided(line: string, headers: seq<Header>, length: nat, host: string, key: string, list: Option<string>)
    requires Word(line).0 == "GET" && AreRequestHeaders(headers, host, key, list)
    ensures RequestOf(line, headers, length) ==
            Parsed(length, Opening(Word(Word(line).1).0, host, key,
                                   if list == None then None else Some(Explode(list.value, ','))))
  {
    hide WEBSOCKET, LowerName, ToLower, Explode, Lookup, Word, AreRequestHeaders;
    RequestLookups(headers, host, key, list);
    FixedValues();
  }

  lemma RequestStart(path: string, lines: seq<string>)
    requires lines != [] && lines[0] == RequestLine(path)
    ensures var s := Unlines(lines) + "\r\n";
            |s| >= 4 && s == "GET " + s[4..]
  {
    var s := Unlines(lines) + "\r\n";
    assert s[..4] == lines[0][..4] == "GET ";
  }

  lemma StatusRead()
    ensures StatusCode(STATUS_LINE) == 101 && IsLine(STATUS_LINE)
  {
    StatusParts();
    StatusCodeOf("HTTP/1.1", "101 Switching Protocols");
  }

  lemma StatusParts()
    ensures STATUS_LINE == "HTTP/1.1" + [' '] + "101 Switching Protocols" && IsLine(STATUS_LINE)
    ensures IsWord("HTTP/1.1")
  {
    StatusIsLine();
    hide IsLine;
  }

  lemma StatusIsLine()
    ensures IsLine(STATUS_LINE)
  {}

  lemma StatusCodeOf(protocol: string, s: string)
    requires IsWord(protocol)
    requires |s| >= 4 && s[0] == '1' && s[1] == '0' && s[2] == '1' && s[3] == ' '
    ensures StatusCode(protocol + [' '] + s) == 101
  {
    var rest := [' '] + s;
    assert protocol + [' '] + s == protocol + rest;
    WordRead(protocol, rest);
    assert rest[1..] == s;
    assert SkipWhite(rest) == SkipWhite(s) == s;
    Digits101(s);
  }

  lemma Digits101(s: string)
    requires |s| >= 4 && s[0] == '1' && s[1] == '0' && s[2] == '1' && s[3] == ' '
    ensures LeadingNumber(s, 0) == 101
  {
    assert LeadingNumber(s[1..][1..][1..], 101) == 101;
    assert LeadingNumber(s[1..][1..], 10) == 101;
    assert LeadingNumber(s[1..], 1) == 101;
  }

  /** The client accepts all of the server's response when the key is the one it expects, and only then. */
  lemma ResponseAccepted(acceptKey: string, expected: string)
    requires IsValue(acceptKey)
    ensures var s := Response(acceptKey);
            ParseResponse(s, expected) == if acceptKey == expected then Parsed(|s|, ()) else Failed(None)
  {
    var lines := ResponseLines(acceptKey);
    StatusRead();
    FixedValues();
    hide STATUS_LINE, WEBSOCKET, UPGRADE, SERVER, Line, Name, LowerName, HeaderOf, ToLower, IsLine, Lookup,
         IsValue, StatusCode, ParseLines;
    HeaderLineRead(Server, SERVER);
    HeaderLineRead(Connection, UPGRADE);
    HeaderLineRead(Upgrade, WEBSOCKET);
    HeaderLineRead(Accept, acceptKey);
    LinesOfUnlines(lines);
    var headers := HeadersOf(lines[1..]);
    LookupAt(headers, 2, LowerName(Upgrade));
    LookupAt(headers, 3, LowerName(Accept));
  }

  /** The whole handshake: both sides agree on what the client asked for, whatever the random octets. */
  lemma HandshakeAgrees(host: string, path: string, protocols: seq<string>, random: seq<byte>, sha1: Hash)
    requires Sendable(host, path, "", protocols)
    ensures var key := Base64(random);
            var request := Request(host, path, key, protocols);
            var response := Response(AcceptKey(key, sha1));
            && ParseRequest(request) ==
               Parsed(|request|, Opening(path, host, key, if protocols == [] then None else Some(protocols)))
            && ParseResponse(response, AcceptKey(key, sha1)) == Parsed(|response|, ())
  {
    Base64IsValue(random);
    Base64IsValue(sha1(Base64(random) + GUID));
    RequestAccepted(host, path, Base64(random), protocols);
    ResponseAccepted(AcceptKey(Base64(random), sha1), AcceptKey(Base64(random), sha1));
  }

  /** No proper prefix of a request is more than incomplete, nor of a response. */
  lemma PrefixIsPartial(request: string, response: string, expected: string, n: nat)
    requires ParseRequest(request).Parsed? && ParseRequest(request).length == |request|
    requires ParseResponse(response, expected).Parsed? && ParseResponse(response, expected).length == |response|
    ensures n < |request| ==> ParseRequest(request[..n]) == Partial
    ensures n < |response| ==> ParseResponse(response[..n], expected) == Partial
  {
    hide ParseRequest, ParseResponse;
    if n < |request| {
      assert request[..n] + request[n..] == request;
      if ParseRequest(request[..n]) != Partial {
        RequestOfMore(request[..n], request[n..]);
      }
    }
    if n < |response| {
      assert response[..n] + response[n..] == response;
      if ParseResponse(response[..n], expected) != Partial {
        ResponseOfMore(response[..n], response[n..], expected);
      }
    }
  }

  // ----- The parsers the transport uses -----

  function DecisionOf<T>(r: Parsed<T>): W.Handshake
  {
    match r
    case Partial => W.NeedMore
    case Parsed(length, _) => W.Accepted(length)
    case Failed(code) => W.Rejected(code)
  }

  function ServerParser(): W.Parser
  {
    (s: seq<byte>) => DecisionOf(ParseRequest(Text(s)))
  }

  function ClientParser(acceptKey: string): W.Parser
  {
    (s: seq<byte>) => DecisionOf(ParseResponse(Text(s), acceptKey))
  }

  /** So the results about segmentation and delivery hold with the real handshake. */
  lemma ParsersAreStable(acceptKey: string)
    ensures W.PrefixStable(ServerParser()) && W.PrefixStable(ClientParser(acceptKey))
  {
    hide ParseRequest, ParseResponse;
    forall s: seq<byte>
      ensures ServerParser()(s).Accepted? ==> ServerParser()(s).length <= |s|
      ensures ClientParser(acceptKey)(s).Accepted? ==> ClientParser(acceptKey)(s).length <= |s|
    {
      if ParseRequest(Text(s)) != Partial {
        RequestOfMore(Text(s), []);
      }
      if ParseResponse(Text(s), acceptKey) != Partial {
        ResponseOfMore(Text(s), [], acceptKey);
      }
    }
    forall s: seq<byte>, t: seq<byte>
      ensures ServerParser()(s) != W.NeedMore ==> ServerParser()(s + t) == ServerParser()(s)
      ensures ClientParser(acceptKey)(s) != W.NeedMore ==> ClientParser(acceptKey)(s + t) == ClientParser(acceptKey)(s)
    {
      TextAppend(s, t);
      if ParseRequest(Text(s)) != Partial {
        RequestOfMore(Text(s), Text(t));
      }
      if ParseResponse(Text(s), acceptKey) != Partial {
        ResponseOfMore(Text(s), Text(t), acceptKey);
      }
    }
  }

  /**
   A server that is handed the octets of a client's request, and a client that is handed those of the
   response, are ready for end-to-end delivery.
   */
  lemma HandshakeMakesReady(host: string, path: string, protocols: seq<string>, random: seq<byte>, sha1: Hash,
                            hello: seq<byte>, server: W.Peer, answer: seq<byte>, client: W.Peer)
    requires Sendable(host, path, "", protocols)
    requires Text(hello) == Request(host, path, Base64(random), protocols)
    requires Text(answer) == Response(AcceptKey(Base64(random), sha1))
    requires server.state == W.Connecting && server.buffer == server.partial == [] && server.events == []
    requires client.state == W.Connecting && client.buffer == client.partial == [] && client.events == []
    ensures E.Ready(E.Setting(true, hello, ServerParser(), server))
    ensures E.Ready(E.Setting(false, answer, ClientParser(AcceptKey(Base64(random), sha1)), client))
  {
    HandshakeAgrees(host, path, protocols, random, sha1);
    ParsersAreStable(AcceptKey(Base64(random), sha1));
    hide ParseRequest, ParseResponse, Request, Response, W.PrefixStable;
    assert ServerParser()(hello) == W.Accepted(|hello|);
    assert ClientParser(AcceptKey(Base64(random), sha1))(answer) == W.Accepted(|answer|);
    assert |hello| > 0 && |answer| > 0 by { NotEmpty(host, path, protocols, random, sha1); }
  }

  lemma NotEmpty(host: string, path: string, protocols: seq<string>, random: seq<byte>, sha1: Hash)
    ensures Request(host, path, Base64(random), protocols) != [] && Response(AcceptKey(Base64(random), sha1)) != []
  {}
}
