/**
 The texts of the opening handshake, letter by letter (RFC 6455 sections 1.3, 4.1 and 4.2), and what the accept key
 proves to the client.
 */
module WsTexts {
  import opened Bytes
  import opened Http
  import opened WsHandshake

  /** The names of the headers, as they stand in front of a value. */
  lemma HeaderTexts(value: string)
    ensures Line(Host, value) == "Host: " + value
    ensures Line(Server, value) == "Server: " + value
    ensures Line(Connection, value) == "Connection: " + value
    ensures Line(Upgrade, value) == "Upgrade: " + value
  {}

  lemma LongHeaderTexts(value: string)
    ensures Line(Version, value) == "Sec-WebSocket-Version: " + value
    ensures Line(Key, value) == "Sec-WebSocket-Key: " + value
    ensures Line(Protocol, value) == "Sec-WebSocket-Protocol: " + value
    ensures Line(Accept, value) == "Sec-WebSocket-Accept: " + value
  {}

  lemma FixedTexts()
    ensures STATUS_LINE == "HTTP/1.1 101 Switching Protocols" && SERVER == "libdatachannel"
    ensures UPGRADE == "upgrade" && WEBSOCKET == "websocket" && VERSION_13 == "13"
  {}

  /** The lines of a request. */
  lemma RequestText(host: string, path: string, key: string, protocols: seq<string>)
    ensures var lines := RequestLines(host, path, key, protocols);
            && |lines| == (if protocols == [] then 6 else 7)
            && lines[0] == "GET " + path + " HTTP/1.1"
            && lines[1] == "Host: " + host
            && lines[2] == "Connection: " + "upgrade"
            && lines[3] == "Upgrade: " + "websocket"
            && lines[4] == "Sec-WebSocket-Version: " + "13"
            && lines[5] == "Sec-WebSocket-Key: " + key
            && (protocols != [] ==> lines[6] == "Sec-WebSocket-Protocol: " + Implode(protocols, ','))
  {
    assert RequestLine(path) == "GET " + path + " HTTP/1.1";
    FixedTexts();
    hide *;
    RequestLinesAre(host, path, key, protocols);
    HeaderTexts(host);
    HeaderTexts(UPGRADE);
    HeaderTexts(WEBSOCKET);
    LongHeaderTexts(VERSION_13);
    LongHeaderTexts(key);
    LongHeaderTexts(Implode(protocols, ','));
  }

  /** The lines of a response. */
  lemma ResponseText(acceptKey: string)
    ensures var lines := ResponseLines(acceptKey);
            && |lines| == 5
            && lines[0] == "HTTP/1.1 101 Switching Protocols"
            && lines[1] == "Server: " + "libdatachannel"
            && lines[2] == "Connection: " + "upgrade"
            && lines[3] == "Upgrade: " + "websocket"
            && lines[4] == "Sec-WebSocket-Accept: " + acceptKey
  {
    FixedTexts();
    hide Line, SERVER, STATUS_LINE, UPGRADE, WEBSOCKET;
    HeaderTexts(SERVER);
    HeaderTexts(UPGRADE);
    HeaderTexts(WEBSOCKET);
    LongHeaderTexts(acceptKey);
  }

  /** The lines are sent with CR LF behind each, and an empty one at the end. */
  lemma TextOfLines(host: string, path: string, key: string, protocols: seq<string>, acceptKey: string,
                    line: string, rest: seq<string>)
    ensures Request(host, path, key, protocols) == Unlines(RequestLines(host, path, key, protocols)) + ['\r', '\n']
    ensures Response(acceptKey) == Unlines(ResponseLines(acceptKey)) + ['\r', '\n']
    ensures Unlines([]) == [] && Unlines([line] + rest) == line + ['\r', '\n'] + Unlines(rest)
  {
    hide RequestLines, ResponseLines;
    assert ([line] + rest)[1..] == rest;
  }

  // ----- Base 64 -----

  /** The alphabet of RFC 4648 section 4: capital letters, small letters, digits, plus and slash. */
  lemma Alphabet(n: nat)
    requires n < 64
    ensures n < 26 ==> Symbol(n) as int == 65 + n
    ensures 26 <= n < 52 ==> Symbol(n) as int == 97 + (n - 26)
    ensures 52 <= n < 62 ==> Symbol(n) as int == 48 + (n - 52)
    ensures Symbol(62) as int == 43 && Symbol(63) as int == 47
  {}

  lemma QuantumIs(d0: byte, d1: byte, d2: byte, n0: nat, n1: nat, n2: nat, n3: nat)
    requires n0 < 64 && n1 < 64 && n2 < 64 && n3 < 64
    requires 65536 * (d0 as int) + 256 * (d1 as int) + d2 as int == ((n0 * 64 + n1) * 64 + n2) * 64 + n3
    ensures Quantum(d0, d1, d2) == [Symbol(n0), Symbol(n1), Symbol(n2), Symbol(n3)]
  {
    hide Symbol;
    SixBits(d0, d1, d2);
    assert d0 / 4 == n0 && d0 % 4 * 16 + d1 / 16 == n1 && d1 % 16 * 4 + d2 / 64 == n2 && d2 % 64 == n3;
  }

  /** Examples of RFC 4648 section 10. */
  lemma Base64Examples()
    ensures Base64([]) == ""
    ensures Base64([0x66]) == "Zg=="
    ensures Base64([0x66, 0x6f]) == "Zm8="
    ensures Base64([0x66, 0x6f, 0x6f]) == "Zm9v"
  {
    QuantumIs(0x66, 0, 0, 25, 32, 0, 0);
    QuantumIs(0x66, 0x6f, 0, 25, 38, 60, 0);
    QuantumIs(0x66, 0x6f, 0x6f, 25, 38, 61, 47);
    hide Quantum;
    assert [0x66, 0x6f, 0x6f][3..] == [];
  }

  lemma LongerExample()
    ensures Base64([0x66, 0x6f, 0x6f, 0x62, 0x61, 0x72]) == "Zm9vYmFy"
  {
    QuantumIs(0x66, 0x6f, 0x6f, 25, 38, 61, 47);
    QuantumIs(0x62, 0x61, 0x72, 24, 38, 5, 50);
    hide Quantum;
    assert [0x66, 0x6f, 0x6f, 0x62, 0x61, 0x72][3..] == [0x62, 0x61, 0x72] && [0x62, 0x61, 0x72][3..] == [];
  }

  // ----- The accept key -----

  lemma Base64Injective(a: seq<byte>, b: seq<byte>)
    ensures Base64(a) == Base64(b) ==> a == b
  {
    Base64RoundTrip(a);
    Base64RoundTrip(b);
    hide Base64, Unbase64;
  }

  /** The key is hashed with the text of section 4.2.2 behind it. */
  lemma AcceptKeyHashes(key: string, sha1: Hash)
    ensures Unbase64(AcceptKey(key, sha1)) == sha1(key + "258EAFA5-E914-47DA-95CA-C5AB0DC85B11")
  {
    Base64RoundTrip(sha1(key + GUID));
    hide Base64, Unbase64;
  }

  ghost predicate Injective(sha1: Hash)
  {
    forall a, b :: sha1(a) == sha1(b) ==> a == b
  }

  /** With a hash function without collisions, a client accepts the response to its own key and to no other. */
  lemma OtherResponseRefused(mine: string, other: string, sha1: Hash)
    requires Injective(sha1)
    ensures var s := Response(AcceptKey(other, sha1));
            ParseResponse(s, AcceptKey(mine, sha1)) == if mine == other then Parsed(|s|, ()) else Failed(None)
  {
    Base64IsValue(sha1(other + GUID));
    ResponseAccepted(AcceptKey(other, sha1), AcceptKey(mine, sha1));
    if AcceptKey(mine, sha1) == AcceptKey(other, sha1) {
      Base64Injective(sha1(mine + GUID), sha1(other + GUID));
      assert (mine + GUID)[..|mine + GUID| - |GUID|] == mine && (other + GUID)[..|other + GUID| - |GUID|] == other;
    }
    hide ParseResponse, Response, Base64, GUID;
  }
}
