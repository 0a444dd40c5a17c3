/**
 The HTTP parsing of the WebSocket handshake, and the string helpers it uses. Texts are strings; the
 character with the octet's number stands for an octet.
 */
module Http {
  import opened Bytes

  /** The text of a buffer. */
  function Text(octets: seq<byte>): (s: string)
    ensures |s| == |octets|
  {
    seq(|octets|, i requires 0 <= i < |octets| => octets[i] as char)
  }

  lemma TextAppend(a: seq<byte>, b: seq<byte>)
    ensures Text(a + b) == Text(a) + Text(b)
  {}

  /** The position of the first c, or the length. */
  function Find(s: string, c: char): (k: nat)
    ensures k <= |s| && (k < |s| ==> s[k] == c)
    ensures c !in s[..k]
  {
    if s == [] || s[0] == c then 0
    else
      assert s == [s[0]] + s[1..];
      1 + Find(s[1..], c)
  }

  /** The first c is where it is known to be. */
  lemma {:induction false} FindIs(a: string, c: char, b: string)
    requires c !in a
    ensures Find(a + [c] + b, c) == |a| && Find(a, c) == |a|
  {
    if a != [] {
      assert (a + [c] + b)[1..] == a[1..] + [c] + b;
      FindIs(a[1..], c, b);
    } else {
      assert (a + [c] + b)[0] == c;
    }
  }

  lemma {:induction false} FindOfMore(s: string, c: char, t: string)
    requires Find(s, c) < |s|
    ensures Find(s + t, c) == Find(s, c)
  {
    if s[0] != c {
      assert (s + t)[1..] == s[1..] + t;
      FindOfMore(s[1..], c, t);
    }
  }

  // ----- Requests -----

  /** From position i on: at most eight capital letters, at least one of them, and then a space or the end. */
  predicate MethodFrom(s: string, i: nat)
    requires i <= |s|
    decreases |s| - i
  {
    i == |s| || (i > 0 && s[i] == ' ') || (i < 8 && 'A' <= s[i] <= 'Z' && MethodFrom(s, i + 1))
  }

  predicate IsHttpRequest(s: string)
  {
    MethodFrom(s, 0)
  }

  /** It is one exactly when it begins with at most eight capital letters, up to a space or as far as it goes. */
  lemma {:induction false} IsHttpRequestExactly(s: string, i: nat)
    requires i <= |s|
    ensures MethodFrom(s, i) <==> exists k :: MethodEnds(s, i, k)
    decreases |s| - i
  {
    if i == |s| || (i > 0 && s[i] == ' ') {
      assert MethodEnds(s, i, i);
    } else {
      if i < 8 && 'A' <= s[i] <= 'Z' {
        var next := i + 1;
        IsHttpRequestExactly(s, next);
        if k :| MethodEnds(s, next, k) {
          assert MethodEnds(s, i, k);
        }
      }
      if k :| MethodEnds(s, i, k) {
        assert k > i;
        assert MethodEnds(s, i + 1, k);
      }
    }
  }

  /** Capital letters stand from i to k, k is at most 8 or i, and a space or the end is at k. */
  predicate MethodEnds(s: string, i: nat, k: int)
  {
    i <= k <= |s| && (k == i || k <= 8) && (k == |s| || (k > 0 && s[k] == ' ')) &&
    forall j :: i <= j < k ==> 'A' <= s[j] <= 'Z'
  }

  method IsHttpRequestLoop(s: string) returns (valid: bool)
    ensures valid == IsHttpRequest(s)
  {
    for i := 0 to |s|
      invariant IsHttpRequest(s) == MethodFrom(s, i)
    {
      var c := s[i];
      if i > 0 && c == ' ' {
        break;
      } else if i >= 8 || c < 'A' || c > 'Z' {
        return false;
      }
    }
    return true;
  }

  /** What is no request stays none, and what has left the method behind stays a request. */
  lemma {:induction false} MethodOfMore(s: string, i: nat, t: string)
    requires i <= |s|
    ensures !MethodFrom(s, i) ==> !MethodFrom(s + t, i)
    ensures MethodFrom(s, i) && (exists k :: i <= k < |s| && s[k] == '\n') ==> MethodFrom(s + t, i)
    decreases |s| - i
  {
    if i < |s| && MethodFrom(s, i) == (i < 8 && 'A' <= s[i] <= 'Z' && MethodFrom(s, i + 1)) {
      MethodOfMore(s, i + 1, t);
    } else {
    }
  }

  // ----- Lines -----

  /** The lines before the first empty one, and the length up to and with the empty one. */
  datatype Lines = Unfinished | Lines(lines: seq<string>, length: nat)

  /** A line ends before its line feed, and before a carriage return in front of that. */
  function LineBefore(s: string, k: nat): string
    requires k < |s|
  {
    if k > 0 && s[k - 1] == '\r' then s[..k - 1] else s[..k]
  }

  function ParseLines(s: string): (r: Lines)
    ensures r.Lines? ==> 0 < r.length <= |s|
    decreases |s|
  {
    var k := Find(s, '\n');
    if k == |s| then Unfinished
    else if LineBefore(s, k) == [] then Lines([], k + 1)
    else
      match ParseLines(s[k + 1..])
      case Unfinished => Unfinished
      case Lines(lines, length) => Lines([LineBefore(s, k)] + lines, k + 1 + length)
  }

  /** Length 0 when the empty line is not there yet. */
  method ParseHttpLines(s: string) returns (length: nat, lines: seq<string>)
    ensures ParseLines(s) == if length == 0 then Unfinished else Lines(lines, length)
  {
    hide Find, ParseLines, LineBefore;
    lines := [];
    var cur := 0;
    ContinuedNothing(ParseLines(s));
    while true
      invariant cur <= |s|
      invariant ParseLines(s) == Continued(lines, cur, ParseLines(s[cur..]))
      decreases |s| - cur
    {
      var last := cur;
      cur := NextLineFeed(s, cur);
      LineStep(s, last, cur);
      if cur == |s| {
        return 0, lines;
      }
      var line := if cur != 0 && s[cur - 1] == '\r' && cur > last then s[last..cur - 1] else s[last..cur];
      cur := cur + 1;
      if line == [] {
        break;
      }
      ContinuedAgain(lines, last, line, cur, ParseLines(s[cur..]));
      lines := lines + [line];
    }
    return cur, lines;
  }

  /** Lines that were found before the rest of the text was looked at. */
  function Continued(lines: seq<string>, start: nat, rest: Lines): Lines
  {
    match rest
    case Unfinished => Unfinished
    case Lines(more, length) => Lines(lines + more, start + length)
  }

  lemma ContinuedAgain(lines: seq<string>, last: nat, line: string, cur: nat, rest: Lines)
    requires last <= cur
    ensures Continued(lines + [line], cur, rest) == Continued(lines, last, Continued([line], cur - last, rest))
  {
    if rest.Lines? {
      ConcatAssociative(lines, [line], rest.lines);
    }
  }

  lemma ContinuedNothing(rest: Lines)
    ensures Continued([], 0, rest) == rest
  {}

  lemma ParseLinesStep(s: string)
    ensures var k := Find(s, '\n');
            && (k == |s| ==> ParseLines(s) == Unfinished)
            && (k < |s| && LineBefore(s, k) == [] ==> ParseLines(s) == Lines([], k + 1))
            && (k < |s| && LineBefore(s, k) != [] ==>
                  ParseLines(s) == Continued([LineBefore(s, k)], k + 1, ParseLines(s[k + 1..])))
  {
    hide Find, LineBefore;
  }

  /** One line of the rest of the text, from `last` to the line feed at `cur`. */
  lemma LineStep(s: string, last: nat, cur: nat)
    requires last <= cur <= |s| && Find(s[last..], '\n') == cur - last
    ensures cur == |s| ==> ParseLines(s[last..]) == Unfinished
    ensures cur < |s| ==>
              var line := if cur != 0 && s[cur - 1] == '\r' && cur > last then s[last..cur - 1] else s[last..cur];
              ParseLines(s[last..]) == if line == [] then Lines([], cur + 1 - last)
                                       else Continued([line], cur + 1 - last, ParseLines(s[cur + 1..]))
  {
    hide *;
    ParseLinesStep(s[last..]);
    if cur < |s| {
      LineOfRest(s, last, cur);
    }
  }

  lemma LineOfRest(s: string, last: nat, cur: nat)
    requires last <= cur < |s| && Find(s[last..], '\n') == cur - last
    ensures LineBefore(s[last..], cur - last) ==
            if cur != 0 && s[cur - 1] == '\r' && cur > last then s[last..cur - 1] else s[last..cur]
    ensures s[last..][cur - last + 1..] == s[cur + 1..]
  {
    assert s[last..][..cur - last] == s[last..cur];
    assert cur > last ==> s[last..][cur - last - 1] == s[cur - 1] && s[last..][..cur - last - 1] == s[last..cur - 1];
  }

  method NextLineFeed(s: string, start: nat) returns (cur: nat)
    requires start <= |s|
    ensures start <= cur <= |s| && Find(s[start..], '\n') == cur - start
  {
    cur := start;
    while cur < |s| && s[cur] != '\n'
      invariant start <= cur <= |s|
      invariant Find(s[start..], '\n') == cur - start + Find(s[cur..], '\n')
    {
      assert s[cur..][1..] == s[cur + 1..] && s[cur..][0] == s[cur];
      cur := cur + 1;
    }
    if cur < |s| {
      assert s[cur..][0] == '\n';
    }
  }

  lemma LineBeforeOfMore(s: string, k: nat, t: string)
    requires k < |s|
    ensures LineBefore(s + t, k) == LineBefore(s, k) && (s + t)[k + 1..] == s[k + 1..] + t
  {
    assert (s + t)[..k] == s[..k];
    assert k > 0 ==> (s + t)[..k - 1] == s[..k - 1];
  }

  /** Finished lines stay as they are, whatever follows. */
  lemma {:induction false} LinesOfMore(s: string, t: string)
    requires ParseLines(s).Lines?
    ensures ParseLines(s + t) == ParseLines(s)
    ensures exists k :: 0 <= k < |s| && s[k] == '\n'
    decreases |s|
  {
    hide ParseLines, Find, LineBefore;
    ParseLinesStep(s);
    ParseLinesStep(s + t);
    var k := Find(s, '\n');
    FindOfMore(s, '\n', t);
    assert s[k] == '\n';
    LineBeforeOfMore(s, k, t);
    if LineBefore(s, k) != [] {
      LinesOfMore(s[k + 1..], t);
    }
  }

  /** A text of lines, each ended by a carriage return and a line feed. */
  function Unlines(lines: seq<string>): (s: string)
  {
    if lines == [] then [] else lines[0] + "\r\n" + Unlines(lines[1..])
  }

  predicate IsLine(line: string)
  {
    line != [] && '\n' !in line
  }

  /** Lines and then an empty one are read back as they are. */
  lemma {:induction false} LinesOfUnlines(lines: seq<string>)
    requires forall i :: 0 <= i < |lines| ==> IsLine(lines[i])
    ensures var s := Unlines(lines) + "\r\n";
            ParseLines(s) == Lines(lines, |s|)
  {
    var s := Unlines(lines) + "\r\n";
    if lines == [] {
      LineRead([], []);
      assert s == [] + "\r\n" + [];
    } else {
      var rest := Unlines(lines[1..]) + "\r\n";
      LinesOfUnlines(lines[1..]);
      ConcatAssociative(lines[0] + "\r\n", Unlines(lines[1..]), "\r\n");
      LineRead(lines[0], rest);
      hide ParseLines;
      SplitFirst(lines);
    }
  }

  lemma LineRead(line: string, rest: string)
    requires '\n' !in line
    ensures var s := line + "\r\n" + rest;
            ParseLines(s) == if line == [] then Lines([], 2)
                             else Continued([line], |line| + 2, ParseLines(rest))
  {
    var s := line + "\r\n" + rest;
    assert s == (line + ['\r']) + ['\n'] + rest;
    FindIs(line + ['\r'], '\n', rest);
    assert s[..|line|] == line && s[|line| + 2..] == rest;
  }

  // ----- Headers -----

  datatype Header = Header(key: string, value: string)

  function Lower(c: char): char
  {
    if 'A' <= c <= 'Z' then (c as int + 32) as char else c
  }

  function ToLower(s: string): (r: string)
    ensures |r| == |s|
  {
    seq(|s|, i requires 0 <= i < |s| => Lower(s[i]))
  }

  function SkipSpaces(s: string): string
  {
    if s != [] && s[0] == ' ' then SkipSpaces(s[1..]) else s
  }

  function HeaderOf(line: string): Header
  {
    var pos := Find(line, ':');
    if pos == |line| then Header(line, "") else Header(ToLower(line[..pos]), SkipSpaces(line[pos + 1..]))
  }

  function HeadersOf(lines: seq<string>): (headers: seq<Header>)
    ensures |headers| == |lines|
  {
    seq(|lines|, i requires 0 <= i < |lines| => HeaderOf(lines[i]))
  }

  /** The headers in the order of their lines. */
  method ParseHttpHeaders(lines: seq<string>) returns (headers: seq<Header>)
    ensures headers == HeadersOf(lines)
  {
    headers := [];
    for i := 0 to |lines|
      invariant headers == HeadersOf(lines[..i])
    {
      assert HeadersOf(lines[..i + 1]) == HeadersOf(lines[..i]) + [HeaderOf(lines[i])];
      headers := headers + [HeaderOf(lines[i])];
    }
    assert lines[..|lines|] == lines;
  }

  /** The value of the first header with the key. */
  function Lookup(headers: seq<Header>, key: string): (value: Option<string>)
  {
    if headers == [] then None
    else if headers[0].key == key then Some(headers[0].value)
    else Lookup(headers[1..], key)
  }

  /** A header line is read back as its key, in lower case, and its value. */
  lemma HeaderRead(key: string, value: string)
    requires ':' !in key && (value == [] || value[0] != ' ')
    ensures HeaderOf(key + ": " + value) == Header(ToLower(key), value)
  {
    var line := key + ": " + value;
    assert line == key + [':'] + ([' '] + value);
    FindIs(key, ':', [' '] + value);
    assert line[..|key|] == key && line[|key| + 1..] == [' '] + value;
    assert ([' '] + value)[1..] == value;
    assert SkipSpaces(value) == value;
  }

  // ----- Words -----

  predicate IsSpace(c: char)
  {
    c == ' ' || '\t' <= c <= '\r'
  }

  /** These are the space, the tabulators, the line feed, the form feed and the carriage return. */
  lemma SpacesByCode(c: char)
    ensures IsSpace(c) <==> c as int in {32, 9, 10, 11, 12, 13}
  {}

  function SkipWhite(s: string): (r: string)
    ensures |r| <= |s| && (r != [] ==> !IsSpace(r[0]))
  {
    if s != [] && IsSpace(s[0]) then SkipWhite(s[1..]) else s
  }

  function TakeWord(s: string): (w: string)
    ensures |w| <= |s|
  {
    if s == [] || IsSpace(s[0]) then [] else [s[0]] + TakeWord(s[1..])
  }

  /** Reading a word from a stream: the word, and what is left. */
  function Word(s: string): (r: (string, string))
  {
    var t := SkipWhite(s);
    (TakeWord(t), t[|TakeWord(t)|..])
  }

  predicate IsWord(w: string)
  {
    w != [] && forall i :: 0 <= i < |w| ==> !IsSpace(w[i])
  }

  lemma {:induction false} TakeWordOf(w: string, rest: string)
    requires (forall i :: 0 <= i < |w| ==> !IsSpace(w[i])) && (rest == [] || IsSpace(rest[0]))
    ensures TakeWord(w + rest) == w
  {
    if w != [] {
      assert (w + rest)[1..] == w[1..] + rest;
      TakeWordOf(w[1..], rest);
    } else {
      assert w + rest == rest;
    }
  }

  lemma WordRead(w: string, rest: string)
    requires IsWord(w) && (rest == [] || IsSpace(rest[0]))
    ensures Word(w + rest) == (w, rest) && Word([' '] + w + rest) == (w, rest)
  {
    TakeWordOf(w, rest);
    assert ([' '] + w + rest)[1..] == w + rest;
    assert (w + rest)[|w|..] == rest;
  }

  // ----- Lists -----

  /** The tokens between delimiters; nothing behind the last one is no token. */
  function Explode(s: string, delimiter: char): (tokens: seq<string>)
    decreases |s|
  {
    if s == [] then []
    else
      var k := Find(s, delimiter);
      [s[..k]] + if k == |s| then [] else Explode(s[k + 1..], delimiter)
  }

  /** Every token with the delimiter behind it. */
  function Delimited(tokens: seq<string>, delimiter: char): (s: string)
    ensures tokens != [] ==> s != []
  {
    if tokens == [] then [] else tokens[0] + [delimiter] + Delimited(tokens[1..], delimiter)
  }

  function Implode(tokens: seq<string>, delimiter: char): string
  {
    var result := Delimited(tokens, delimiter);
    if |result| > 0 then result[..|result| - 1] else result
  }

  /** Without the last delimiter: the last token stands alone. */
  lemma ImplodeCons(token: string, tokens: seq<string>, delimiter: char)
    ensures Implode([token] + tokens, delimiter) ==
            if tokens == [] then token else token + [delimiter] + Implode(tokens, delimiter)
  {
    assert ([token] + tokens)[1..] == tokens;
    var rest := Delimited(tokens, delimiter);
    if tokens == [] {
      assert (token + [delimiter] + [])[..|token|] == token;
    } else {
      assert (token + [delimiter] + rest)[..|token| + |rest|] == token + [delimiter] + rest[..|rest| - 1];
    }
  }

  /** Tokens without delimiters are read back exactly when the last one is not empty. */
  lemma {:induction false} ExplodeOfImplode(tokens: seq<string>, delimiter: char)
    requires forall i :: 0 <= i < |tokens| ==> delimiter !in tokens[i]
    ensures Explode(Implode(tokens, delimiter), delimiter) == tokens <==> tokens == [] || tokens[|tokens| - 1] != []
  {
    if tokens != [] {
      var token, rest := tokens[0], tokens[1..];
      SplitFirst(tokens);
      ImplodeCons(token, rest, delimiter);
      var s := Implode(rest, delimiter);
      FindIs(token, delimiter, s);
      if rest == [] {
        assert token[..|token|] == token;
      } else {
        ExplodeOfImplode(rest, delimiter);
        var all := token + [delimiter] + s;
        assert all[..|token|] == token && all[|token| + 1..] == s;
        assert Explode(all, delimiter) == [token] + Explode(s, delimiter);
        assert Explode(all, delimiter)[1..] == Explode(s, delimiter);
      }
    }
  }

  lemma {:induction false} ImplodeCharacters(tokens: seq<string>, delimiter: char, c: char)
    requires forall i :: 0 <= i < |tokens| ==> c !in tokens[i]
    requires c != delimiter
    ensures c !in Implode(tokens, delimiter)
  {
    if tokens != [] {
      SplitFirst(tokens);
      ImplodeCons(tokens[0], tokens[1..], delimiter);
      ImplodeCharacters(tokens[1..], delimiter, c);
    }
  }
}
