/**
 The lines of a media section of an SDP description (RFC 8866): how they are generated and parsed.
 */
module SdpMedia {
  import opened Bytes
  import opened Http
  import opened Numbers

  datatype Direction = SendOnly | RecvOnly | SendRecv | Inactive | Unknown

  datatype ExtMap = ExtMap(id: int, uri: string, attributes: string, direction: Direction)

  datatype RtpMap = RtpMap(
    payloadType: int, format: string, clockRate: int, encParams: string, rtcpFbs: seq<string>, fmtps: seq<string>)

  datatype State = State(
    mid: string,
    direction: Direction,
    removed: bool,
    bitrate: int,
    attributes: seq<string>,
    extMaps: map<int, ExtMap>,
    rtpMaps: map<int, RtpMap>,
    ssrcs: seq<int>,
    cnames: map<int, string>)

  // ----- Names -----

  function DirectionName(d: Direction): string
  {
    match d
    case SendOnly => "sendonly"
    case RecvOnly => "recvonly"
    case SendRecv => "sendrecv"
    case Inactive => "inactive"
    case Unknown => "unknown"
  }

  datatype Field = Mid | Extension | Format | Feedback | Parameters | Mux | Source | BundleOnly

  function FieldName(f: Field): string
  {
    match f
    case Mid => "mid"
    case Extension => "extmap"
    case Format => "rtpmap"
    case Feedback => "rtcp-fb"
    case Parameters => "fmtp"
    case Mux => "rtcp-mux"
    case Source => "ssrc"
    case BundleOnly => "bundle-only"
  }

  datatype Kind = Known(field: Field) | Directed(direction: Direction) | Other

  function KeyOf(attr: string): string
  {
    attr[..Find(attr, ':')]
  }

  /** The text behind the first such character, or all of it when there is none. */
  function Behind(s: string, c: char): string
  {
    if Find(s, c) == |s| then s else s[Find(s, c) + 1..]
  }

  function ValueOf(attr: string): string
  {
    if Find(attr, ':') == |attr| then [] else attr[Find(attr, ':') + 1..]
  }

  /** Two directions are recognized by the whole attribute, two by its key. */
  function KindOf(attr: string): Kind
  {
    var key := KeyOf(attr);
    if key == FieldName(Format) then Known(Format)
    else if key == FieldName(Feedback) then Known(Feedback)
    else if key == FieldName(Parameters) then Known(Parameters)
    else if key == FieldName(Mux) then Known(Mux)
    else if key == FieldName(Source) then Known(Source)
    else if key == FieldName(Mid) then Known(Mid)
    else if key == FieldName(Extension) then Known(Extension)
    else if attr == DirectionName(SendOnly) then Directed(SendOnly)
    else if attr == DirectionName(RecvOnly) then Directed(RecvOnly)
    else if key == DirectionName(SendRecv) then Directed(SendRecv)
    else if key == DirectionName(Inactive) then Directed(Inactive)
    else if key == FieldName(BundleOnly) then Known(BundleOnly)
    else Other
  }

  // ----- Header extensions -----

  function DirectionOf(s: string): (d: Option<Direction>)
  {
    if s == DirectionName(SendOnly) then Some(SendOnly)
    else if s == DirectionName(RecvOnly) then Some(RecvOnly)
    else if s == DirectionName(SendRecv) then Some(SendRecv)
    else if s == DirectionName(Inactive) then Some(Inactive)
    else None
  }

  function PrintExtMap(e: ExtMap): string
  {
    Integer(e.id) + (if e.direction == Unknown then [] else ['/'] + DirectionName(e.direction)) +
    [' '] + e.uri + if e.attributes == [] then [] else [' '] + e.attributes
  }

  /** The identifier and, if it is given, the direction; None is the exception. */
  function SetIdAndDirection(e: ExtMap, s: string): (r: Option<ExtMap>)
  {
    var k := Find(s, '/');
    var id := ToInt(s[..k]);
    if id == None then None
    else if k == |s| then Some(e.(id := id.value))
    else
      var direction := DirectionOf(s[k + 1..]);
      if direction == None then None else Some(e.(id := id.value, direction := direction.value))
  }

  function SetExtMap(e: ExtMap, description: string): (r: Option<ExtMap>)
  {
    var k := Find(description, ' ');
    if k == |description| then None
    else
      var d := SetIdAndDirection(e, description[..k]);
      if d == None then None else Some(SetUri(d.value, description[k + 1..]))
  }

  function SetUri(e: ExtMap, s: string): ExtMap
  {
    var k := Find(s, ' ');
    if k == |s| then e.(uri := s) else e.(uri := s[..k], attributes := s[k + 1..])
  }

  const NO_EXT_MAP := ExtMap(0, "", "", Unknown)

  // ----- Formats -----

  function PrintRtpMap(r: RtpMap): string
  {
    Integer(r.payloadType) + [' '] + r.format + ['/'] + Integer(r.clockRate) +
    if r.encParams == [] then [] else ['/'] + r.encParams
  }

  function SetRtpMap(r: RtpMap, description: string): (t: Option<RtpMap>)
  {
    var k := Find(description, ' ');
    if k == |description| then None
    else
      var payloadType := ToInt(description[..k]);
      if payloadType == None then None
      else SetFormatName(r.(payloadType := payloadType.value), description[k + 1..])
  }

  function SetFormatName(r: RtpMap, line: string): (t: Option<RtpMap>)
  {
    var j := Find(line, '/');
    if j == |line| then None else SetClockRate(r.(format := line[..j]), line[j + 1..])
  }

  /** The clock rate ends at a slash, or else at a space. */
  function SetClockRate(r: RtpMap, line: string): (t: Option<RtpMap>)
  {
    var k := if Find(line, '/') == |line| then Find(line, ' ') else Find(line, '/');
    var clockRate := ToInt(line[..k]);
    if clockRate == None then None
    else if k == |line| then Some(r.(clockRate := clockRate.value))
    else Some(r.(clockRate := clockRate.value, encParams := line[k + 1..]))
  }

  function NewRtpMap(payloadType: int): RtpMap
  {
    RtpMap(payloadType, "", 0, "", [], [])
  }

  // ----- Lines -----

  function SetFormat(m: State, value: string): (t: Option<State>)
  {
    var pt := ToInt(value[..Find(value, ' ')]);
    if pt == None then None
    else
      var r := SetRtpMap(if pt.value in m.rtpMaps then m.rtpMaps[pt.value] else NewRtpMap(0), value);
      if r == None then None else Some(m.(rtpMaps := m.rtpMaps[pt.value := r.value]))
  }

  function FormatFor(m: State, pt: int): RtpMap
  {
    if pt in m.rtpMaps then m.rtpMaps[pt] else NewRtpMap(pt)
  }

  function AddFeedback(m: State, value: string): (t: Option<State>)
  {
    var pt := ToInt(value[..Find(value, ' ')]);
    if pt == None then None
    else
      var r := FormatFor(m, pt.value);
      Some(m.(rtpMaps := m.rtpMaps[pt.value := r.(rtcpFbs := r.rtcpFbs + [Behind(value, ' ')])]))
  }

  function AddParameters(m: State, value: string): (t: Option<State>)
  {
    var pt := ToInt(value[..Find(value, ' ')]);
    if pt == None then None
    else
      var r := FormatFor(m, pt.value);
      Some(m.(rtpMaps := m.rtpMaps[pt.value := r.(fmtps := r.fmtps + [Behind(value, ' ')])]))
  }

  function SetExtension(m: State, value: string): (t: Option<State>)
  {
    var id := ToInt(value[..Find(value, ' ')]);
    if id == None then None
    else
      var e := SetExtMap(if id.value in m.extMaps then m.extMaps[id.value] else NO_EXT_MAP, value);
      if e == None then None else Some(m.(extMaps := m.extMaps[id.value := e.value]))
  }

  /** Where the text stands first, or the length. */
  function FindText(s: string, t: string): (k: nat)
    ensures k <= |s|
  {
    if t <= s || s == [] then 0 else 1 + FindText(s[1..], t)
  }

  const CNAME: string := "cname:"

  function AddSource(m: State, attr: string, value: string): (t: Option<State>)
  {
    var ssrc := ToUnsigned(value);
    if ssrc == None then None
    else
      var k := FindText(value, CNAME);
      Some(m.(ssrcs := if ssrc.value in m.ssrcs then m.ssrcs else m.ssrcs + [ssrc.value],
              cnames := if k + 6 <= |value| && ssrc.value !in m.cnames then m.cnames[ssrc.value := value[k + 6..]]
                        else m.cnames,
              attributes := m.attributes + [attr]))
  }

  function ParseAttribute(m: State, attr: string): (t: Option<State>)
  {
    var value := ValueOf(attr);
    match KindOf(attr)
    case Known(Format) => SetFormat(m, value)
    case Known(Feedback) => AddFeedback(m, value)
    case Known(Parameters) => AddParameters(m, value)
    case Known(Mux) => Some(m)
    case Known(Source) => AddSource(m, attr, value)
    case Known(Mid) => Some(m.(mid := value))
    case Known(Extension) => SetExtension(m, value)
    case Known(BundleOnly) => Some(m.(removed := false))
    case Directed(d) => Some(m.(direction := d))
    case Other => Some(m.(attributes := m.attributes + [attr]))
  }

  const BITRATE: string := "b=AS"

  function ParseLine(m: State, line: string): (t: Option<State>)
  {
    if "a=" <= line then ParseAttribute(m, line[2..])
    else if BITRATE <= line then
      var bitrate := ToInt(Behind(line, ':'));
      if bitrate == None then None else Some(m.(bitrate := bitrate.value))
    else Some(m)
  }

  function ParseAll(m: State, lines: seq<string>): (t: Option<State>)
    decreases |lines|
  {
    if lines == [] then Some(m)
    else
      var t := ParseLine(m, lines[0]);
      if t == None then None else ParseAll(t.value, lines[1..])
  }

  // ----- Generating -----

  function AttributeLine(attr: string): string
  {
    "a=" + attr
  }

  function Attribute(f: Field, value: string): string
  {
    FieldName(f) + [':'] + value
  }

  function ExtLines(table: map<int, ExtMap>, order: seq<int>): (lines: seq<string>)
    requires forall i :: 0 <= i < |order| ==> order[i] in table
  {
    if order == [] then []
    else [AttributeLine(Attribute(Extension, PrintExtMap(table[order[0]])))] + ExtLines(table, order[1..])
  }

  function DirectionLines(d: Direction): seq<string>
  {
    if d == Unknown then [] else [AttributeLine(DirectionName(d))]
  }

  function AttributeLines(attributes: seq<string>): (lines: seq<string>)
    ensures |lines| == |attributes|
  {
    if attributes == [] then [] else [AttributeLine(attributes[0])] + AttributeLines(attributes[1..])
  }

  /** A line for each of the values that belong to a payload type. */
  function ValueLines(f: Field, payloadType: int, values: seq<string>): (lines: seq<string>)
    ensures |lines| == |values|
  {
    if values == [] then []
    else [AttributeLine(Attribute(f, Integer(payloadType) + [' '] + values[0]))] + ValueLines(f, payloadType, values[1..])
  }

  function FormatLines(r: RtpMap): (lines: seq<string>)
  {
    [AttributeLine(Attribute(Format, PrintRtpMap(r)))] +
    ValueLines(Feedback, r.payloadType, r.rtcpFbs) + ValueLines(Parameters, r.payloadType, r.fmtps)
  }

  function RtpLines(table: map<int, RtpMap>, order: seq<int>): (lines: seq<string>)
    requires forall i :: 0 <= i < |order| ==> order[i] in table
  {
    if order == [] then [] else FormatLines(table[order[0]]) + RtpLines(table, order[1..])
  }

  function BitrateLines(bitrate: int): seq<string>
  {
    if bitrate >= 0 then [BITRATE + [':'] + Integer(bitrate)] else []
  }

  /** The keys of a map in the order it is walked through: each of them once. */
  ghost predicate Enumerates(order: seq<int>, keys: set<int>)
  {
    && (forall i :: 0 <= i < |order| ==> order[i] in keys)
    && (forall k :: k in keys ==> k in order)
    && forall i, j :: 0 <= i < j < |order| ==> order[i] != order[j]
  }

  ghost predicate Ascends(order: seq<int>, keys: set<int>)
  {
    Enumerates(order, keys) && forall i, j :: 0 <= i < j < |order| ==> order[i] < order[j]
  }

  /** The lines of a media section without simulcast identifiers. */
  function MediaLines(m: State, extOrder: seq<int>, rtpOrder: seq<int>): (lines: seq<string>)
    requires forall i :: 0 <= i < |extOrder| ==> extOrder[i] in m.extMaps
    requires forall i :: 0 <= i < |rtpOrder| ==> rtpOrder[i] in m.rtpMaps
  {
    BitrateLines(m.bitrate) +
    ([AttributeLine(Attribute(Mid, m.mid))] +
     (ExtLines(m.extMaps, extOrder) +
      (DirectionLines(m.direction) +
       (AttributeLines(m.attributes) +
        ([AttributeLine(FieldName(Mux))] + RtpLines(m.rtpMaps, rtpOrder))))))
  }

  /** The lines with the tables in ascending order of their keys. */
  ghost predicate AreLinesOf(m: State, lines: seq<string>)
  {
    exists extOrder, rtpOrder :: AreLinesIn(m, lines, extOrder, rtpOrder)
  }

  ghost predicate AreLinesIn(m: State, lines: seq<string>, extOrder: seq<int>, rtpOrder: seq<int>)
  {
    && Ascends(extOrder, m.extMaps.Keys) && Ascends(rtpOrder, m.rtpMaps.Keys)
    && lines == MediaLines(m, extOrder, rtpOrder)
  }

  // ----- Reading what was generated -----

  lemma {:induction false} ParseAllAppend(m: State, a: seq<string>, b: seq<string>)
    ensures ParseAll(m, a + b) ==
            if ParseAll(m, a) == None then None else ParseAll(ParseAll(m, a).value, b)
    decreases |a|
  {
    hide ParseLine;
    if a == [] {
      assert a + b == b;
    } else {
      assert (a + b)[0] == a[0] && (a + b)[1..] == a[1..] + b;
      var t := ParseLine(m, a[0]);
      if t != None {
        ParseAllAppend(t.value, a[1..], b);
      }
    }
  }

  lemma ParseOne(m: State, line: string)
    ensures ParseAll(m, [line]) == ParseLine(m, line)
  {
    hide ParseLine;
    assert [line][1..] == [];
    var t := ParseLine(m, line);
    if t != None {
      assert ParseAll(t.value, []) == t;
    }
  }

  lemma AttributeLineParsed(m: State, attr: string)
    ensures ParseLine(m, AttributeLine(attr)) == ParseAttribute(m, attr)
  {
    hide ParseAttribute;
    assert "a=" <= AttributeLine(attr);
    assert AttributeLine(attr)[2..] == attr;
  }

  lemma NamesDiffer(f: Field, g: Field)
    requires f != g
    ensures FieldName(f) != FieldName(g)
  {
    var a, b := FieldName(f), FieldName(g);
    if |a| == |b| {
      assert a[0] != b[0];
    }
  }

  lemma NameHasNoColon(f: Field)
    ensures ':' !in FieldName(f)
  {}

  lemma FieldRead(f: Field, value: string)
    requires f != BundleOnly
    ensures KindOf(Attribute(f, value)) == Known(f) && ValueOf(Attribute(f, value)) == value
  {
    hide FieldName, DirectionName, Find;
    NameHasNoColon(f);
    CutAt(FieldName(f), ':', value);
    AllNamesDiffer();
  }

  lemma AllNamesDiffer()
    ensures forall f, g :: f != g ==> FieldName(f) != FieldName(g)
  {
    hide FieldName;
    forall f, g | f != g
      ensures FieldName(f) != FieldName(g)
    {
      NamesDiffer(f, g);
    }
  }

  lemma MuxRead()
    ensures KindOf(FieldName(Mux)) == Known(Mux)
  {
    NameHasNoColon(Mux);
    FindIs(FieldName(Mux), ':', []);
    assert FieldName(Mux)[..|FieldName(Mux)|] == FieldName(Mux);
    AllNamesDiffer();
    hide FieldName;
  }

  lemma DirectionHasNoColon(d: Direction)
    ensures ':' !in DirectionName(d) && ' ' !in DirectionName(d)
  {}

  lemma DirectionsDiffer(d: Direction, f: Field)
    ensures d != Unknown ==> DirectionName(d) != FieldName(f)
  {
    if d != Unknown && |DirectionName(d)| == |FieldName(f)| {
      assert f == Mux && (DirectionName(d)[1] != FieldName(f)[1]);
    }
  }

  lemma TwoDirectionsDiffer(d: Direction, e: Direction)
    requires d != e && d != Unknown && e != Unknown
    ensures DirectionName(d) != DirectionName(e)
  {
    var a, b := DirectionName(d), DirectionName(e);
    assert a[0] != b[0] || a[4] != b[4];
  }

  lemma DirectionRead(d: Direction)
    requires d != Unknown
    ensures KindOf(DirectionName(d)) == Directed(d) && DirectionOf(DirectionName(d)) == Some(d)
  {
    var s := DirectionName(d);
    DirectionHasNoColon(d);
    FindIs(s, ':', []);
    assert s[..|s|] == s;
    forall f ensures DirectionName(d) != FieldName(f) {
      DirectionsDiffer(d, f);
    }
    forall e | e != d && e != Unknown ensures DirectionName(d) != DirectionName(e) {
      TwoDirectionsDiffer(d, e);
    }
    hide DirectionName, FieldName;
  }

  /** A text cut at the first such character, behind a part without it. */
  lemma CutAt(a: string, c: char, b: string)
    requires c !in a
    ensures var s := a + [c] + b;
            Find(s, c) == |a| && s[..|a|] == a && s[|a| + 1..] == b && |s| == |a| + 1 + |b|
    ensures Find(a, c) == |a|
  {
    FindIs(a, c, b);
  }

  lemma IntRead(id: int)
    requires IsInt(id)
    ensures ToInt(Integer(id)) == Some(id) && ' ' !in Integer(id) && '/' !in Integer(id)
  {
    hide Integer, ToInt;
    IntegerHasNo(id, ' ');
    IntegerHasNo(id, '/');
    IntegerRead(id, []);
    assert Integer(id) + [] == Integer(id);
  }

  lemma IdAloneRead(e: ExtMap, digits: string, id: int)
    requires ToInt(digits) == Some(id) && '/' !in digits
    ensures SetIdAndDirection(e, digits) == Some(e.(id := id))
  {
    hide ToInt, Find;
    CutAt(digits, '/', []);
    assert digits[..|digits|] == digits;
  }

  lemma IdAndDirectionRead(e: ExtMap, digits: string, id: int, direction: Direction)
    requires ToInt(digits) == Some(id) && '/' !in digits && direction != Unknown
    ensures SetIdAndDirection(e, digits + (['/'] + DirectionName(direction))) == Some(e.(id := id, direction := direction))
  {
    hide ToInt, Find, DirectionName, DirectionOf;
    var name := DirectionName(direction);
    CutAt(digits, '/', name);
    DirectionRead(direction);
    assert digits + ['/'] + name == digits + (['/'] + name);
  }

  lemma IdRead(e: ExtMap, id: int, direction: Direction)
    requires IsInt(id)
    ensures var s := Integer(id) + if direction == Unknown then [] else ['/'] + DirectionName(direction);
            && ' ' !in s
            && SetIdAndDirection(e, s) ==
               Some(if direction == Unknown then e.(id := id) else e.(id := id, direction := direction))
  {
    hide *;
    var digits := Integer(id);
    IntRead(id);
    DirectionHasNoColon(direction);
    if direction == Unknown {
      IdAloneRead(e, digits, id);
      assert digits + [] == digits;
    } else {
      IdAndDirectionRead(e, digits, id, direction);
    }
  }

  /** The part behind the identifier: the extension's name and its attributes. */
  lemma UriRead(uri: string, attributes: string)
    ensures var rest := uri + if attributes == [] then [] else [' '] + attributes;
            var j := Find(rest, ' ');
            && (' ' !in uri ==>
                  (attributes == [] ==> j == |rest| && rest == uri) &&
                  (attributes != [] ==> j < |rest| && rest[..j] == uri && rest[j + 1..] == attributes))
            && (' ' in uri ==> j < |rest| && |rest[..j]| < |uri|)
  {
    if ' ' !in uri {
      CutAt(uri, ' ', attributes);
      assert uri + [' '] + attributes == uri + ([' '] + attributes);
      assert uri + [] == uri;
    } else {
      SpaceFound(uri, ' ');
      FindOfMore(uri, ' ', if attributes == [] then [] else [' '] + attributes);
    }
  }

  lemma {:induction false} SpaceFound(s: string, c: char)
    requires c in s
    ensures Find(s, c) < |s|
  {
    assert s == s[..|s|];
  }

  lemma SetExtMapParts(e: ExtMap, front: string, rest: string, d: ExtMap)
    requires ' ' !in front && SetIdAndDirection(e, front) == Some(d)
    ensures SetExtMap(e, front + [' '] + rest) == Some(SetUri(d, rest))
  {
    CutAt(front, ' ', rest);
    hide SetIdAndDirection, Find, SetUri;
  }

  /** A header extension is read back exactly when there is no space in its name. */
  lemma ExtMapRead(e: ExtMap)
    requires IsInt(e.id)
    ensures SetExtMap(NO_EXT_MAP, PrintExtMap(e)) == Some(e) <==> ' ' !in e.uri
  {
    var front := Integer(e.id) + if e.direction == Unknown then [] else ['/'] + DirectionName(e.direction);
    var rest := e.uri + if e.attributes == [] then [] else [' '] + e.attributes;
    IdRead(NO_EXT_MAP, e.id, e.direction);
    UriRead(e.uri, e.attributes);
    PrintedExtMap(e);
    hide SetExtMap, PrintExtMap, SetIdAndDirection, Integer, DirectionName, Find;
    var d := NO_EXT_MAP.(id := e.id, direction := e.direction);
    SetExtMapParts(NO_EXT_MAP, front, rest, d);
    if ' ' in e.uri {
      assert rest[..Find(rest, ' ')] != e.uri;
    }
  }

  lemma PrintedExtMap(e: ExtMap)
    ensures PrintExtMap(e) ==
            (Integer(e.id) + if e.direction == Unknown then [] else ['/'] + DirectionName(e.direction)) + [' '] +
            (e.uri + if e.attributes == [] then [] else [' '] + e.attributes)
  {
    hide Integer, DirectionName;
  }

  lemma ExtMapIdRead(e: ExtMap)
    requires IsInt(e.id)
    ensures ToInt(PrintExtMap(e)[..Find(PrintExtMap(e), ' ')]) == Some(e.id)
  {
    var front := Integer(e.id) + if e.direction == Unknown then [] else ['/'] + DirectionName(e.direction);
    var rest := e.uri + if e.attributes == [] then [] else [' '] + e.attributes;
    IdRead(NO_EXT_MAP, e.id, e.direction);
    IdAlone(e.id, e.direction);
    PrintedExtMap(e);
    hide PrintExtMap, Integer, DirectionName, ToInt, Find;
    CutAt(front, ' ', rest);
  }

  /** Reading the number stops in front of the direction. */
  lemma IdAlone(id: int, direction: Direction)
    requires IsInt(id)
    ensures ToInt(Integer(id) + if direction == Unknown then [] else ['/'] + DirectionName(direction)) == Some(id)
  {
    IntegerRead(id, if direction == Unknown then [] else ['/'] + DirectionName(direction));
  }

  lemma ClockRateRead(r: RtpMap, clockRate: int, encParams: string)
    requires IsInt(clockRate)
    ensures var tail := Integer(clockRate) + if encParams == [] then [] else ['/'] + encParams;
            SetClockRate(r, tail) ==
            Some(if encParams == [] then r.(clockRate := clockRate) else r.(clockRate := clockRate, encParams := encParams))
  {
    var digits := Integer(clockRate);
    IntegerHasNo(clockRate, ' ');
    IntegerHasNo(clockRate, '/');
    IntegerRead(clockRate, []);
    assert digits + [] == digits == digits[..|digits|];
    CutAt(digits, '/', encParams);
    CutAt(digits, ' ', []);
    assert digits + ['/'] + encParams == digits + (['/'] + encParams);
    hide Integer, ToInt, Find;
  }

  lemma SetClockRateKeeps(r: RtpMap, line: string)
    ensures SetClockRate(r, line).Some? ==> SetClockRate(r, line).value.format == r.format
  {
    hide Find, ToInt;
  }

  lemma SetRtpMapParts(r: RtpMap, digits: string, payloadType: int, line: string)
    requires ' ' !in digits && ToInt(digits) == Some(payloadType)
    ensures SetRtpMap(r, digits + [' '] + line) == SetFormatName(r.(payloadType := payloadType), line)
  {
    CutAt(digits, ' ', line);
    hide SetFormatName, Find, ToInt;
  }

  /** A format is read back, without its lists, exactly when there is no slash in its name. */
  lemma RtpMapRead(r: RtpMap)
    requires IsInt(r.payloadType) && IsInt(r.clockRate)
    ensures SetRtpMap(NewRtpMap(0), PrintRtpMap(r)) == Some(r.(rtcpFbs := [], fmtps := [])) <==> '/' !in r.format
  {
    var digits := Integer(r.payloadType);
    var tail := Integer(r.clockRate) + if r.encParams == [] then [] else ['/'] + r.encParams;
    var line := r.format + ['/'] + tail;
    PayloadTypeRead(r.payloadType);
    PrintedRtpMap(r);
    FormatCut(r.format, tail);
    hide SetRtpMap, PrintRtpMap, Integer, ToInt, Find, SetClockRate;
    var j := Find(line, '/');
    SetRtpMapParts(NewRtpMap(0), digits, r.payloadType, line);
    var named := NewRtpMap(0).(payloadType := r.payloadType, format := line[..j]);
    SetClockRateKeeps(named, line[j + 1..]);
    ClockRateRead(named, r.clockRate, r.encParams);
  }

  lemma PayloadTypeRead(payloadType: int)
    requires IsInt(payloadType)
    ensures ' ' !in Integer(payloadType) && ToInt(Integer(payloadType)) == Some(payloadType)
  {
    IntegerHasNo(payloadType, ' ');
    IntegerRead(payloadType, []);
    assert Integer(payloadType) + [] == Integer(payloadType);
  }

  lemma PrintedRtpMap(r: RtpMap)
    ensures PrintRtpMap(r) ==
            Integer(r.payloadType) + [' '] +
            (r.format + ['/'] + (Integer(r.clockRate) + if r.encParams == [] then [] else ['/'] + r.encParams))
  {
    hide Integer;
  }

  lemma RtpMapTypeRead(r: RtpMap)
    requires IsInt(r.payloadType)
    ensures ToInt(PrintRtpMap(r)[..Find(PrintRtpMap(r), ' ')]) == Some(r.payloadType)
  {
    PayloadTypeRead(r.payloadType);
    PrintedRtpMap(r);
    hide PrintRtpMap, Integer, ToInt, Find;
    CutAt(Integer(r.payloadType), ' ',
          r.format + ['/'] + (Integer(r.clockRate) + if r.encParams == [] then [] else ['/'] + r.encParams));
  }

  lemma FormatCut(format: string, tail: string)
    ensures var line := format + ['/'] + tail;
            var j := Find(line, '/');
            && j < |line|
            && ('/' !in format ==> line[..j] == format && line[j + 1..] == tail)
            && ('/' in format ==> |line[..j]| < |format|)
  {
    if '/' !in format {
      CutAt(format, '/', tail);
    } else {
      SpaceFound(format, '/');
      FindOfMore(format, '/', ['/'] + tail);
      assert format + ['/'] + tail == format + (['/'] + tail);
    }
  }

  /** A value is read back behind its payload type, whatever it is. */
  lemma ValueRead(payloadType: int, value: string)
    requires IsInt(payloadType)
    ensures var s := Integer(payloadType) + [' '] + value;
            ToInt(s[..Find(s, ' ')]) == Some(payloadType) && Behind(s, ' ') == value
  {
    PayloadTypeRead(payloadType);
    CutAt(Integer(payloadType), ' ', value);
    hide Integer, ToInt, Find;
  }

  // ----- The tables -----

  predicate PrintableExtMaps(table: map<int, ExtMap>)
  {
    forall k :: k in table ==> table[k].id == k && IsInt(k) && ' ' !in table[k].uri
  }

  predicate PrintableRtpMaps(table: map<int, RtpMap>)
  {
    forall k :: k in table ==>
      table[k].payloadType == k && IsInt(k) && IsInt(table[k].clockRate) && '/' !in table[k].format
  }

  /** Attributes that are kept as they are, or are those of a source that can be read. */
  predicate PrintableAttributes(attributes: seq<string>)
  {
    forall i :: 0 <= i < |attributes| ==>
      KindOf(attributes[i]) == Other
      || (KindOf(attributes[i]) == Known(Source) && ToUnsigned(ValueOf(attributes[i])).Some?)
  }

  /** The table with the entries of another one added in order. */
  function Extended<T>(table: map<int, T>, source: map<int, T>, order: seq<int>): (r: map<int, T>)
    requires forall i :: 0 <= i < |order| ==> order[i] in source
    decreases |order|
  {
    if order == [] then table else Extended(table[order[0] := source[order[0]]], source, order[1..])
  }

  lemma {:induction false} ExtendedWith<T>(table: map<int, T>, source: map<int, T>, order: seq<int>)
    requires forall i :: 0 <= i < |order| ==> order[i] in source
    ensures var r := Extended(table, source, order);
            forall k :: (k in r <==> k in table || k in order) &&
                        (k in r ==> r[k] == if k in order then source[k] else table[k])
    decreases |order|
  {
    if order != [] {
      ExtendedWith(table[order[0] := source[order[0]]], source, order[1..]);
      var r, first, rest := Extended(table, source, order), order[0], order[1..];
      SplitFirst(order);
      forall k
        ensures k in r <==> k in table || k in order
        ensures k in r ==> r[k] == if k in order then source[k] else table[k]
      {
        assert k in order <==> k in [first] + rest;
        assert k in r <==> k in table[first := source[first]] || k in rest;
      }
    }
  }

  /** From nothing, the entries in any order give the table. */
  lemma ExtendedIsSource<T>(source: map<int, T>, order: seq<int>)
    requires Enumerates(order, source.Keys)
    ensures Extended(map[], source, order) == source
  {
    ExtendedWith(map[], source, order);
    var r := Extended(map[], source, order);
    forall k
      ensures (k in r <==> k in source) && (k in r ==> r[k] == source[k])
    {
      assert k in order <==> k in source.Keys;
    }
    assert r == source;
  }

  /** What a line of one of the fields does. */
  lemma FieldParsed(m: State, f: Field, value: string)
    requires f == Format || f == Feedback || f == Parameters || f == Extension || f == Mid
    ensures ParseLine(m, AttributeLine(Attribute(f, value))) ==
            match f
            case Format => SetFormat(m, value)
            case Feedback => AddFeedback(m, value)
            case Parameters => AddParameters(m, value)
            case Extension => SetExtension(m, value)
            case _ => Some(m.(mid := value))
  {
    AttributeLineParsed(m, Attribute(f, value));
    FieldRead(f, value);
    hide ParseLine, KindOf, ValueOf, AttributeLine, Attribute, SetFormat, AddFeedback, AddParameters, SetExtension,
         AddSource;
  }

  lemma ExtLineParsed(m: State, e: ExtMap)
    requires IsInt(e.id) && ' ' !in e.uri && e.id !in m.extMaps
    ensures ParseLine(m, AttributeLine(Attribute(Extension, PrintExtMap(e)))) == Some(m.(extMaps := m.extMaps[e.id := e]))
  {
    AttributeLineParsed(m, Attribute(Extension, PrintExtMap(e)));
    FieldRead(Extension, PrintExtMap(e));
    ExtMapRead(e);
    ExtMapIdRead(e);
    hide ParseLine, KindOf, ValueOf, AttributeLine, Attribute, PrintExtMap, SetExtMap, ToInt, Find;
  }

  lemma {:induction false} ExtLinesParsed(m: State, table: map<int, ExtMap>, order: seq<int>)
    requires PrintableExtMaps(table) && (forall i :: 0 <= i < |order| ==> order[i] in table && order[i] !in m.extMaps)
    requires forall i, j :: 0 <= i < j < |order| ==> order[i] != order[j]
    ensures ParseAll(m, ExtLines(table, order)) == Some(m.(extMaps := Extended(m.extMaps, table, order)))
    decreases |order|
  {
    hide ParseLine, AttributeLine, Attribute, PrintExtMap;
    if order != [] {
      var k, rest := order[0], order[1..];
      ExtLineParsed(m, table[k]);
      var t := m.(extMaps := m.extMaps[k := table[k]]);
      assert forall i :: 0 <= i < |rest| ==> rest[i] == order[i + 1];
      ExtLinesParsed(t, table, rest);
      ParseAllCons(m, AttributeLine(Attribute(Extension, PrintExtMap(table[k]))), t, ExtLines(table, rest));
    }
  }

  lemma ParseAllCons(m: State, line: string, t: State, rest: seq<string>)
    requires ParseLine(m, line) == Some(t)
    ensures ParseAll(m, [line] + rest) == ParseAll(t, rest)
  {
    hide ParseLine;
    assert ([line] + rest)[1..] == rest;
  }

  lemma ValueAdded(m: State, pt: int, value: string)
    requires IsInt(pt)
    ensures var r, text := FormatFor(m, pt), Integer(pt) + [' '] + value;
            && AddFeedback(m, text) == Some(m.(rtpMaps := m.rtpMaps[pt := r.(rtcpFbs := r.rtcpFbs + [value])]))
            && AddParameters(m, text) == Some(m.(rtpMaps := m.rtpMaps[pt := r.(fmtps := r.fmtps + [value])]))
  {
    hide FormatFor, Integer, ToInt, Find, Behind;
    ValueRead(pt, value);
  }

  lemma ValueLineParsed(m: State, f: Field, pt: int, value: string)
    requires IsInt(pt) && (f == Feedback || f == Parameters)
    ensures var line := AttributeLine(Attribute(f, Integer(pt) + [' '] + value));
            var r := FormatFor(m, pt);
            ParseLine(m, line) ==
            Some(m.(rtpMaps := m.rtpMaps[pt := if f == Feedback then r.(rtcpFbs := r.rtcpFbs + [value])
                                               else r.(fmtps := r.fmtps + [value])]))
  {
    hide *;
    FieldParsed(m, f, Integer(pt) + [' '] + value);
    ValueAdded(m, pt, value);
  }

  /** The lines of one of the lists append their values to the format's list. */
  lemma {:induction false} ValueLinesParsed(m: State, f: Field, pt: int, values: seq<string>)
    requires IsInt(pt) && (f == Feedback || f == Parameters) && pt in m.rtpMaps
    ensures var r := m.rtpMaps[pt];
            ParseAll(m, ValueLines(f, pt, values)) ==
            Some(m.(rtpMaps := m.rtpMaps[pt := if f == Feedback then r.(rtcpFbs := r.rtcpFbs + values)
                                               else r.(fmtps := r.fmtps + values)]))
    decreases |values|
  {
    hide ParseLine, AttributeLine, Attribute, Integer;
    var r := m.rtpMaps[pt];
    if values == [] {
      assert r.rtcpFbs + values == r.rtcpFbs && r.fmtps + values == r.fmtps;
      assert m.rtpMaps[pt := r] == m.rtpMaps;
    } else {
      var v, rest := values[0], values[1..];
      var s := if f == Feedback then r.(rtcpFbs := r.rtcpFbs + [v]) else r.(fmtps := r.fmtps + [v]);
      var t := m.(rtpMaps := m.rtpMaps[pt := s]);
      ValueLineParsed(m, f, pt, v);
      ValueLinesParsed(t, f, pt, rest);
      ParseAllCons(m, AttributeLine(Attribute(f, Integer(pt) + [' '] + v)), t, ValueLines(f, pt, rest));
      SplitFirst(values);
      ConcatAssociative(r.rtcpFbs, [v], rest);
      ConcatAssociative(r.fmtps, [v], rest);
      var u := if f == Feedback then r.(rtcpFbs := r.rtcpFbs + values) else r.(fmtps := r.fmtps + values);
      assert t.rtpMaps[pt := u] == m.rtpMaps[pt := u];
    }
  }

  lemma FormatSet(m: State, r: RtpMap)
    requires IsInt(r.payloadType) && IsInt(r.clockRate) && '/' !in r.format && r.payloadType !in m.rtpMaps
    ensures SetFormat(m, PrintRtpMap(r)) == Some(m.(rtpMaps := m.rtpMaps[r.payloadType := r.(rtcpFbs := [], fmtps := [])]))
  {
    hide PrintRtpMap, SetRtpMap, ToInt, Find;
    RtpMapRead(r);
    RtpMapTypeRead(r);
  }

  lemma FormatLineParsed(m: State, r: RtpMap)
    requires IsInt(r.payloadType) && IsInt(r.clockRate) && '/' !in r.format && r.payloadType !in m.rtpMaps
    ensures ParseLine(m, AttributeLine(Attribute(Format, PrintRtpMap(r)))) ==
            Some(m.(rtpMaps := m.rtpMaps[r.payloadType := r.(rtcpFbs := [], fmtps := [])]))
  {
    hide *;
    FieldParsed(m, Format, PrintRtpMap(r));
    FormatSet(m, r);
  }

  lemma FormatLinesParsed(m: State, r: RtpMap)
    requires IsInt(r.payloadType) && IsInt(r.clockRate) && '/' !in r.format && r.payloadType !in m.rtpMaps
    ensures ParseAll(m, FormatLines(r)) == Some(m.(rtpMaps := m.rtpMaps[r.payloadType := r]))
  {
    hide ParseLine, ParseAll, AttributeLine, Attribute, PrintRtpMap, ValueLines;
    var pt := r.payloadType;
    var line := AttributeLine(Attribute(Format, PrintRtpMap(r)));
    var fbs, fmtps := ValueLines(Feedback, pt, r.rtcpFbs), ValueLines(Parameters, pt, r.fmtps);
    var t := m.(rtpMaps := m.rtpMaps[pt := r.(rtcpFbs := [], fmtps := [])]);
    FormatLineParsed(m, r);
    ConcatAssociative([line], fbs, fmtps);
    ParseAllCons(m, line, t, fbs + fmtps);
    ValueLinesParsed(t, Feedback, pt, r.rtcpFbs);
    assert [] + r.rtcpFbs == r.rtcpFbs && [] + r.fmtps == r.fmtps;
    var u := t.(rtpMaps := t.rtpMaps[pt := r.(fmtps := [])]);
    ParseAllAppend(t, fbs, fmtps);
    ValueLinesParsed(u, Parameters, pt, r.fmtps);
    assert u.rtpMaps[pt := r] == m.rtpMaps[pt := r];
  }

  lemma {:induction false} RtpLinesParsed(m: State, table: map<int, RtpMap>, order: seq<int>)
    requires PrintableRtpMaps(table) && (forall i :: 0 <= i < |order| ==> order[i] in table && order[i] !in m.rtpMaps)
    requires forall i, j :: 0 <= i < j < |order| ==> order[i] != order[j]
    ensures ParseAll(m, RtpLines(table, order)) == Some(m.(rtpMaps := Extended(m.rtpMaps, table, order)))
    decreases |order|
  {
    if order != [] {
      var k, rest := order[0], order[1..];
      FormatLinesParsed(m, table[k]);
      hide ParseLine, FormatLines;
      var t := m.(rtpMaps := m.rtpMaps[k := table[k]]);
      assert forall i :: 0 <= i < |rest| ==> rest[i] == order[i + 1];
      RtpLinesParsed(t, table, rest);
      ParseAllAppend(m, FormatLines(table[k]), RtpLines(table, rest));
    }
  }

  // ----- Round trip -----

  /** Everything but what follows from the sources, and whether the section is removed. */
  predicate SameMedia(a: State, b: State)
  {
    && a.mid == b.mid && a.direction == b.direction && a.bitrate == b.bitrate && a.attributes == b.attributes
    && a.extMaps == b.extMaps && a.rtpMaps == b.rtpMaps
  }

  predicate Printable(m: State)
  {
    && -1 <= m.bitrate && IsInt(m.bitrate)
    && PrintableExtMaps(m.extMaps) && PrintableRtpMaps(m.rtpMaps) && PrintableAttributes(m.attributes)
  }

  const FRESH := State([], Unknown, false, -1, [], map[], map[], [], map[])

  lemma BitrateParsed(m: State, bitrate: int)
    requires -1 <= bitrate && IsInt(bitrate) && m.bitrate == -1
    ensures ParseAll(m, BitrateLines(bitrate)) == Some(m.(bitrate := bitrate))
  {
    if bitrate >= 0 {
      var line := BITRATE + [':'] + Integer(bitrate);
      CutAt(BITRATE, ':', Integer(bitrate));
      PayloadTypeRead(bitrate);
      assert BITRATE <= line && !("a=" <= line);
      hide Integer, ToInt, Find;
      ParseOne(m, line);
    }
  }

  lemma MidParsed(m: State, mid: string)
    ensures ParseAll(m, [AttributeLine(Attribute(Mid, mid))]) == Some(m.(mid := mid))
  {
    FieldRead(Mid, mid);
    AttributeLineParsed(m, Attribute(Mid, mid));
    hide ParseLine, AttributeLine, Attribute, KindOf, ValueOf;
    ParseOne(m, AttributeLine(Attribute(Mid, mid)));
  }

  lemma DirectionParsed(m: State, d: Direction)
    requires m.direction == Unknown
    ensures ParseAll(m, DirectionLines(d)) == Some(m.(direction := d))
  {
    if d != Unknown {
      DirectionRead(d);
      AttributeLineParsed(m, DirectionName(d));
      hide ParseLine, AttributeLine, DirectionName, KindOf, ValueOf;
      ParseOne(m, AttributeLine(DirectionName(d)));
    }
  }

  lemma MuxParsed(m: State)
    ensures ParseAll(m, [AttributeLine(FieldName(Mux))]) == Some(m)
  {
    MuxRead();
    AttributeLineParsed(m, FieldName(Mux));
    hide ParseLine, AttributeLine, FieldName, KindOf, ValueOf;
    ParseOne(m, AttributeLine(FieldName(Mux)));
  }

  /** Attributes are appended in order; those of sources are recorded besides. */
  lemma {:induction false} AttributesParsed(m: State, attributes: seq<string>)
    requires PrintableAttributes(attributes)
    ensures var t := ParseAll(m, AttributeLines(attributes));
            t.Some? &&
            t.value == m.(attributes := m.attributes + attributes, ssrcs := t.value.ssrcs, cnames := t.value.cnames)
    decreases |attributes|
  {
    hide ParseLine, AttributeLine, KindOf, ValueOf, ToUnsigned, FindText;
    if attributes == [] {
      assert m.attributes + attributes == m.attributes;
    } else {
      var a, rest := attributes[0], attributes[1..];
      AttributeLineParsed(m, a);
      var t := ParseAttribute(m, a).value;
      assert ParseAttribute(m, a).Some?;
      assert t == m.(attributes := m.attributes + [a], ssrcs := t.ssrcs, cnames := t.cnames);
      hide ParseAttribute;
      AttributesParsed(t, rest);
      ParseAllCons(m, AttributeLine(a), t, AttributeLines(rest));
      SplitFirst(attributes);
      ConcatAssociative(m.attributes, [a], rest);
    }
  }

  /**
   Feeding the lines of a media section one by one to the parser of a fresh one rebuilds it: identifier,
   direction, bitrate, attributes, header extensions, and formats with their lists in order.
   */
  lemma MediaRoundTrip(m: State, lines: seq<string>)
    requires Printable(m) && AreLinesOf(m, lines)
    ensures var t := ParseAll(FRESH, lines);
            t.Some? && SameMedia(t.value, m)
  {
    hide Printable, SameMedia, MediaLines, ParseAll, Ascends;
    var extOrder, rtpOrder :| AreLinesIn(m, lines, extOrder, rtpOrder);
    AscendingEnumerates(extOrder, m.extMaps.Keys);
    AscendingEnumerates(rtpOrder, m.rtpMaps.Keys);
    LinesParsed(m, extOrder, rtpOrder);
  }

  lemma AscendingEnumerates(order: seq<int>, keys: set<int>)
    requires Ascends(order, keys)
    ensures Enumerates(order, keys)
  {}

  /** It does not matter in which order the tables are walked through. */
  lemma LinesParsed(m: State, extOrder: seq<int>, rtpOrder: seq<int>)
    requires Printable(m) && Enumerates(extOrder, m.extMaps.Keys) && Enumerates(rtpOrder, m.rtpMaps.Keys)
    ensures var t := ParseAll(FRESH, MediaLines(m, extOrder, rtpOrder));
            t.Some? && SameMedia(t.value, m)
  {
    hide ParseAll, ExtLines, RtpLines, AttributeLines, AttributeLine, Attribute, BitrateLines, DirectionLines,
         PrintableExtMaps, PrintableRtpMaps, PrintableAttributes;
    var e, r := ExtLines(m.extMaps, extOrder), RtpLines(m.rtpMaps, rtpOrder);
    var a, d := AttributeLines(m.attributes), DirectionLines(m.direction);
    var b, i, x := BitrateLines(m.bitrate), [AttributeLine(Attribute(Mid, m.mid))], [AttributeLine(FieldName(Mux))];
    BitrateParsed(FRESH, m.bitrate);
    var s1 := FRESH.(bitrate := m.bitrate);
    ParseAllAppend(FRESH, b, i + (e + (d + (a + (x + r)))));
    MidParsed(s1, m.mid);
    var s2 := s1.(mid := m.mid);
    ParseAllAppend(s1, i, e + (d + (a + (x + r))));
    ExtLinesParsed(s2, m.extMaps, extOrder);
    ExtendedIsSource(m.extMaps, extOrder);
    var s3 := s2.(extMaps := m.extMaps);
    ParseAllAppend(s2, e, d + (a + (x + r)));
    DirectionParsed(s3, m.direction);
    var s4 := s3.(direction := m.direction);
    ParseAllAppend(s3, d, a + (x + r));
    AttributesParsed(s4, m.attributes);
    var s5 := ParseAll(s4, a).value;
    assert [] + m.attributes == m.attributes;
    ParseAllAppend(s4, a, x + r);
    MuxParsed(s5);
    ParseAllAppend(s5, x, r);
    RtpLinesParsed(s5, m.rtpMaps, rtpOrder);
    ExtendedIsSource(m.rtpMaps, rtpOrder);
  }

  // ----- The object -----

  lemma Smallest(keys: set<int>) returns (k: int)
    requires keys != {}
    ensures k in keys && forall x :: x in keys ==> k <= x
    decreases |keys|
  {
    k := Element(keys);
    if x :| x in keys && x < k {
      var others := keys - {k};
      assert x in others && keys == others + {k};
      var bound := k;
      k := Smallest(others);
      assert k <= x < bound;
    }
  }

  class Media {
    var mid: string
    var direction: Direction
    var removed: bool
    var bitrate: int
    var attributes: seq<string>
    var extMaps: map<int, ExtMap>
    var rtpMaps: map<int, RtpMap>
    var ssrcs: seq<int>
    var cnames: map<int, string>

    ghost function View(): State
      reads this
    {
      State(mid, direction, removed, bitrate, attributes, extMaps, rtpMaps, ssrcs, cnames)
    }

    constructor (mid: string, direction: Direction, removed: bool)
      ensures View() == FRESH.(mid := mid, direction := direction, removed := removed)
    {
      this.mid, this.direction, this.removed, bitrate := mid, direction, removed, -1;
      attributes, extMaps, rtpMaps, ssrcs, cnames := [], map[], map[], [], map[];
    }

    /** False stands for the exception; then an entry that was there before may be changed in part. */
    method ParseSdpLine(line: string) returns (parsed: bool)
      modifies this
      ensures ParseLine(old(View()), line).Some? == parsed
      ensures parsed ==> ParseLine(old(View()), line) == Some(View())
    {
      hide KindOf, ValueOf, SetExtMap, SetRtpMap, ToInt, ToUnsigned, FindText, Find, Behind;
      if "a=" <= line {
        parsed := ParseAttributeText(line[2..]);
      } else if BITRATE <= line {
        var value := ToInt(Behind(line, ':'));
        if value == None {
          return false;
        }
        bitrate := value.value;
        return true;
      } else {
        return true;
      }
    }

    method ParseAttributeText(attr: string) returns (parsed: bool)
      modifies this
      ensures ParseAttribute(old(View()), attr).Some? == parsed
      ensures parsed ==> ParseAttribute(old(View()), attr) == Some(View())
    {
      hide KindOf, ValueOf, SetExtMap, SetRtpMap, ToInt, ToUnsigned, FindText, Find, Behind;
      var value := ValueOf(attr);
      match KindOf(attr)
      case Known(Format) =>
        var pt := ToInt(value[..Find(value, ' ')]);
        if pt == None {
          return false;
        }
        var r := SetRtpMap(if pt.value in rtpMaps then rtpMaps[pt.value] else NewRtpMap(0), value);
        if r == None {
          return false;
        }
        rtpMaps := rtpMaps[pt.value := r.value];
        return true;
      case Known(Feedback) =>
        parsed := AddValue(value, true);
      case Known(Parameters) =>
        parsed := AddValue(value, false);
      case Known(Mux) =>
        return true;
      case Known(Source) =>
        var ssrc := ToUnsigned(value);
        if ssrc == None {
          return false;
        }
        if ssrc.value !in ssrcs {
          ssrcs := ssrcs + [ssrc.value];
        }
        var k := FindText(value, CNAME);
        if k + 6 <= |value| && ssrc.value !in cnames {
          cnames := cnames[ssrc.value := value[k + 6..]];
        }
        attributes := attributes + [attr];
        return true;
      case Known(Mid) =>
        mid := value;
        return true;
      case Known(Extension) =>
        var id := ToInt(value[..Find(value, ' ')]);
        if id == None {
          return false;
        }
        var e := SetExtMap(if id.value in extMaps then extMaps[id.value] else NO_EXT_MAP, value);
        if e == None {
          return false;
        }
        extMaps := extMaps[id.value := e.value];
        return true;
      case Known(BundleOnly) =>
        removed := false;
        return true;
      case Directed(d) =>
        direction := d;
        return true;
      case Other =>
        attributes := attributes + [attr];
        return true;
    }

    /** A feedback or parameter line; a format that is not known yet is made without a name. */
    method AddValue(value: string, feedback: bool) returns (parsed: bool)
      modifies this`rtpMaps
      ensures var t := if feedback then AddFeedback(old(View()), value) else AddParameters(old(View()), value);
              t.Some? == parsed && (parsed ==> t == Some(View()))
    {
      hide ToInt, Find, Behind;
      var pt := ToInt(value[..Find(value, ' ')]);
      if pt == None {
        return false;
      }
      var r := if pt.value in rtpMaps then rtpMaps[pt.value] else NewRtpMap(pt.value);
      if feedback {
        r := r.(rtcpFbs := r.rtcpFbs + [Behind(value, ' ')]);
      } else {
        r := r.(fmtps := r.fmtps + [Behind(value, ' ')]);
      }
      rtpMaps := rtpMaps[pt.value := r];
      return true;
    }

    /** The lines of the media section, with the tables in ascending order of their keys. */
    method GenerateSdpLines() returns (lines: seq<string>)
      ensures AreLinesOf(View(), lines)
    {
      hide AttributeLine, Attribute, Integer, FieldName, DirectionName, ExtLines, RtpLines, AttributeLines;
      lines := [];
      if bitrate >= 0 {
        lines := lines + [BITRATE + [':'] + Integer(bitrate)];
      }
      var entry, exts := GenerateEntryLines();
      var formats := Ascending(rtpMaps);
      var rtp := GenerateFormats(rtpMaps, formats);
      EntryAndRest([AttributeLine(Attribute(Mid, mid))], ExtLines(extMaps, exts), DirectionLines(direction),
                   AttributeLines(attributes), [AttributeLine(FieldName(Mux))] + rtp);
      lines := lines + (entry + ([AttributeLine(FieldName(Mux))] + rtp));
      assert AreLinesIn(View(), lines, exts, formats);
    }

    /** The lines that all kinds of sections have. */
    method GenerateEntryLines() returns (lines: seq<string>, order: seq<int>)
      ensures Ascends(order, extMaps.Keys)
      ensures lines == [AttributeLine(Attribute(Mid, mid))] + ExtLines(extMaps, order) + DirectionLines(direction) +
                       AttributeLines(attributes)
    {
      hide AttributeLine, Attribute, PrintExtMap, DirectionName;
      order := Ascending(extMaps);
      var exts := [];
      for i := 0 to |order|
        invariant exts + ExtLines(extMaps, order[i..]) == ExtLines(extMaps, order)
      {
        assert order[i..][1..] == order[i + 1..];
        var line := AttributeLine(Attribute(Extension, PrintExtMap(extMaps[order[i]])));
        ConcatAssociative(exts, [line], ExtLines(extMaps, order[i + 1..]));
        exts := exts + [line];
      }
      var others := [];
      for i := 0 to |attributes|
        invariant others + AttributeLines(attributes[i..]) == AttributeLines(attributes)
      {
        assert attributes[i..][1..] == attributes[i + 1..];
        ConcatAssociative(others, [AttributeLine(attributes[i])], AttributeLines(attributes[i + 1..]));
        others := others + [AttributeLine(attributes[i])];
      }
      lines := [AttributeLine(Attribute(Mid, mid))] + exts;
      if direction != Unknown {
        lines := lines + [AttributeLine(DirectionName(direction))];
      }
      lines := lines + others;
    }
  }

  lemma EntryAndRest(mid: seq<string>, exts: seq<string>, direction: seq<string>, attributes: seq<string>, rest: seq<string>)
    ensures (mid + exts + direction + attributes) + rest == mid + (exts + (direction + (attributes + rest)))
  {}

  /** The keys of a map in ascending order. */
  method Ascending<T>(table: map<int, T>) returns (order: seq<int>)
    ensures Ascends(order, table.Keys)
  {
    order := [];
    var rest := table.Keys;
    while rest != {}
      invariant rest <= table.Keys
      invariant forall i :: 0 <= i < |order| ==> order[i] in table && order[i] !in rest
      invariant forall k :: k in table.Keys ==> k in rest || k in order
      invariant forall i, x :: 0 <= i < |order| && x in rest ==> order[i] < x
      invariant forall i, j :: 0 <= i < j < |order| ==> order[i] < order[j]
      decreases |rest|
    {
      ghost var least := Smallest(rest);
      assert least in rest && forall x :: x in rest ==> least <= x;
      var k :| k in rest && forall x :: x in rest ==> k <= x;
      order := order + [k];
      rest := rest - {k};
    }
  }

  method GenerateFormats(table: map<int, RtpMap>, order: seq<int>) returns (lines: seq<string>)
    requires forall i :: 0 <= i < |order| ==> order[i] in table
    ensures lines == RtpLines(table, order)
  {
    hide AttributeLine, Attribute, PrintRtpMap, ValueLines;
    lines := [];
    for i := 0 to |order|
      invariant lines + RtpLines(table, order[i..]) == RtpLines(table, order)
    {
      assert order[i..][1..] == order[i + 1..];
      var r := table[order[i]];
      var fbs := GenerateValues(Feedback, r.payloadType, r.rtcpFbs);
      var fmtps := GenerateValues(Parameters, r.payloadType, r.fmtps);
      var all := [AttributeLine(Attribute(Format, PrintRtpMap(r)))] + fbs + fmtps;
      ConcatAssociative(lines, all, RtpLines(table, order[i + 1..]));
      lines := lines + all;
    }
  }

  method GenerateValues(f: Field, payloadType: int, values: seq<string>) returns (lines: seq<string>)
    ensures lines == ValueLines(f, payloadType, values)
  {
    hide AttributeLine, Attribute, Integer;
    lines := [];
    for i := 0 to |values|
      invariant lines + ValueLines(f, payloadType, values[i..]) == ValueLines(f, payloadType, values)
    {
      assert values[i..][1..] == values[i + 1..];
      var line := AttributeLine(Attribute(f, Integer(payloadType) + [' '] + values[i]));
      ConcatAssociative(lines, [line], ValueLines(f, payloadType, values[i + 1..]));
      lines := lines + [line];
    }
  }
}
