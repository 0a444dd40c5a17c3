/**
 The text of a media section: its lines with line ends behind them, as they are printed and read again.
 */
module SdpText {
  import opened Bytes
  import opened Http
  import opened Numbers
  import opened SdpMedia

  /** The line ends that are printed. */
  lemma LineEnds()
    ensures IsEol("\r\n") && IsEol("\n")
  {}

  function Trimmed(line: string): (s: string)
  {
    if line != [] && IsSpace(line[|line| - 1]) then Trimmed(line[..|line| - 1]) else line
  }

  function TextOf(lines: seq<string>, eol: string): (text: string)
  {
    if lines == [] then [] else lines[0] + eol + TextOf(lines[1..], eol)
  }

  /** The lines of a text, without white space at their ends, and without the empty ones. */
  function ReadLines(text: string): (lines: seq<string>)
    decreases |text|
  {
    var k := Find(text, '\n');
    var line := Trimmed(text[..k]);
    (if line == [] then [] else [line]) + if k == |text| then [] else ReadLines(text[k + 1..])
  }

  /** The section that a text is read as; without an identifier, and for lines that cannot be read, the exception. */
  function ReadMedia(text: string): (m: Option<State>)
  {
    var t := ParseAll(FRESH, ReadLines(text));
    if t == None || t.value.mid == [] then None else t
  }

  // ----- Lines that are read back -----

  /** A line feed, perhaps behind other white space. */
  predicate IsEol(eol: string)
  {
    && eol != [] && eol[|eol| - 1] == '\n'
    && forall i :: 0 <= i < |eol| - 1 ==> IsSpace(eol[i]) && eol[i] != '\n'
  }

  /** Nothing of the text is lost at the end of a line. */
  predicate Tidy(s: string)
  {
    '\n' !in s && (s == [] || !IsSpace(s[|s| - 1]))
  }

  predicate Clean(line: string)
  {
    line != [] && Tidy(line)
  }

  predicate AllClean(lines: seq<string>)
  {
    forall i :: 0 <= i < |lines| ==> Clean(lines[i])
  }

  lemma {:induction false} TrimmedIsTidy(line: string)
    ensures '\n' !in line ==> Tidy(Trimmed(line))
    ensures Trimmed(line) <= line
  {
    if line != [] && IsSpace(line[|line| - 1]) {
      TrimmedIsTidy(line[..|line| - 1]);
    }
  }

  lemma {:induction false} TrimmedAll(line: string, blanks: string)
    requires Tidy(line) && forall i :: 0 <= i < |blanks| ==> IsSpace(blanks[i])
    ensures Trimmed(line + blanks) == line
    decreases |blanks|
  {
    if blanks == [] {
      assert line + blanks == line;
    } else {
      TrimmedAll(line, blanks[..|blanks| - 1]);
      assert (line + blanks)[..|line + blanks| - 1] == line + blanks[..|blanks| - 1];
    }
  }

  lemma ReadStep(line: string, eol: string, rest: string)
    requires Clean(line) && IsEol(eol)
    ensures ReadLines(line + eol + rest) == [line] + ReadLines(rest)
  {
    var blanks := eol[..|eol| - 1];
    var front := line + blanks;
    var text := line + eol + rest;
    assert text == front + ['\n'] + rest;
    assert '\n' !in front;
    FindIs(front, '\n', rest);
    TrimmedAll(line, blanks);
    assert text[..|front|] == front && text[|front| + 1..] == rest;
  }

  lemma {:induction false} CleanIsRead(lines: seq<string>, eol: string)
    requires AllClean(lines) && IsEol(eol)
    ensures ReadLines(TextOf(lines, eol)) == lines
    decreases |lines|
  {
    if lines == [] {
      assert ReadLines([]) == [];
    } else {
      CleanIsRead(lines[1..], eol);
      ReadStep(lines[0], eol, TextOf(lines[1..], eol));
    }
  }

  /** Whatever is read has no line end in it, none at its end, and no empty line. */
  lemma FirstRow(text: string)
    ensures var k, line := Find(text, '\n'), Trimmed(text[..Find(text, '\n')]);
            ReadLines(text) ==
            (if line == [] then [] else [line]) + (if k == |text| then [] else ReadLines(text[k + 1..]))
  {
    hide Find, Trimmed;
  }

  lemma RowIsTidy(text: string)
    ensures Tidy(Trimmed(text[..Find(text, '\n')]))
  {
    TrimmedIsTidy(text[..Find(text, '\n')]);
  }

  lemma {:induction false} ReadIsClean(text: string)
    ensures AllClean(ReadLines(text))
    decreases |text|
  {
    hide Find, Trimmed, Tidy, ReadLines;
    var k := Find(text, '\n');
    FirstRow(text);
    RowIsTidy(text);
    if k < |text| {
      ReadIsClean(text[k + 1..]);
    }
  }

  /** The lines of a text are read back exactly when none is empty, has a line feed, or ends with white space. */
  lemma LinesReadExactly(lines: seq<string>, eol: string)
    requires IsEol(eol)
    ensures ReadLines(TextOf(lines, eol)) == lines <==> AllClean(lines)
  {
    ReadIsClean(TextOf(lines, eol));
    if AllClean(lines) {
      CleanIsRead(lines, eol);
    }
  }

  // ----- Fields that are read back -----

  predicate TidyExtMap(e: ExtMap)
  {
    if e.attributes == [] then e.uri != [] && Tidy(e.uri) else '\n' !in e.uri && Tidy(e.attributes)
  }

  /** Feedback and parameter values. */
  predicate TidyValues(values: seq<string>)
  {
    forall i :: 0 <= i < |values| ==> Clean(values[i])
  }

  predicate TidyRtpMap(r: RtpMap)
  {
    '\n' !in r.format && Tidy(r.encParams) && TidyValues(r.rtcpFbs) && TidyValues(r.fmtps)
  }

  predicate TidyAttributes(attributes: seq<string>)
  {
    forall i :: 0 <= i < |attributes| ==> Tidy(attributes[i])
  }

  /**
   No field has a line feed, and those at the end of a line neither end with white space nor are empty
   behind a space.
   */
  predicate TidyFields(m: State)
  {
    && Tidy(m.mid) && TidyAttributes(m.attributes)
    && (forall k :: k in m.extMaps ==> TidyExtMap(m.extMaps[k]))
    && (forall k :: k in m.rtpMaps ==> TidyRtpMap(m.rtpMaps[k]))
  }

  /** What stands at the end decides, behind a part that is fine as it is. */
  lemma TidyBehind(front: string, s: string)
    ensures '\n' !in front && s != [] ==> (Tidy(front + s) <==> Tidy(s)) && (Clean(front + s) <==> Tidy(s))
    ensures '\n' in front ==> !Tidy(front + s)
  {
    if s != [] {
      assert (front + s)[|front + s| - 1] == s[|s| - 1];
    }
  }

  lemma TidyFront(front: string, s: string)
    requires Clean(front)
    ensures Clean(front + s) <==> Tidy(s)
  {
    TidyBehind(front, s);
    assert s == [] ==> front + s == front;
  }

  lemma {:induction false} DecimalEnds(n: nat)
    ensures Decimal(n) != [] && IsDigit(Decimal(n)[|Decimal(n)| - 1])
  {
    DecimalIsDigits(n);
  }

  lemma IntegerIsClean(n: int)
    ensures Clean(Integer(n))
  {
    IntegerHasNo(n, '\n');
    DecimalEnds(if n < 0 then -n else n);
  }

  lemma NamesAreClean(f: Field, d: Direction)
    ensures Clean(FieldName(f)) && Clean(DirectionName(d)) && Clean("a=") && Clean(BITRATE)
  {}

  lemma AttributeLineClean(attr: string)
    ensures Clean(AttributeLine(attr)) <==> Tidy(attr)
  {
    NamesAreClean(Mid, Unknown);
    TidyFront("a=", attr);
  }

  lemma ValueLineClean(f: Field, value: string)
    ensures Clean(AttributeLine(Attribute(f, value))) <==> Tidy(value)
  {
    AttributeLineClean(Attribute(f, value));
    NamesAreClean(f, Unknown);
    var name := FieldName(f);
    hide FieldName, AttributeLine;
    TidyBehind(name, [':']);
    TidyFront(name + [':'], value);
    TidyBehind(name + [':'], value);
    assert name + [':'] + value == Attribute(f, value);
  }

  /** A number or a direction, a space, and the rest of the line. */
  lemma RestClean(front: string, rest: string)
    requires Clean(front)
    ensures Tidy(front + [' '] + rest) <==> rest != [] && Tidy(rest)
  {
    TidyBehind(front + [' '], rest);
    if rest == [] {
      var s := front + [' '] + rest;
      assert s[|s| - 1] == ' ';
    }
  }

  lemma ExtMapClean(e: ExtMap)
    ensures Tidy(PrintExtMap(e)) <==> TidyExtMap(e)
  {
    var id := Integer(e.id);
    IntegerIsClean(e.id);
    NamesAreClean(Mid, e.direction);
    var name := DirectionName(e.direction);
    hide DirectionName, Integer;
    TidyBehind(['/'], name);
    TidyFront(id, ['/'] + name);
    var front := id + if e.direction == Unknown then [] else ['/'] + name;
    assert Clean(front) by { assert id + [] == id; }
    var rest := e.uri + if e.attributes == [] then [] else [' '] + e.attributes;
    assert PrintExtMap(e) == front + [' '] + rest;
    RestClean(front, rest);
    if e.attributes == [] {
      assert rest == e.uri;
    } else {
      assert rest == e.uri + [' '] + e.attributes;
      TidyBehind(e.uri + [' '], e.attributes);
    }
  }

  lemma RtpMapClean(r: RtpMap)
    ensures Tidy(PrintRtpMap(r)) <==> '\n' !in r.format && Tidy(r.encParams)
  {
    var pt, rate := Integer(r.payloadType), Integer(r.clockRate);
    IntegerIsClean(r.payloadType);
    IntegerIsClean(r.clockRate);
    hide Integer;
    var front := pt + [' '] + r.format + ['/'];
    var tail := rate + if r.encParams == [] then [] else ['/'] + r.encParams;
    assert PrintRtpMap(r) == front + tail;
    assert Tidy(tail) <==> Tidy(r.encParams) by {
      if r.encParams == [] {
        assert tail == rate;
      } else {
        TidyFront(rate, ['/'] + r.encParams);
        TidyBehind(['/'], r.encParams);
      }
    }
    TidyBehind(front, tail);
    assert '\n' in front <==> '\n' in r.format;
  }

  // ----- Sections that are read back -----

  lemma AllCleanAppend(a: seq<string>, b: seq<string>)
    ensures AllClean(a + b) <==> AllClean(a) && AllClean(b)
  {
    var s := a + b;
    assert forall i :: 0 <= i < |a| ==> s[i] == a[i];
    assert forall i :: 0 <= i < |b| ==> s[|a| + i] == b[i];
    if AllClean(a) && AllClean(b) {
      forall i | 0 <= i < |s| ensures Clean(s[i]) {
        assert s[i] == if i < |a| then a[i] else b[i - |a|];
      }
    }
  }

  lemma AllCleanCons(line: string, rest: seq<string>)
    ensures AllClean([line] + rest) <==> Clean(line) && AllClean(rest)
  {
    assert [line][0] == line;
    AllCleanAppend([line], rest);
  }

  lemma {:induction false} AttributesClean(attributes: seq<string>)
    ensures AllClean(AttributeLines(attributes)) <==> TidyAttributes(attributes)
    decreases |attributes|
  {
    if attributes != [] {
      AttributesClean(attributes[1..]);
      AttributeLineClean(attributes[0]);
      AllCleanCons(AttributeLine(attributes[0]), AttributeLines(attributes[1..]));
      SplitFirst(attributes);
      hide Tidy, Clean, AllClean, AttributeLine;
    }
  }

  lemma {:induction false} ValuesClean(f: Field, payloadType: int, values: seq<string>)
    ensures AllClean(ValueLines(f, payloadType, values)) <==> TidyValues(values)
    decreases |values|
  {
    if values != [] {
      var value := Integer(payloadType) + [' '] + values[0];
      ValuesClean(f, payloadType, values[1..]);
      IntegerIsClean(payloadType);
      RestClean(Integer(payloadType), values[0]);
      ValueLineClean(f, value);
      AllCleanCons(AttributeLine(Attribute(f, value)), ValueLines(f, payloadType, values[1..]));
      SplitFirst(values);
      hide Tidy, AllClean, AttributeLine, Attribute, Integer;
    }
  }

  lemma FormatClean(r: RtpMap)
    ensures AllClean(FormatLines(r)) <==> TidyRtpMap(r)
  {
    RtpMapClean(r);
    ValueLineClean(Format, PrintRtpMap(r));
    ValuesClean(Feedback, r.payloadType, r.rtcpFbs);
    ValuesClean(Parameters, r.payloadType, r.fmtps);
    hide AllClean, AttributeLine, Attribute, PrintRtpMap, ValueLines, Tidy, TidyValues;
    var line := AttributeLine(Attribute(Format, PrintRtpMap(r)));
    AllCleanAppend([line] + ValueLines(Feedback, r.payloadType, r.rtcpFbs), ValueLines(Parameters, r.payloadType, r.fmtps));
    AllCleanCons(line, ValueLines(Feedback, r.payloadType, r.rtcpFbs));
  }

  lemma {:induction false} ExtClean(table: map<int, ExtMap>, order: seq<int>)
    requires forall i :: 0 <= i < |order| ==> order[i] in table
    ensures AllClean(ExtLines(table, order)) <==> forall k :: k in order ==> TidyExtMap(table[k])
    decreases |order|
  {
    if order != [] {
      var e := table[order[0]];
      ExtClean(table, order[1..]);
      ExtMapClean(e);
      ValueLineClean(Extension, PrintExtMap(e));
      AllCleanCons(AttributeLine(Attribute(Extension, PrintExtMap(e))), ExtLines(table, order[1..]));
      SplitFirst(order);
      hide AllClean, Clean, Tidy, TidyExtMap, AttributeLine, Attribute, PrintExtMap;
      assert forall k :: k in order <==> k == order[0] || k in order[1..];
    }
  }

  lemma {:induction false} RtpClean(table: map<int, RtpMap>, order: seq<int>)
    requires forall i :: 0 <= i < |order| ==> order[i] in table
    ensures AllClean(RtpLines(table, order)) <==> forall k :: k in order ==> TidyRtpMap(table[k])
    decreases |order|
  {
    if order != [] {
      RtpClean(table, order[1..]);
      FormatClean(table[order[0]]);
      AllCleanAppend(FormatLines(table[order[0]]), RtpLines(table, order[1..]));
      SplitFirst(order);
      hide AllClean, TidyRtpMap, FormatLines;
      assert forall k :: k in order <==> k == order[0] || k in order[1..];
    }
  }

  lemma BitrateClean(bitrate: int)
    ensures AllClean(BitrateLines(bitrate))
  {
    NamesAreClean(Mux, Unknown);
    IntegerIsClean(bitrate);
    TidyFront(BITRATE, [':'] + Integer(bitrate));
    TidyBehind([':'], Integer(bitrate));
    hide Integer, Tidy;
    var line := BITRATE + [':'] + Integer(bitrate);
    assert line == BITRATE + ([':'] + Integer(bitrate));
    assert Clean(line);
  }

  lemma DirectionClean(d: Direction)
    ensures AllClean(DirectionLines(d)) && Clean(AttributeLine(FieldName(Mux)))
  {
    NamesAreClean(Mux, d);
    AttributeLineClean(DirectionName(d));
    AttributeLineClean(FieldName(Mux));
    hide AttributeLine, DirectionName, FieldName;
  }

  lemma MediaLinesClean(m: State, extOrder: seq<int>, rtpOrder: seq<int>)
    requires Enumerates(extOrder, m.extMaps.Keys) && Enumerates(rtpOrder, m.rtpMaps.Keys)
    ensures AllClean(MediaLines(m, extOrder, rtpOrder)) <==> TidyFields(m)
  {
    BitrateClean(m.bitrate);
    DirectionClean(m.direction);
    ValueLineClean(Mid, m.mid);
    ExtClean(m.extMaps, extOrder);
    RtpClean(m.rtpMaps, rtpOrder);
    AttributesClean(m.attributes);
    hide AllClean, Clean, Tidy, TidyExtMap, TidyRtpMap, TidyAttributes, ExtLines, RtpLines, AttributeLines,
         AttributeLine, Attribute, BitrateLines, DirectionLines, FieldName;
    var e, r := ExtLines(m.extMaps, extOrder), RtpLines(m.rtpMaps, rtpOrder);
    var a, d := AttributeLines(m.attributes), DirectionLines(m.direction);
    var b, i, x := BitrateLines(m.bitrate), AttributeLine(Attribute(Mid, m.mid)), AttributeLine(FieldName(Mux));
    AllCleanCons(x, r);
    AllCleanAppend(a, [x] + r);
    AllCleanAppend(d, a + ([x] + r));
    AllCleanAppend(e, d + (a + ([x] + r)));
    AllCleanCons(i, e + (d + (a + ([x] + r))));
    AllCleanAppend(b, [i] + (e + (d + (a + ([x] + r)))));
  }

  /** The lines of a section's text are the generated ones exactly when its fields are tidy. */
  lemma SectionReadExactly(m: State, lines: seq<string>, eol: string)
    requires AreLinesOf(m, lines) && IsEol(eol)
    ensures ReadLines(TextOf(lines, eol)) == lines <==> TidyFields(m)
  {
    hide AllClean, TidyFields, MediaLines, IsEol, Ascends;
    var extOrder, rtpOrder :| AreLinesIn(m, lines, extOrder, rtpOrder);
    AscendingEnumerates(extOrder, m.extMaps.Keys);
    AscendingEnumerates(rtpOrder, m.rtpMaps.Keys);
    MediaLinesClean(m, extOrder, rtpOrder);
    LinesReadExactly(lines, eol);
  }

  // ----- What is read is tidy -----

  lemma SuffixIsTidy(s: string, k: nat)
    requires Tidy(s) && k <= |s|
    ensures Tidy(s[k..]) && (k < |s| ==> Clean(s[k..]))
  {
    assert k < |s| ==> s[k..][|s| - k - 1] == s[|s| - 1];
  }

  /** What is behind the first such character is not empty when the text does not end with white space. */
  lemma BehindSpace(s: string)
    requires Tidy(s)
    ensures Find(s, ' ') < |s| ==> Find(s, ' ') + 1 < |s| && Clean(s[Find(s, ' ') + 1..])
    ensures s != [] ==> Clean(Behind(s, ' '))
  {
    var k := Find(s, ' ');
    if k < |s| {
      assert k + 1 < |s|;
      SuffixIsTidy(s, k + 1);
    }
  }

  lemma ValueIsTidy(attr: string)
    requires Tidy(attr)
    ensures Tidy(ValueOf(attr))
  {
    if Find(attr, ':') < |attr| {
      SuffixIsTidy(attr, Find(attr, ':') + 1);
    }
  }

  lemma ExtMapStaysTidy(e: ExtMap, value: string)
    requires Tidy(value) && (e == NO_EXT_MAP || TidyExtMap(e))
    ensures SetExtMap(e, value).Some? ==> TidyExtMap(SetExtMap(e, value).value)
  {
    BehindSpace(value);
    var k := Find(value, ' ');
    if SetExtMap(e, value).Some? {
      var rest := value[k + 1..];
      BehindSpace(rest);
      hide ToInt, DirectionOf, Find;
      var d := SetIdAndDirection(e, value[..k]).value;
      assert d.uri == e.uri && d.attributes == e.attributes;
      hide SetIdAndDirection;
      assert SetExtMap(e, value) == Some(SetUri(d, rest));
    }
  }

  lemma ClockRateStaysTidy(r: RtpMap, line: string)
    requires Tidy(line) && TidyRtpMap(r)
    ensures SetClockRate(r, line).Some? ==> TidyRtpMap(SetClockRate(r, line).value)
  {
    hide ToInt, TidyValues, Tidy;
    var k := if Find(line, '/') == |line| then Find(line, ' ') else Find(line, '/');
    if k < |line| {
      SuffixIsTidy(line, k + 1);
    }
  }

  lemma PrefixHasNoLineFeed(s: string, k: nat)
    requires Tidy(s) && k <= |s|
    ensures '\n' !in s[..k]
  {}

  lemma RtpMapStaysTidy(r: RtpMap, value: string)
    requires Tidy(value) && TidyRtpMap(r)
    ensures SetRtpMap(r, value).Some? ==> TidyRtpMap(SetRtpMap(r, value).value)
  {
    hide ToInt, TidyValues, Tidy, SetClockRate;
    if SetRtpMap(r, value).Some? {
      var line := value[Find(value, ' ') + 1..];
      SuffixIsTidy(value, Find(value, ' ') + 1);
      var j := Find(line, '/');
      SuffixIsTidy(line, j + 1);
      PrefixHasNoLineFeed(line, j);
      ClockRateStaysTidy(r.(payloadType := ToInt(value[..Find(value, ' ')]).value, format := line[..j]), line[j + 1..]);
    }
  }

  lemma WithFormat(m: State, payloadType: int, r: RtpMap)
    requires TidyFields(m) && TidyRtpMap(r)
    ensures TidyFields(m.(rtpMaps := m.rtpMaps[payloadType := r]))
  {
    hide TidyRtpMap, TidyExtMap, TidyAttributes, Tidy;
  }

  lemma WithExtension(m: State, id: int, e: ExtMap)
    requires TidyFields(m) && TidyExtMap(e)
    ensures TidyFields(m.(extMaps := m.extMaps[id := e]))
  {
    hide TidyRtpMap, TidyExtMap, TidyAttributes, Tidy;
  }

  lemma WithAttribute(m: State, attr: string, ssrcs: seq<int>, cnames: map<int, string>)
    requires TidyFields(m) && Tidy(attr)
    ensures TidyFields(m.(attributes := m.attributes + [attr], ssrcs := ssrcs, cnames := cnames))
  {
    hide TidyRtpMap, TidyExtMap, Tidy;
  }

  lemma WithOther(m: State, mid: string, direction: Direction, removed: bool, bitrate: int)
    requires TidyFields(m) && Tidy(mid)
    ensures TidyFields(m.(mid := mid, direction := direction, removed := removed, bitrate := bitrate))
  {
    hide TidyRtpMap, TidyExtMap, TidyAttributes, Tidy;
  }

  lemma FormatIsTidy(m: State, payloadType: int)
    requires TidyFields(m)
    ensures TidyRtpMap(FormatFor(m, payloadType)) && Tidy(m.mid)
    ensures TidyRtpMap(if payloadType in m.rtpMaps then m.rtpMaps[payloadType] else NewRtpMap(0))
  {}

  lemma ValueKeepsTidy(m: State, value: string)
    requires Tidy(value) && TidyFields(m)
    ensures AddFeedback(m, value).Some? ==> TidyFields(AddFeedback(m, value).value)
    ensures AddParameters(m, value).Some? ==> TidyFields(AddParameters(m, value).value)
  {
    NothingIsNoNumber(value);
    BehindSpace(value);
    hide ToInt, Find, Behind, Tidy, TidyFields, FormatFor;
    var pt := ToInt(value[..Find(value, ' ')]);
    if pt.Some? {
      var r := FormatFor(m, pt.value);
      var v := Behind(value, ' ');
      FormatIsTidy(m, pt.value);
      WithFormat(m, pt.value, r.(rtcpFbs := r.rtcpFbs + [v]));
      WithFormat(m, pt.value, r.(fmtps := r.fmtps + [v]));
    }
  }

  lemma NothingIsNoNumber(value: string)
    ensures ToInt(value[..Find(value, ' ')]).Some? ==> value != []
  {}

  lemma FormatKeepsTidy(m: State, value: string)
    requires Tidy(value) && TidyFields(m)
    ensures SetFormat(m, value).Some? ==> TidyFields(SetFormat(m, value).value)
  {
    hide ToInt, Find, Tidy, TidyRtpMap, TidyFields, SetRtpMap, NewRtpMap;
    var pt := ToInt(value[..Find(value, ' ')]);
    if SetFormat(m, value).Some? {
      var r := if pt.value in m.rtpMaps then m.rtpMaps[pt.value] else NewRtpMap(0);
      FormatIsTidy(m, pt.value);
      RtpMapStaysTidy(r, value);
      WithFormat(m, pt.value, SetRtpMap(r, value).value);
    }
  }

  lemma ExtensionIsTidy(m: State, id: int)
    requires TidyFields(m)
    ensures id in m.extMaps ==> TidyExtMap(m.extMaps[id])
  {}

  lemma ExtensionKeepsTidy(m: State, value: string)
    requires Tidy(value) && TidyFields(m)
    ensures SetExtension(m, value).Some? ==> TidyFields(SetExtension(m, value).value)
  {
    hide ToInt, Find, Tidy, TidyExtMap, TidyFields, SetExtMap;
    var id := ToInt(value[..Find(value, ' ')]);
    if SetExtension(m, value).Some? {
      var e := if id.value in m.extMaps then m.extMaps[id.value] else NO_EXT_MAP;
      ExtensionIsTidy(m, id.value);
      ExtMapStaysTidy(e, value);
      WithExtension(m, id.value, SetExtMap(e, value).value);
    }
  }

  lemma AttributeKeepsTidy(m: State, attr: string)
    requires Tidy(attr) && TidyFields(m)
    ensures ParseAttribute(m, attr).Some? ==> TidyFields(ParseAttribute(m, attr).value)
  {
    hide ValueOf, KindOf, ToUnsigned, FindText, SetFormat, SetExtension, AddFeedback, AddParameters, Tidy, TidyFields;
    var value := ValueOf(attr);
    ValueIsTidy(attr);
    FormatIsTidy(m, 0);
    match KindOf(attr)
    case Known(Format) => FormatKeepsTidy(m, value);
    case Known(Feedback) => ValueKeepsTidy(m, value);
    case Known(Parameters) => ValueKeepsTidy(m, value);
    case Known(Mux) =>
    case Known(Source) =>
      if ParseAttribute(m, attr).Some? {
        var t := ParseAttribute(m, attr).value;
        WithAttribute(m, attr, t.ssrcs, t.cnames);
      }
    case Known(Mid) => WithOther(m, value, m.direction, m.removed, m.bitrate);
    case Known(Extension) => ExtensionKeepsTidy(m, value);
    case Known(BundleOnly) => WithOther(m, m.mid, m.direction, false, m.bitrate);
    case Directed(d) => WithOther(m, m.mid, d, m.removed, m.bitrate);
    case Other => WithAttribute(m, attr, m.ssrcs, m.cnames);
  }

  lemma FreshIsTidy(payloadType: int)
    ensures TidyRtpMap(NewRtpMap(0)) && TidyFields(FRESH)
  {}

  lemma LineKeepsTidy(m: State, line: string)
    requires Clean(line) && TidyFields(m)
    ensures ParseLine(m, line).Some? ==> TidyFields(ParseLine(m, line).value)
  {
    FormatIsTidy(m, 0);
    hide ParseAttribute, ToInt, TidyFields;
    if "a=" <= line {
      SuffixIsTidy(line, 2);
      AttributeKeepsTidy(m, line[2..]);
    } else if ParseLine(m, line).Some? {
      WithOther(m, m.mid, m.direction, m.removed, ParseLine(m, line).value.bitrate);
    }
  }

  lemma {:induction false} LinesKeepTidy(m: State, lines: seq<string>)
    requires AllClean(lines) && TidyFields(m)
    ensures ParseAll(m, lines).Some? ==> TidyFields(ParseAll(m, lines).value)
    decreases |lines|
  {
    if lines != [] {
      assert Clean(lines[0]);
      assert AllClean(lines[1..]);
      LineKeepsTidy(m, lines[0]);
      hide ParseLine, TidyFields, Clean;
      if ParseLine(m, lines[0]).Some? {
        LinesKeepTidy(ParseLine(m, lines[0]).value, lines[1..]);
      }
    }
  }

  /**
   A section with an identifier, whose fields are free of their delimiters, is rebuilt from its text exactly
   when they are tidy, whatever the line ends.
   */
  lemma TextRoundTripExactly(m: State, lines: seq<string>, eol: string)
    requires Printable(m) && m.mid != [] && AreLinesOf(m, lines) && IsEol(eol)
    ensures var t := ReadMedia(TextOf(lines, eol));
            t.Some? && SameMedia(t.value, m) <==> TidyFields(m)
  {
    var text := TextOf(lines, eol);
    if TidyFields(m) {
      TextRoundTrip(m, lines, eol);
    } else if ReadMedia(text).Some? && SameMedia(ReadMedia(text).value, m) {
      ReadIsClean(text);
      FreshIsTidy(0);
      LinesKeepTidy(FRESH, ReadLines(text));
    }
  }

  /**
   A section whose fields are tidy and free of their delimiters is rebuilt from its text, whatever the line
   ends; without an identifier it is refused.
   */
  lemma TextRoundTrip(m: State, lines: seq<string>, eol: string)
    requires Printable(m) && TidyFields(m) && AreLinesOf(m, lines) && IsEol(eol)
    ensures var t := ReadMedia(TextOf(lines, eol));
            && (t.Some? <==> m.mid != [])
            && (t.Some? ==> SameMedia(t.value, m))
  {
    SectionReadExactly(m, lines, eol);
    MediaRoundTrip(m, lines);
    hide ParseAll, ReadLines, TextOf, AreLinesOf, Printable, TidyFields;
  }

  /** What is behind a line feed in the identifier is lost: it becomes a line of its own that nobody looks at. */
  lemma LineFeedIsLost(x: string, y: string, eol: string)
    requires Clean(x) && Clean(y) && !("a=" <= y) && !(BITRATE <= y) && IsEol(eol)
    ensures var m := FRESH.(mid := x + ['\n'] + y);
            && Printable(m) && !TidyFields(m)
            && AreLinesOf(m, MediaLines(m, [], []))
            && ReadMedia(TextOf(MediaLines(m, [], []), eol)) == Some(FRESH.(mid := x))
  {
    var line, mux := AttributeLine(Attribute(Mid, x)), AttributeLine(FieldName(Mux));
    SectionWithMid(x + ['\n'] + y);
    LongLine(x, y);
    ValueLineClean(Mid, x);
    DirectionClean(Unknown);
    MidParsed(FRESH, x);
    MuxParsed(FRESH.(mid := x));
    assert ParseLine(FRESH.(mid := x), y) == Some(FRESH.(mid := x));
    hide MediaLines, AttributeLine, Attribute, FieldName, ParseLine, ReadLines, TextOf, Printable, AreLinesOf, ParseAll;
    ParseThree(line, y, mux, FRESH.(mid := x));
    ThreeLines(line, y, mux, eol);
  }

  lemma SectionWithMid(mid: string)
    ensures var m := FRESH.(mid := mid);
            && Printable(m) && AreLinesOf(m, MediaLines(m, [], []))
            && MediaLines(m, [], []) == [AttributeLine(Attribute(Mid, mid)), AttributeLine(FieldName(Mux))]
  {
    hide AttributeLine, Attribute, FieldName;
    var m := FRESH.(mid := mid);
    assert AreLinesIn(m, MediaLines(m, [], []), [], []);
  }

  lemma ThreeLines(line: string, y: string, mux: string, eol: string)
    requires Clean(line) && Clean(y) && Clean(mux) && IsEol(eol)
    ensures ReadLines(TextOf([line + ['\n'] + y, mux], eol)) == [line, y, mux]
  {
    hide Clean, ReadLines, TextOf;
    TextOfTwo(line, y, mux, eol);
    NothingRead();
    assert IsEol(['\n']);
    hide IsEol;
    ReadStep(mux, eol, []);
    ReadStep(y, eol, mux + eol + []);
    ReadStep(line, ['\n'], y + eol + (mux + eol + []));
  }

  lemma LongLine(x: string, y: string)
    ensures AttributeLine(Attribute(Mid, x + ['\n'] + y)) == AttributeLine(Attribute(Mid, x)) + ['\n'] + y
  {}

  lemma NothingRead()
    ensures ReadLines([]) == []
  {}

  lemma TextOfTwo(line: string, y: string, mux: string, eol: string)
    ensures TextOf([line + ['\n'] + y, mux], eol) == line + ['\n'] + (y + eol + (mux + eol + []))
  {
    var lines := [line + ['\n'] + y, mux];
    assert lines[1..] == [mux] && [mux][1..] == [];
    assert TextOf([mux], eol) == mux + eol + [];
    assert TextOf(lines, eol) == line + ['\n'] + y + eol + TextOf([mux], eol);
  }

  lemma ParseThree(line: string, y: string, mux: string, t: State)
    requires ParseAll(FRESH, [line]) == Some(t) && ParseLine(t, y) == Some(t) && ParseAll(t, [mux]) == Some(t)
    ensures ParseAll(FRESH, [line, y, mux]) == Some(t)
  {
    hide ParseLine;
    ParseOne(t, y);
    ParseAllAppend(FRESH, [line], [y] + [mux]);
    ParseAllAppend(t, [y], [mux]);
    assert [line] + ([y] + [mux]) == [line, y, mux];
  }

  // ----- Printing and reading -----

  lemma {:induction false} TextSnoc(lines: seq<string>, last: string, eol: string)
    ensures TextOf(lines + [last], eol) == TextOf(lines, eol) + (last + eol)
    decreases |lines|
  {
    if lines == [] {
      assert [last][1..] == [];
    } else {
      assert (lines + [last])[1..] == lines[1..] + [last];
      TextSnoc(lines[1..], last, eol);
      ConcatAssociative(lines[0] + eol, TextOf(lines[1..], eol), last + eol);
    }
  }

  method GenerateText(media: Media, eol: string) returns (sdp: string, ghost lines: seq<string>)
    ensures AreLinesOf(media.View(), lines) && sdp == TextOf(lines, eol)
  {
    var printed := media.GenerateSdpLines();
    assert TextOf(printed[..0], eol) == [];
    hide *;
    sdp := [];
    for i := 0 to |printed|
      invariant sdp == TextOf(printed[..i], eol)
    {
      TextSnoc(printed[..i], printed[i], eol);
      assert printed[..i + 1] == printed[..i] + [printed[i]];
      sdp := sdp + (printed[i] + eol);
    }
    assert printed[..|printed|] == printed;
    lines := printed;
  }

  method TrimEnd(line: string) returns (s: string)
    ensures s == Trimmed(line)
  {
    s := line;
    while s != [] && IsSpace(s[|s| - 1])
      invariant Trimmed(s) == Trimmed(line)
      decreases |s|
    {
      s := s[..|s| - 1];
    }
  }

  /** The constructor that reads a section from its text; false stands for the exception. */
  method ReadText(sdp: string) returns (media: Media, read: bool)
    ensures fresh(media)
    ensures read == ReadMedia(sdp).Some?
    ensures read ==> ReadMedia(sdp) == Some(media.View())
  {
    media := new Media([], Unknown, false);
    var rest, more := sdp, true;
    while more
      invariant fresh(media)
      invariant ParseAll(FRESH, ReadLines(sdp)) ==
                if more then ParseAll(media.View(), ReadLines(rest)) else Some(media.View())
      decreases more, |rest|
    {
      var k := Find(rest, '\n');
      var line := TrimEnd(rest[..k]);
      ReadOne(media.View(), rest);
      more := k < |rest|;
      rest := if more then rest[k + 1..] else [];
      if line != [] {
        var parsed := media.ParseSdpLine(line);
        if !parsed {
          return media, false;
        }
      }
    }
    read := media.mid != [];
  }

  /** Reading the first line, and then the others if there is a line feed. */
  lemma ReadOne(m: State, text: string)
    ensures var k, line := Find(text, '\n'), Trimmed(text[..Find(text, '\n')]);
            var t := if line == [] then Some(m) else ParseLine(m, line);
            ParseAll(m, ReadLines(text)) ==
            if t == None then None else if k == |text| then t else ParseAll(t.value, ReadLines(text[k + 1..]))
  {
    hide *;
    var k, line := Find(text, '\n'), Trimmed(text[..Find(text, '\n')]);
    var rest := if k == |text| then [] else ReadLines(text[k + 1..]);
    FirstRow(text);
    if line != [] {
      ParseOne(m, line);
      ParseAllAppend(m, [line], rest);
      NothingParsed(if ParseLine(m, line) == None then m else ParseLine(m, line).value);
    } else {
      assert [] + rest == rest;
      NothingParsed(m);
    }
  }

  lemma NothingParsed(m: State)
    ensures ParseAll(m, []) == Some(m)
  {}
}
