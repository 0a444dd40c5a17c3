/**
 The lines of a media section by their letters (RFC 8866 sections 5.8 and 6, RFC 8285 section 5), apart from the tables
 of names that the printer and the parser share.
 */
module SdpTexts {
  import opened Bytes
  import opened Http
  import opened Numbers
  import opened SdpMedia

  // ----- What is printed -----

  lemma ShortLines(value: string)
    ensures AttributeLine(Attribute(Mid, value)) == "a=mid:" + value
    ensures AttributeLine(Attribute(Parameters, value)) == "a=fmtp:" + value
    ensures AttributeLine(Attribute(Format, value)) == "a=rtpmap:" + value
  {}

  lemma LongLines(value: string)
    ensures AttributeLine(Attribute(Extension, value)) == "a=extmap:" + value
    ensures AttributeLine(Attribute(Feedback, value)) == "a=rtcp-fb:" + value
    ensures AttributeLine(value) == "a=" + value
  {}

  /** The lines without a value. */
  lemma DirectionTexts()
    ensures DirectionLines(SendOnly) == ["a=sendonly"]
    ensures DirectionLines(RecvOnly) == ["a=recvonly"]
    ensures DirectionLines(SendRecv) == ["a=sendrecv"]
    ensures DirectionLines(Inactive) == ["a=inactive"]
    ensures DirectionLines(Unknown) == []
  {
    assert "a=" + "sendonly" == "a=sendonly" && "a=" + "recvonly" == "a=recvonly";
    assert "a=" + "sendrecv" == "a=sendrecv" && "a=" + "inactive" == "a=inactive";
  }

  lemma MuxText()
    ensures AttributeLine(FieldName(Mux)) == "a=rtcp-mux"
  {}

  lemma BitrateText(bitrate: int)
    ensures BitrateLines(bitrate) == if bitrate >= 0 then ["b=AS:" + Integer(bitrate)] else []
  {
    hide Integer;
    assert BITRATE + [':'] == "b=AS:";
  }

  /** A header extension: its number, perhaps a direction, its name, and perhaps attributes. */
  lemma ExtMapText(id: int, uri: string, attributes: string)
    ensures PrintExtMap(ExtMap(id, uri, [], Unknown)) == Integer(id) + " " + uri
    ensures PrintExtMap(ExtMap(id, uri, [], SendOnly)) == Integer(id) + "/sendonly" + " " + uri
    ensures PrintExtMap(ExtMap(id, uri, [], RecvOnly)) == Integer(id) + "/recvonly" + " " + uri
    ensures attributes != [] ==>
              PrintExtMap(ExtMap(id, uri, attributes, Unknown)) == Integer(id) + " " + uri + " " + attributes
  {
    hide Integer;
    assert ['/'] + "sendonly" == "/sendonly" && ['/'] + "recvonly" == "/recvonly";
    assert Integer(id) + [] == Integer(id) && uri + [] == uri;
    assert Integer(id) + [' '] + uri + [] == Integer(id) + [' '] + uri;
    assert Integer(id) + [' '] + uri + ([' '] + attributes) == Integer(id) + " " + uri + " " + attributes;
  }

  /** A format: its number, its name, its clock rate, and perhaps parameters. */
  lemma RtpMapText(pt: int, format: string, clockRate: int, encParams: string)
    ensures PrintRtpMap(RtpMap(pt, format, clockRate, [], [], [])) == Integer(pt) + " " + format + "/" + Integer(clockRate)
    ensures encParams != [] ==>
              PrintRtpMap(RtpMap(pt, format, clockRate, encParams, [], [])) ==
              Integer(pt) + " " + format + "/" + Integer(clockRate) + "/" + encParams
  {
    hide Integer;
    var text := Integer(pt) + " " + format + "/" + Integer(clockRate);
    assert text + [] == text;
    assert text + (['/'] + encParams) == text + "/" + encParams;
  }

  /** A whole section, in the order of its lines. */
  lemma SectionText(uri: string, format: string, feedback: string, parameters: string, attribute: string)
    ensures var m := State("v", SendOnly, false, 500, [attribute], map[2 := ExtMap(2, uri, [], Unknown)],
                           map[96 := RtpMap(96, format, 90000, [], [feedback], [parameters])], [], map[]);
            MediaLines(m, [2], [96]) ==
            ["b=AS:" + Integer(500), "a=mid:" + "v", "a=extmap:" + (Integer(2) + " " + uri), "a=sendonly", "a=" + attribute,
             "a=rtcp-mux", "a=rtpmap:" + PrintRtpMap(RtpMap(96, format, 90000, [], [feedback], [parameters])),
             "a=rtcp-fb:" + (Integer(96) + " " + feedback), "a=fmtp:" + (Integer(96) + " " + parameters)]
  {
    var e, r := ExtMap(2, uri, [], Unknown), RtpMap(96, format, 90000, [], [feedback], [parameters]);
    BitrateText(500);
    ShortLines("v");
    ExtMapText(2, uri, []);
    LongLines(PrintExtMap(e));
    DirectionTexts();
    LongLines(attribute);
    MuxText();
    ShortLines(PrintRtpMap(r));
    LongLines(Integer(96) + [' '] + feedback);
    ShortLines(Integer(96) + [' '] + parameters);
    hide Integer, PrintExtMap, PrintRtpMap, AttributeLine, Attribute, FieldName, DirectionLines, BitrateLines;
    OneOfEach(e, r, feedback, parameters, attribute);
  }

  lemma OneOfEach(e: ExtMap, r: RtpMap, feedback: string, parameters: string, attribute: string)
    requires r.rtcpFbs == [feedback] && r.fmtps == [parameters]
    ensures ExtLines(map[2 := e], [2]) == [AttributeLine(Attribute(Extension, PrintExtMap(e)))]
    ensures RtpLines(map[96 := r], [96]) ==
            [AttributeLine(Attribute(Format, PrintRtpMap(r))),
             AttributeLine(Attribute(Feedback, Integer(r.payloadType) + [' '] + feedback)),
             AttributeLine(Attribute(Parameters, Integer(r.payloadType) + [' '] + parameters))]
    ensures AttributeLines([attribute]) == [AttributeLine(attribute)]
  {
    hide Integer, PrintExtMap, PrintRtpMap, AttributeLine, Attribute;
    assert [2][1..] == [] && [96][1..] == [] && [feedback][1..] == [] && [parameters][1..] == [] && [attribute][1..] == [];
  }

  // ----- What is read -----

  /** The two lines that are only read: a source with its name, and the mark of a bundled section. */
  lemma OnlyRead(m: State, cname: string)
    requires 5 !in m.ssrcs && 5 !in m.cnames
    ensures ParseLine(m, "a=bundle-only") == Some(m.(removed := false))
    ensures ParseLine(m, "a=ssrc:5 cname:" + cname) ==
            Some(m.(ssrcs := m.ssrcs + [5], cnames := m.cnames[5 := cname],
                    attributes := m.attributes + ["ssrc:5 cname:" + cname]))
  {
    BundleOnlyRead(m);
    SourceRead(m, cname);
  }

  lemma NinetySix(value: string)
    ensures Integer(96) + [' '] + value == "96 " + value
  {
    assert Decimal(9) == ['9'] && Decimal(96) == Decimal(9) + ['6'];
    assert Integer(96) == "96";
  }

  lemma ValueTexts(value: string)
    ensures AttributeLine(Attribute(Feedback, Integer(96) + [' '] + value)) == "a=rtcp-fb:96 " + value
    ensures AttributeLine(Attribute(Parameters, Integer(96) + [' '] + value)) == "a=fmtp:96 " + value
  {
    NinetySix(value);
    ShortLines("96 " + value);
    LongLines("96 " + value);
    hide Integer, AttributeLine, Attribute;
    assert "a=rtcp-fb:" + ("96 " + value) == "a=rtcp-fb:96 " + value;
    assert "a=fmtp:" + ("96 " + value) == "a=fmtp:96 " + value;
  }

  lemma FormatIsNew(m: State, pt: int)
    requires pt !in m.rtpMaps
    ensures FormatFor(m, pt) == RtpMap(pt, "", 0, "", [], [])
  {}

  /** A feedback or parameter line for a format that is not known yet makes one with nothing but its type. */
  lemma ValueBeforeFormat(m: State, value: string)
    requires 96 !in m.rtpMaps
    ensures ParseLine(m, "a=rtcp-fb:96 " + value) ==
            Some(m.(rtpMaps := m.rtpMaps[96 := RtpMap(96, "", 0, "", [value], [])]))
    ensures ParseLine(m, "a=fmtp:96 " + value) ==
            Some(m.(rtpMaps := m.rtpMaps[96 := RtpMap(96, "", 0, "", [], [value])]))
  {
    assert IsInt(96);
    hide *;
    ValueTexts(value);
    FormatIsNew(m, 96);
    ValueLineParsed(m, Feedback, 96, value);
    ValueLineParsed(m, Parameters, 96, value);
    assert [] + [value] == [value];
  }

  lemma BundleKind()
    ensures KindOf(FieldName(BundleOnly)) == Known(BundleOnly)
  {
    hide FieldName, DirectionName, Find;
    var attr := FieldName(BundleOnly);
    NameHasNoColon(BundleOnly);
    CutAt(attr, ':', []);
    assert attr[..|attr|] == attr;
    AllNamesDiffer();
    DirectionsDiffer(SendOnly, BundleOnly);
    DirectionsDiffer(RecvOnly, BundleOnly);
    DirectionsDiffer(SendRecv, BundleOnly);
    DirectionsDiffer(Inactive, BundleOnly);
  }

  lemma BundleOnlyText()
    ensures AttributeLine(FieldName(BundleOnly)) == "a=bundle-only"
  {}

  lemma BundleOnlyRead(m: State)
    ensures ParseLine(m, "a=bundle-only") == Some(m.(removed := false))
  {
    BundleOnlyText();
    BundleKind();
    AttributeLineParsed(m, FieldName(BundleOnly));
    hide FieldName, DirectionName, ParseLine, Find, ValueOf, KindOf, AttributeLine;
  }

  lemma SourceRead(m: State, cname: string)
    requires 5 !in m.ssrcs && 5 !in m.cnames
    ensures ParseLine(m, "a=ssrc:5 cname:" + cname) ==
            Some(m.(ssrcs := m.ssrcs + [5], cnames := m.cnames[5 := cname],
                    attributes := m.attributes + ["ssrc:5 cname:" + cname]))
  {
    var value := "5 cname:" + cname;
    var attr := Attribute(Source, value);
    assert FieldName(Source) == "ssrc";
    assert attr == "ssrc:5 cname:" + cname;
    assert "a=ssrc:5 cname:" + cname == AttributeLine(attr);
    FieldRead(Source, value);
    AttributeLineParsed(m, attr);
    NumberOfSource(value);
    NameOfSource(value, cname);
    hide FieldName, Attribute, AttributeLine, ParseLine, KindOf, ValueOf, ToUnsigned, FindText;
  }

  lemma NumberOfSource(value: string)
    requires |value| > 1 && value[0] == '5' && value[1] == ' '
    ensures ToUnsigned(value) == Some(5)
  {
    assert LeadingNumber(value[1..], 5) == 5;
    assert SkipWhite(value) == value;
  }

  lemma NameOfSource(value: string, cname: string)
    requires value == "5 cname:" + cname
    ensures FindText(value, CNAME) == 2 && value[8..] == cname && |value| >= 8
  {
    assert value[0] == '5' && value[1] == ' ' && value[2..] == CNAME + cname;
    assert value[1..][1..] == value[2..];
    assert CNAME <= value[2..] && CNAME[0] == 'c';
    assert FindText(value[2..], CNAME) == 0;
    assert FindText(value[1..], CNAME) == 1;
    assert value[2..][6..] == cname;
  }
}
