/** The echo runtime's multipart parser over a byte buffer, against the serialisation of section
    5.1.1 of RFC 2046. The two regular expressions are parameters here. */
module Multipart {
  import opened Options

  /** A buffer read with the binary encoding: one character per byte. */
  type Bytes = seq<char>

  const DASHES: Bytes := "--"
  const CRLF: Bytes := "\r\n"
  const BLANK: Bytes := "\r\n\r\n"

  // ----- searching -----

  /** `p` occurs in `s` at `i`. */
  predicate At(s: Bytes, p: Bytes, i: nat)
    decreases |p|
  {
    if p == [] then i <= |s| else i < |s| && s[i] == p[0] && At(s, p[1..], i + 1)
  }

  lemma {:induction false} AtSlice(s: Bytes, p: Bytes, i: nat)
    ensures At(s, p, i) <==> i + |p| <= |s| && s[i..i + |p|] == p
    decreases |p|
  {
    if p != [] && i < |s| {
      AtSlice(s, p[1..], i + 1);
      if i + |p| <= |s| {
        assert s[i..i + |p|] == [s[i]] + s[i + 1..i + |p|];
        assert p == [p[0]] + p[1..];
      }
    }
  }

  lemma AtPair(s: Bytes, p: Bytes, i: nat)
    requires |p| == 2
    ensures At(s, p, i) <==> i + 2 <= |s| && s[i] == p[0] && s[i + 1] == p[1]
  {
    AtSlice(s, p, i);
    if i + 2 <= |s| {
      assert s[i..i + 2] == [s[i], s[i + 1]] && p == [p[0], p[1]];
    }
  }

  /** The first occurrence at or after `from`. */
  function IndexOf(s: Bytes, p: Bytes, from: nat): (r: Option<nat>)
    ensures r.Some? ==> from <= r.value && r.value + |p| <= |s|
    decreases |s| - from
  {
    if from + |p| > |s| then None
    else if At(s, p, from) then Some(from)
    else IndexOf(s, p, from + 1)
  }

  /** What is found is an occurrence. */
  lemma {:induction false} IndexOfSound(s: Bytes, p: Bytes, from: nat)
    ensures IndexOf(s, p, from).Some? ==> At(s, p, IndexOf(s, p, from).value)
    decreases |s| - from
  {
    if from + |p| <= |s| && !At(s, p, from) {
      IndexOfSound(s, p, from + 1);
    }
  }

  /** `i` is the first occurrence at or after `from`. */
  ghost predicate First(s: Bytes, p: Bytes, from: nat, i: nat) {
    from <= i && At(s, p, i) && forall j: nat :: from <= j < i ==> !At(s, p, j)
  }

  lemma {:induction false} IndexIsFirst(s: Bytes, p: Bytes, from: nat, i: nat)
    requires First(s, p, from, i)
    ensures IndexOf(s, p, from) == Some(i)
    decreases i - from
  {
    AtSlice(s, p, i);
    if from < i {
      IndexIsFirst(s, p, from + 1, i);
    }
  }

  // ----- the parser -----

  datatype File = File(name: string, mimeType: string, content: Bytes)

  /** What the expressions extract from a part: the file name if it has one, and the type. */
  datatype Patterns = Patterns(filename: Bytes -> Option<string>, mimeType: Bytes -> string)

  /** The file a part holds, if its header names one and ends. */
  function FileIn(part: Bytes, re: Patterns): Option<File> {
    var name, start := re.filename(part), IndexOf(part, BLANK, 0);
    if name.Some? && start.Some? then Some(File(name.value, re.mimeType(part), part[start.value + 4..]))
    else None
  }

  /** The loop from `pos` on. */
  function Scan(s: Bytes, marker: Bytes, re: Patterns, pos: nat): Option<File>
    requires |marker| > 0
    decreases |s| - pos, 0
  {
    if pos >= |s| then None
    else
      var next := IndexOf(s, marker, pos);
      if next.None? then None
      else
        var file := FileIn(s[pos..next.value], re);
        if file.Some? then file else Resume(s, marker, re, next.value + |marker|)
  }

  /** The loop after a delimiter: it ends at the closing one, and skips the line end. */
  function Resume(s: Bytes, marker: Bytes, re: Patterns, pos: nat): Option<File>
    requires |marker| > 0
    decreases |s| - pos, 1
  {
    if At(s, DASHES, pos) then None
    else Scan(s, marker, re, if At(s, CRLF, pos) then pos + 2 else pos)
  }

  /** The file in the bytes between two delimiters. */
  method ExtractFile(body: Bytes, pos: nat, next: nat, re: Patterns) returns (file: Option<File>)
    requires pos <= next <= |body|
    ensures file == FileIn(body[pos..next], re)
  {
    var part := body[pos..next];
    var name := re.filename(part);
    if name.None? { return None; }
    var mimeType := re.mimeType(part);
    var bodyStart := IndexOf(part, BLANK, 0);
    if bodyStart.None? { return None; }
    var content := body[pos + bodyStart.value + 4..next];
    assert content == part[bodyStart.value + 4..];
    return Some(File(name.value, mimeType, content));
  }

  method FindFile(body: Bytes, marker: Bytes, re: Patterns, start: nat) returns (file: Option<File>)
    requires |marker| > 0
    ensures file == Scan(body, marker, re, start)
  {
    var pos := start;
    while pos < |body|
      invariant Scan(body, marker, re, start) == Scan(body, marker, re, pos)
      decreases |body| - pos
    {
      var next := IndexOf(body, marker, pos);
      if next.None? { return None; }
      file := ExtractFile(body, pos, next.value, re);
      if file.Some? { return; }
      pos := next.value + |marker|;
      if At(body, DASHES, pos) { return None; }
      if At(body, CRLF, pos) { pos := pos + 2; }
    }
    return None;
  }

  method ParseMultipart(body: Bytes, re: Patterns) returns (file: Option<File>)
    ensures file == Parse(body, re)
  {
    var firstDash := IndexOf(body, DASHES, 0);
    if firstDash.None? { return None; }
    var eol := IndexOf(body, CRLF, firstDash.value);
    if eol.None? { return None; }
    BoundaryLine(body);
    var boundary := body[firstDash.value + 2..eol.value];
    file := FindFile(body, CRLF + DASHES + boundary, re, eol.value + 2);
  }

  /** The first two bytes found are dashes, so the line end comes after them. */
  lemma BoundaryLine(s: Bytes)
    ensures var dash := IndexOf(s, DASHES, 0);
            dash.Some? ==>
              var eol := IndexOf(s, CRLF, dash.value);
              eol.Some? ==> eol.value >= dash.value + 2
  {
    var dash := IndexOf(s, DASHES, 0);
    IndexOfSound(s, DASHES, 0);
    if dash.Some? {
      IndexOfSound(s, CRLF, dash.value);
      AtPair(s, DASHES, dash.value);
      var eol := IndexOf(s, CRLF, dash.value);
      if eol.Some? { AtPair(s, CRLF, eol.value); }
    }
  }

  function Parse(body: Bytes, re: Patterns): Option<File> {
    var firstDash := IndexOf(body, DASHES, 0);
    if firstDash.None? then None
    else
      var eol := IndexOf(body, CRLF, firstDash.value);
      if eol.None? then None
      else
        BoundaryLine(body);
        Scan(body, CRLF + DASHES + body[firstDash.value + 2..eol.value], re, eol.value + 2)
  }

  // ----- the serialiser -----

  datatype Part = Part(header: Bytes, content: Bytes)

  function Text(p: Part): Bytes {
    p.header + "\r\n\r\n" + p.content
  }

  /** Every part after the first delimiter, and the closing delimiter. */
  function SerializeFrom(parts: seq<Part>, boundary: Bytes, epilogue: Bytes): Bytes {
    if parts == [] then "--" + epilogue
    else "\r\n" + Text(parts[0]) + ("\r\n" + "--" + boundary) + SerializeFrom(parts[1..], boundary, epilogue)
  }

  function Serialize(preamble: Bytes, parts: seq<Part>, boundary: Bytes, epilogue: Bytes): Bytes {
    preamble + (("--" + boundary) + SerializeFrom(parts, boundary, epilogue))
  }

  ghost predicate Absent(p: Bytes, s: Bytes) {
    forall i: nat :: !At(s, p, i)
  }

  /** The header's blank line is the first one, and no line of the part starts with the
      delimiter. */
  ghost predicate WellFormed(p: Part, boundary: Bytes) {
    && Absent(BLANK, p.header + BLANK[..3])
    && Absent(CRLF + DASHES + boundary, Text(p))
  }

  /** What should come back: the first part that names a file, with its exact bytes. */
  function FirstFile(parts: seq<Part>, re: Patterns): Option<File> {
    if parts == [] then None
    else
      var name := re.filename(Text(parts[0]));
      if name.Some? then Some(File(name.value, re.mimeType(Text(parts[0])), parts[0].content))
      else FirstFile(parts[1..], re)
  }

  lemma {:induction false} AtShift(whole: Bytes, a: Bytes, s: Bytes, p: Bytes, i: nat)
    requires whole == a + s
    ensures At(whole, p, |a| + i) <==> At(s, p, i)
    decreases |p|
  {
    if p != [] && i < |s| {
      AtShift(whole, a, s, p[1..], i + 1);
    }
  }

  lemma AtPrefix(whole: Bytes, s: Bytes, t: Bytes, p: Bytes, i: nat)
    requires whole == s + t && i + |p| <= |s|
    ensures At(whole, p, i) <==> At(s, p, i)
  {
    AtSlice(whole, p, i);
    AtSlice(s, p, i);
    assert whole[i..i + |p|] == s[i..i + |p|];
  }

  lemma FirstShift(whole: Bytes, a: Bytes, s: Bytes, p: Bytes, i: nat)
    requires whole == a + s && First(s, p, 0, i)
    ensures First(whole, p, |a|, |a| + i)
  {
    AtShift(whole, a, s, p, i);
    forall j: nat | |a| <= j < |a| + i ensures !At(whole, p, j) {
      AtShift(whole, a, s, p, j - |a|);
    }
  }

  /** A part's header ends where it should, so the bytes after it are the content. */
  lemma HeaderEnds(p: Part, boundary: Bytes)
    requires WellFormed(p, boundary)
    ensures First(Text(p), BLANK, 0, |p.header|)
    ensures Text(p)[|p.header| + 4..] == p.content
  {
    var t, lead := Text(p), p.header + BLANK[..3];
    assert t == lead + ([BLANK[3]] + p.content);
    assert t[|p.header|..|p.header| + 4] == BLANK;
    AtSlice(t, BLANK, |p.header|);
    forall j: nat | j < |p.header| ensures !At(t, BLANK, j) {
      AtPrefix(t, lead, [BLANK[3]] + p.content, BLANK, j);
    }
  }

  /** No delimiter starts inside a part, not even one that runs on into the real delimiter. */
  lemma DelimiterFirst(s: Bytes, text: Bytes, marker: Bytes, rest: Bytes)
    requires |marker| > 1 && marker[0] == '\r' && '\r' !in marker[1..]
    requires Absent(marker, text) && s == text + (marker + rest)
    ensures First(s, marker, 0, |text|)
  {
    assert s[|text|..|text| + |marker|] == marker;
    AtSlice(s, marker, |text|);
    forall j: nat | j < |text| ensures !At(s, marker, j) {
      if j + |marker| <= |text| {
        AtPrefix(s, text, marker + rest, marker, j);
      } else {
        var k := |text| - j;
        assert marker[k] == marker[1..][k - 1];
        AtSlice(s, marker, j);
        assert s[j + k] == marker[0];
        assert j + |marker| <= |s| ==> s[j..j + |marker|][k] == s[j + k];
      }
    }
  }

  /** The file a well-formed part holds is its content, byte for byte. */
  lemma PartFile(p: Part, boundary: Bytes, re: Patterns)
    requires WellFormed(p, boundary)
    ensures FileIn(Text(p), re) == FirstFile([p], re)
  {
    HeaderEnds(p, boundary);
    IndexIsFirst(Text(p), BLANK, 0, |p.header|);
  }

  lemma DelimiterAfter(s: Bytes, done: Bytes, p: Part, rest: Bytes, boundary: Bytes, marker: Bytes)
    requires '\r' !in boundary && WellFormed(p, boundary) && marker == CRLF + DASHES + boundary
    requires s == done + (Text(p) + (marker + rest))
    ensures IndexOf(s, marker, |done|) == Some(|done| + |Text(p)|)
    ensures s[|done|..|done| + |Text(p)|] == Text(p)
  {
    var text := Text(p);
    DelimiterFirst(text + (marker + rest), text, marker, rest);
    FirstShift(s, done, text + (marker + rest), marker, |text|);
    IndexIsFirst(s, marker, |done|, |done| + |text|);
  }

  /** One turn of the loop at the start of a part. */
  lemma ScanPart(s: Bytes, done: Bytes, p: Part, rest: Bytes, boundary: Bytes, marker: Bytes, re: Patterns)
    requires '\r' !in boundary && WellFormed(p, boundary) && marker == CRLF + DASHES + boundary
    requires s == done + (Text(p) + (marker + rest))
    ensures Scan(s, marker, re, |done|) ==
            var file := FirstFile([p], re);
            if file.Some? then file else Resume(s, marker, re, |done| + |Text(p)| + |marker|)
  {
    DelimiterAfter(s, done, p, rest, boundary, marker);
    PartFile(p, boundary, re);
  }

  lemma AfterDelimiter(s: Bytes, done: Bytes, tail: Bytes, marker: Bytes, re: Patterns)
    requires s == done + tail && |tail| >= 2 && |marker| > 0
    ensures tail[..2] == DASHES ==> Resume(s, marker, re, |done|) == None
    ensures tail[..2] == CRLF ==> Resume(s, marker, re, |done|) == Scan(s, marker, re, |done| + 2)
  {
    AtPair(s, DASHES, |done|);
    AtPair(s, CRLF, |done|);
    assert tail[..2] == [tail[0], tail[1]];
  }

  lemma Regroup(s: Bytes, done: Bytes, text: Bytes, marker: Bytes, rest: Bytes)
    requires s == done + (CRLF + (text + (marker + rest)))
    ensures s == (done + CRLF) + (text + (marker + rest))
    ensures s == (done + CRLF + text + marker) + rest
    ensures |done + CRLF + text + marker| == |done + CRLF| + |text| + |marker|
    ensures (CRLF + (text + (marker + rest)))[..2] == CRLF
  {
  }

  /** From just after a delimiter: the next part's file, or on after its delimiter. */
  lemma ResumePart(s: Bytes, done: Bytes, p: Part, rest: Bytes, boundary: Bytes, marker: Bytes, re: Patterns)
    requires '\r' !in boundary && WellFormed(p, boundary) && marker == CRLF + DASHES + boundary
    requires s == done + (CRLF + (Text(p) + (marker + rest)))
    ensures var done' := done + CRLF + Text(p) + marker;
            && s == done' + rest
            && Resume(s, marker, re, |done|) ==
                 if FirstFile([p], re).Some? then FirstFile([p], re) else Resume(s, marker, re, |done'|)
  {
    Regroup(s, done, Text(p), marker, rest);
    AfterDelimiter(s, done, CRLF + (Text(p) + (marker + rest)), marker, re);
    ScanPart(s, done + CRLF, p, rest, boundary, marker, re);
  }

  /** From just after a delimiter, the loop finds the first file of the parts that follow. */
  lemma {:induction false} ScanParts(s: Bytes, done: Bytes, parts: seq<Part>,
                                     boundary: Bytes, marker: Bytes, epilogue: Bytes, re: Patterns)
    requires '\r' !in boundary && forall p :: p in parts ==> WellFormed(p, boundary)
    requires marker == CRLF + DASHES + boundary && s == done + SerializeFrom(parts, boundary, epilogue)
    ensures Resume(s, marker, re, |done|) == FirstFile(parts, re)
    decreases |parts|
  {
    if parts == [] {
      var tail := DASHES + epilogue;
      assert tail[..2] == DASHES;
      AfterDelimiter(s, done, tail, marker, re);
    } else {
      var p, rest := parts[0], SerializeFrom(parts[1..], boundary, epilogue);
      assert p in parts;
      ResumePart(s, done, p, rest, boundary, marker, re);
      ScanParts(s, done + CRLF + Text(p) + marker, parts[1..], boundary, marker, epilogue, re);
    }
  }

  /** No two dashes in the preamble, nor one at its end running into the delimiter's own. */
  ghost predicate Dashless(preamble: Bytes) {
    Absent(DASHES, preamble + "-")
  }

  lemma FirstDashes(s: Bytes, preamble: Bytes, rest: Bytes)
    requires Dashless(preamble) && s == preamble + (DASHES + rest)
    ensures First(s, DASHES, 0, |preamble|)
  {
    AtPair(s, DASHES, |preamble|);
    forall j: nat | j < |preamble| ensures !At(s, DASHES, j) {
      AtPair(s, DASHES, j);
      AtPair(preamble + "-", DASHES, j);
    }
  }

  lemma DashesIndex(s: Bytes, preamble: Bytes, rest: Bytes)
    requires Dashless(preamble) && s == preamble + (DASHES + rest)
    ensures IndexOf(s, DASHES, 0) == Some(|preamble|)
  {
    FirstDashes(s, preamble, rest);
    IndexIsFirst(s, DASHES, 0, |preamble|);
  }

  lemma LineEndIndex(s: Bytes, preamble: Bytes, line: Bytes, tail: Bytes, from: nat, eol: nat)
    requires '\r' !in line && |tail| >= 2 && tail[..2] == CRLF && s == preamble + (line + tail)
    requires from == |preamble| && eol == |preamble| + |line|
    ensures IndexOf(s, CRLF, from) == Some(eol)
  {
    assert tail == CRLF + tail[2..];
    FirstShift(s, preamble, line + tail, CRLF, |line|);
    IndexIsFirst(s, CRLF, |preamble|, |preamble| + |line|);
  }

  lemma PlainLine(boundary: Bytes)
    requires '\r' !in boundary
    ensures '\r' !in DASHES + boundary
  {
  }

  lemma ParseFrom(s: Bytes, re: Patterns, dash: nat, eol: nat, marker: Bytes, pos: nat)
    requires IndexOf(s, DASHES, 0) == Some(dash) && IndexOf(s, CRLF, dash) == Some(eol)
    requires dash + 2 <= eol <= |s| && marker == CRLF + DASHES + s[dash + 2..eol]
    requires pos == eol + 2
    ensures Parse(s, re) == Scan(s, marker, re, pos)
  {
  }

  /** From the first delimiter line on, the scan finds the first file. */
  lemma ScanSerialized(s: Bytes, done: Bytes, parts: seq<Part>, boundary: Bytes, epilogue: Bytes, re: Patterns,
                       marker: Bytes, pos: nat)
    requires '\r' !in boundary && parts != [] && forall p :: p in parts ==> WellFormed(p, boundary)
    requires s == done + SerializeFrom(parts, boundary, epilogue)
    requires marker == CRLF + DASHES + boundary && pos == |done| + 2
    ensures Scan(s, marker, re, pos) == FirstFile(parts, re)
  {
    AfterDelimiter(s, done, SerializeFrom(parts, boundary, epilogue), marker, re);
    ScanParts(s, done, parts, boundary, marker, epilogue, re);
  }

  /** A message the parser is promised: parts, each well formed for the boundary. */
  ghost predicate Message(parts: seq<Part>, boundary: Bytes) {
    '\r' !in boundary && parts != [] && forall p :: p in parts ==> WellFormed(p, boundary)
  }

  ghost predicate RoundTrips(preamble: Bytes, parts: seq<Part>, boundary: Bytes, epilogue: Bytes, re: Patterns) {
    Parse(Serialize(preamble, parts, boundary, epilogue), re) == FirstFile(parts, re)
  }

  /** Round trip: whatever the parts and the epilogue, after a preamble without two dashes the
      parser returns the first file part with its exact bytes, and nothing when no part names a
      file. */
  lemma RoundTrip(preamble: Bytes, parts: seq<Part>, boundary: Bytes, epilogue: Bytes, re: Patterns)
    requires Dashless(preamble) && Message(parts, boundary)
    ensures RoundTrips(preamble, parts, boundary, epilogue, re)
  {
    var tail := SerializeFrom(parts, boundary, epilogue);
    var s := Serialize(preamble, parts, boundary, epilogue);
    var done, line := preamble + (DASHES + boundary), DASHES + boundary;
    var dash, eol := |preamble|, |preamble| + 2 + |boundary|;
    PlainLine(boundary);
    DashesIndex(s, preamble, boundary + tail);
    LineEndIndex(s, preamble, line, tail, dash, eol);
    var marker, pos := CRLF + DASHES + boundary, eol + 2;
    ParseFrom(s, re, dash, eol, marker, pos);
    ScanSerialized(s, done, parts, boundary, epilogue, re, marker, pos);
  }
}
