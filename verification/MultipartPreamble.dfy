/** Which preambles the multipart parser survives. It takes the first two dashes anywhere for the
    first delimiter, so a preamble that holds two dashes makes it read a boundary of its own. */
module MultipartPreamble {
  import opened Options
  import opened Multipart
  import opened Disposition

  /** Every message round-trips behind the preamble. */
  ghost predicate Survives(preamble: Bytes, re: Patterns) {
    forall parts, boundary, epilogue ::
      Message(parts, boundary) ==> RoundTrips(preamble, parts, boundary, epilogue, re)
  }

  /** Under this one-line header the expressions find a file, whatever the content. */
  ghost predicate NamesFiles(re: Patterns, header: Bytes) {
    '\r' !in header && forall content :: re.filename(Text(Part(header, content))).Some?
  }

  // ----- what the parser cannot return -----

  /** No content that the loop returns is the delimiter it looks for. */
  lemma {:induction false} NeverTheMarker(s: Bytes, marker: Bytes, re: Patterns, pos: nat)
    requires |marker| > 0
    ensures var file := Scan(s, marker, re, pos);
            file.Some? ==> file.value.content != marker
    decreases |s| - pos
  {
    var next := IndexOf(s, marker, pos);
    if pos < |s| && next.Some? {
      var part := s[pos..next.value];
      var file := FileIn(part, re);
      if file.Some? {
        if file.value.content == marker {
          var i := next.value - |marker|;
          assert s[i..i + |marker|] == marker;
          AtSlice(s, marker, i);
          NoneBefore(s, marker, pos, i);
        }
      } else {
        var after := next.value + |marker|;
        NeverTheMarker(s, marker, re, if At(s, CRLF, after) then after + 2 else after);
      }
    }
  }

  lemma {:induction false} NoneBefore(s: Bytes, p: Bytes, from: nat, i: nat)
    requires from <= i && At(s, p, i)
    ensures IndexOf(s, p, from).Some? && IndexOf(s, p, from).value <= i
    decreases i - from
  {
    AtSlice(s, p, i);
    if from < i {
      NoneBefore(s, p, from + 1, i);
    }
  }

  // ----- a file that a dashed preamble loses -----

  /** The preamble and the first delimiter's line. */
  function Lead(preamble: Bytes, z: char): Bytes {
    preamble + DASHES + [z] + CRLF
  }

  /** In that lead the parser takes `d` for the start of the first delimiter and `e` for its end. */
  ghost predicate Misreads(preamble: Bytes, z: char, d: nat, e: nat) {
    && d < |preamble| && d + 2 <= e && e + 2 <= |preamble| + 5
    && First(Lead(preamble, z), DASHES, 0, d) && First(Lead(preamble, z), CRLF, d, e)
  }

  lemma {:induction false} LeastAt(s: Bytes, p: Bytes, from: nat, i: nat) returns (d: nat)
    requires from <= i && At(s, p, i)
    ensures d <= i && First(s, p, from, d)
  {
    if j: nat :| from <= j < i && At(s, p, j) {
      d := LeastAt(s, p, from, j);
    } else {
      d := i;
    }
  }

  lemma DashedMisreads(preamble: Bytes, z: char) returns (d: nat, e: nat)
    requires !Dashless(preamble)
    ensures Misreads(preamble, z, d, e)
  {
    var lead, n := Lead(preamble, z), |preamble|;
    var i: nat :| At(preamble + "-", DASHES, i);
    AtPair(preamble + "-", DASHES, i);
    AtPair(lead, DASHES, i);
    d := LeastAt(lead, DASHES, 0, i);
    AtPair(lead, DASHES, d);
    AtPair(lead, CRLF, n + 3);
    e := LeastAt(lead, CRLF, d, n + 3);
    AtPair(lead, CRLF, e);
  }

  /** The file that is lost: its content is the delimiter the parser misreads. */
  function LostPart(header: Bytes, boundary: Bytes): Part {
    Part(header, CRLF + DASHES + boundary)
  }

  /** It is well formed, as the misread boundary differs from the real one in its first byte. */
  lemma LostWellFormed(header: Bytes, boundary: Bytes, z: char)
    requires '\r' !in header && Absent(CRLF, boundary) && (boundary != [] ==> boundary[0] != z)
    ensures WellFormed(LostPart(header, boundary), [z])
  {
    var p, h := LostPart(header, boundary), |header|;
    var lead, text, marker := header + BLANK[..3], Text(p), CRLF + DASHES + [z];
    forall i: nat ensures !At(lead, BLANK, i) {
      AtSlice(lead, BLANK, i);
      assert i + 4 <= |lead| ==> lead[i..i + 4][0] == header[i];
    }
    assert text == header + BLANK + CRLF + DASHES + boundary;
    forall i: nat ensures !At(text, marker, i) {
      AtSlice(text, marker, i);
      if i + 5 <= |text| {
        var w := text[i..i + 5];
        assert w[0] == text[i] && w[1] == text[i + 1] && w[2] == text[i + 2] && w[4] == text[i + 4];
        if i >= h + 8 { AtPair(boundary, CRLF, i - h - 8); }
      }
    }
  }

  lemma MisreadBoundary(preamble: Bytes, z: char, d: nat, e: nat) returns (boundary: Bytes)
    requires Misreads(preamble, z, d, e)
    ensures d + 2 <= e <= |Lead(preamble, z)| && boundary == Lead(preamble, z)[d + 2..e]
    ensures Absent(CRLF, boundary)
    ensures boundary != [] ==> boundary[0] == (preamble + DASHES)[d + 2]
  {
    var lead := Lead(preamble, z);
    boundary := lead[d + 2..e];
    forall i: nat ensures !At(boundary, CRLF, i) {
      AtPair(boundary, CRLF, i);
      AtPair(lead, CRLF, d + 2 + i);
    }
  }

  /** Behind the misread lead no file comes back whose content is the misread delimiter. */
  lemma MisreadParse(s: Bytes, preamble: Bytes, z: char, rest: Bytes, d: nat, e: nat, re: Patterns)
    requires Misreads(preamble, z, d, e) && s == Lead(preamble, z) + rest
    ensures d + 2 <= e <= |Lead(preamble, z)|
    ensures Parse(s, re).Some? ==> Parse(s, re).value.content != CRLF + DASHES + Lead(preamble, z)[d + 2..e]
  {
    var lead := Lead(preamble, z);
    FirstInPrefix(s, lead, rest, DASHES, 0, d);
    FirstInPrefix(s, lead, rest, CRLF, d, e);
    var marker := CRLF + DASHES + s[d + 2..e];
    assert s[d + 2..e] == lead[d + 2..e];
    ParseFrom(s, re, d, e, marker, e + 2);
    NeverTheMarker(s, marker, re, e + 2);
  }

  lemma FirstInPrefix(s: Bytes, lead: Bytes, rest: Bytes, p: Bytes, from: nat, i: nat)
    requires s == lead + rest && First(lead, p, from, i)
    ensures IndexOf(s, p, from) == Some(i)
  {
    AtSlice(lead, p, i);
    AtPrefix(s, lead, rest, p, i);
    forall j: nat | from <= j < i ensures !At(s, p, j) {
      AtPrefix(s, lead, rest, p, j);
    }
    IndexIsFirst(s, p, from, i);
  }

  lemma SerializedLead(preamble: Bytes, p: Part, z: char) returns (rest: Bytes)
    ensures Serialize(preamble, [p], [z], []) == Lead(preamble, z) + rest
  {
    var close := SerializeFrom([], [z], []);
    rest := Text(p) + ((CRLF + DASHES + [z]) + close);
    assert [p][1..] == [];
    assert preamble + ((DASHES + [z]) + (CRLF + rest)) == Lead(preamble, z) + rest;
  }

  /** Behind a preamble with two dashes a well-formed message of one file, whose content is a
      delimiter under another boundary, does not give that file back. */
  lemma DashedLoses(preamble: Bytes, re: Patterns, header: Bytes) returns (boundary: Bytes, z: char)
    requires !Dashless(preamble) && NamesFiles(re, header)
    ensures var parts := [LostPart(header, boundary)];
            && Message(parts, [z]) && FirstFile(parts, re).Some?
            && !RoundTrips(preamble, parts, [z], [], re)
  {
    var d0, e0 := DashedMisreads(preamble, 'y');
    z := if (preamble + DASHES)[d0 + 2] == 'y' then 'z' else 'y';
    var d, e := DashedMisreads(preamble, z);
    SameDash(preamble, 'y', z, d0, d);
    boundary := MisreadBoundary(preamble, z, d, e);
    var p := LostPart(header, boundary);
    LostWellFormed(header, boundary, z);
    var rest := SerializedLead(preamble, p, z);
    MisreadParse(Serialize(preamble, [p], [z], []), preamble, z, rest, d, e, re);
  }

  lemma SameDash(preamble: Bytes, y: char, z: char, d: nat, d': nat)
    requires d < |preamble| && First(Lead(preamble, y), DASHES, 0, d)
    requires d' < |preamble| && First(Lead(preamble, z), DASHES, 0, d')
    ensures d == d'
  {
    AtPair(Lead(preamble, y), DASHES, d);
    AtPair(Lead(preamble, z), DASHES, d);
    AtPair(Lead(preamble, y), DASHES, d');
    AtPair(Lead(preamble, z), DASHES, d');
  }

  /** For any expressions that know a file header: exactly the preambles without two dashes are
      safe for every message. */
  lemma SurvivesIff(preamble: Bytes, re: Patterns, header: Bytes)
    requires NamesFiles(re, header)
    ensures Survives(preamble, re) <==> Dashless(preamble)
  {
    if Dashless(preamble) {
      forall parts, boundary, epilogue | Message(parts, boundary)
        ensures RoundTrips(preamble, parts, boundary, epilogue, re)
      {
        RoundTrip(preamble, parts, boundary, epilogue, re);
      }
    } else {
      var boundary, z := DashedLoses(preamble, re, header);
    }
  }

  lemma ExpressionsNameFiles(mimeType: Bytes -> string)
    ensures NamesFiles(Expressions(mimeType), FILE_HEADER)
  {
    FileHeaderNames([]);
    forall content ensures Expressions(mimeType).filename(Text(Part(FILE_HEADER, content))).Some? {
      FileHeaderNames(content);
    }
  }

  /** So for the parser as it is. */
  lemma ParserSurvivesIff(preamble: Bytes, mimeType: Bytes -> string)
    ensures Survives(preamble, Expressions(mimeType)) <==> Dashless(preamble)
  {
    ExpressionsNameFiles(mimeType);
    SurvivesIff(preamble, Expressions(mimeType), FILE_HEADER);
  }

  /** An ordinary line with two dashes in it is enough. */
  lemma DashedLineLoses(mimeType: Bytes -> string)
    ensures !Survives("a--b\r\n", Expressions(mimeType))
  {
    AtPair("a--b\r\n" + "-", DASHES, 1);
    ParserSurvivesIff("a--b\r\n", mimeType);
  }
}
