/** The expression by which the multipart parser finds a file name in a part: the field name and
    `filename="` in any case on one line, then a non-empty run up to the next quote. */
module Disposition {
  import opened Options
  import opened Multipart
  import opened Letters

  const FIELD: Bytes := "Content-Disposition:"
  const PARAM: Bytes := "filename=\""

  predicate AtAnyCase(t: Bytes, p: Bytes, i: nat) {
    i + |p| <= |t| && forall k :: 0 <= k < |p| ==> Lower(t[i + k]) == Lower(p[k])
  }

  predicate Plain(c: char) {
    c != '\r' && c != '\n'
  }

  /** The end of the line that goes on at `i`. */
  function LineEnd(t: Bytes, i: nat): (e: nat)
    requires i <= |t|
    ensures i <= e <= |t| && forall j :: i <= j < e ==> Plain(t[j])
    ensures e < |t| ==> !Plain(t[e])
    decreases |t| - i
  {
    if i < |t| && Plain(t[i]) then LineEnd(t, i + 1) else i
  }

  /** The first quote at or after `i`. */
  function Quote(t: Bytes, i: nat): (q: Option<nat>)
    ensures q.Some? ==> i <= q.value < |t| && t[q.value] == '"' && forall j :: i <= j < q.value ==> t[j] != '"'
    ensures q.None? ==> forall j :: i <= j < |t| ==> t[j] != '"'
    decreases |t| - i
  {
    if i >= |t| then None else if t[i] == '"' then Some(i) else Quote(t, i + 1)
  }

  /** The value if a parameter starts at `j`. */
  function ValueAt(t: Bytes, j: nat): Option<string> {
    if !AtAnyCase(t, PARAM, j) then None
    else
      var start := j + |PARAM|;
      var q := Quote(t, start);
      if q.Some? && q.value > start then Some(t[start..q.value]) else None
  }

  /** The greedy search: the last parameter that starts in `from..j`. */
  function LastValue(t: Bytes, from: nat, j: nat): Option<string>
    requires from <= j
    decreases j
  {
    if ValueAt(t, j).Some? then ValueAt(t, j)
    else if j == from then None
    else LastValue(t, from, j - 1)
  }

  /** The match at `i`, if there is one. */
  function NameAt(t: Bytes, i: nat): Option<string> {
    if !AtAnyCase(t, FIELD, i) then None
    else
      var from := i + |FIELD|;
      LastValue(t, from, LineEnd(t, from))
  }

  /** What a search that tries the positions from `i` up to `n` finds first. */
  function Leftmost(find: nat -> Option<string>, n: nat, i: nat): Option<string>
    decreases n - i
  {
    if i >= n then None else if find(i).Some? then find(i) else Leftmost(find, n, i + 1)
  }

  /** The leftmost match. */
  function FileName(t: Bytes): Option<string> {
    Leftmost((i: nat) => NameAt(t, i), |t|, 0)
  }

  // ----- what it finds -----

  /** A match: the field at `i`, the parameter at `j` on the same line, the closing quote at `k`. */
  ghost predicate Match(t: Bytes, i: nat, j: nat, k: nat) {
    && AtAnyCase(t, FIELD, i) && i + |FIELD| <= j
    && (forall l :: i + |FIELD| <= l < j && l < |t| ==> Plain(t[l]))
    && AtAnyCase(t, PARAM, j) && j + |PARAM| < k < |t| && t[k] == '"'
    && forall l :: j + |PARAM| <= l < k ==> t[l] != '"'
  }

  /** The one the expression takes: the first field that has a match, and its last parameter. */
  ghost predicate Chosen(t: Bytes, i: nat, j: nat, k: nat) {
    Match(t, i, j, k) && forall i': nat, j': nat, k': nat :: Match(t, i', j', k') ==> i < i' || (i == i' && j' <= j)
  }

  lemma {:induction false} LastValueSound(t: Bytes, from: nat, end: nat) returns (j: nat)
    requires from <= end && LastValue(t, from, end).Some?
    ensures from <= j <= end && ValueAt(t, j) == LastValue(t, from, end)
    ensures forall m: nat :: j < m <= end ==> ValueAt(t, m).None?
    decreases end
  {
    if ValueAt(t, end).Some? {
      j := end;
    } else {
      j := LastValueSound(t, from, end - 1);
    }
  }

  lemma {:induction false} LastValueComplete(t: Bytes, from: nat, j: nat, end: nat)
    requires from <= j <= end && ValueAt(t, j).Some?
    ensures LastValue(t, from, end).Some?
    decreases end
  {
    if j < end {
      LastValueComplete(t, from, j, end - 1);
    }
  }

  lemma {:induction false} LeftmostSound(find: nat -> Option<string>, n: nat, i: nat) returns (k: nat)
    requires Leftmost(find, n, i).Some?
    ensures i <= k < n && find(k) == Leftmost(find, n, i)
    ensures forall m: nat :: i <= m < k ==> find(m).None?
    decreases n - i
  {
    if find(i).Some? {
      k := i;
    } else {
      k := LeftmostSound(find, n, i + 1);
    }
  }

  lemma {:induction false} LeftmostComplete(find: nat -> Option<string>, n: nat, i: nat, k: nat)
    requires i <= k < n && find(k).Some?
    ensures Leftmost(find, n, i).Some?
    decreases n - i
  {
    if i < k {
      LeftmostComplete(find, n, i + 1, k);
    }
  }

  lemma MatchValue(t: Bytes, i: nat, j: nat, k: nat)
    requires Match(t, i, j, k)
    ensures i + |FIELD| <= |t| && j <= LineEnd(t, i + |FIELD|) && ValueAt(t, j).Some?
  {
    var e := LineEnd(t, i + |FIELD|);
    assert !(e < j);
    var q := Quote(t, j + |PARAM|);
    assert q.Some? && q.value == k;
  }

  lemma MatchHere(t: Bytes, i: nat, j: nat, k: nat)
    requires Match(t, i, j, k)
    ensures i < |t| && NameAt(t, i).Some?
  {
    MatchValue(t, i, j, k);
    var from := i + |FIELD|;
    LastValueComplete(t, from, j, LineEnd(t, from));
    assert LastValue(t, from, LineEnd(t, from)).Some?;
  }

  lemma ValueMatches(t: Bytes, i: nat, j: nat) returns (k: nat)
    requires AtAnyCase(t, FIELD, i) && i + |FIELD| <= j <= LineEnd(t, i + |FIELD|) && ValueAt(t, j).Some?
    ensures Match(t, i, j, k) && ValueAt(t, j).value == t[j + |PARAM|..k]
  {
    k := Quote(t, j + |PARAM|).value;
  }

  lemma NameAtSound(t: Bytes, i: nat) returns (j: nat, k: nat)
    requires NameAt(t, i).Some? && forall m: nat :: m < i ==> NameAt(t, m).None?
    ensures Chosen(t, i, j, k) && NameAt(t, i).value == t[j + |PARAM|..k]
  {
    var from := i + |FIELD|;
    j := LastValueSound(t, from, LineEnd(t, from));
    k := ValueMatches(t, i, j);
    forall i': nat, j': nat, k': nat | Match(t, i', j', k') ensures i < i' || (i == i' && j' <= j) {
      MatchHere(t, i', j', k');
      MatchValue(t, i', j', k');
    }
  }

  /** The search finds a name exactly when there is a match, and then the name of the chosen one. */
  lemma FileNameIff(t: Bytes)
    ensures FileName(t).Some? <==> exists i: nat, j: nat, k: nat :: Match(t, i, j, k)
    ensures FileName(t).Some? ==>
              exists i: nat, j: nat, k: nat :: Chosen(t, i, j, k) && FileName(t).value == t[j + |PARAM|..k]
  {
    var find := (i: nat) => NameAt(t, i);
    if FileName(t).Some? {
      var i := LeftmostSound(find, |t|, 0);
      forall m: nat | m < i ensures NameAt(t, m).None? {
        assert find(m).None?;
      }
      var j, k := NameAtSound(t, i);
    }
    if i: nat, j: nat, k: nat :| Match(t, i, j, k) {
      MatchHere(t, i, j, k);
      LeftmostComplete(find, |t|, 0, i);
    }
  }

  // ----- file headers -----

  lemma AtAnyCaseIff(t: Bytes, p: Bytes, i: nat)
    ensures AtAnyCase(t, p, i) <==> i + |p| <= |t| && SameText(t[i..i + |p|], p)
  {
    if i + |p| <= |t| {
      forall k | 0 <= k < |p| ensures Lower(t[i + k]) == Lower(p[k]) <==> SameLetter(t[i..i + |p|][k], p[k]) {
        LowerIff(t[i + k], p[k]);
      }
    }
  }

  /** A name on one line, without quotes. */
  ghost predicate Quotable(name: string) {
    name != "" && forall c :: c in name ==> Plain(c) && c != '"'
  }

  /** A one-line header that ends in a file name: the field and the parameter in any case, and
      anything in between. */
  ghost predicate FileHeader(header: Bytes, field: Bytes, mid: Bytes, param: Bytes, name: string) {
    && header == field + mid + param + name + "\""
    && SameText(field, "Content-Disposition:") && SameText(param, "filename=\"")
    && (forall c :: c in mid ==> Plain(c)) && Quotable(name)
  }

  /** The name itself ends like the start of another parameter. */
  ghost predicate Nested(name: string) {
    |name| >= 9 && SameText(name[|name| - 9..], "filename=")
  }

  /** What stands where in a part with such a header: the parameter at `j`, the quote at `k`. */
  ghost predicate Laid(t: Bytes, p: Part, j: nat, k: nat, name: string) {
    && |FIELD| <= j && k == j + |PARAM| + |name| && k + 5 <= |t| && |t| == k + 5 + |p.content|
    && AtAnyCase(t, FIELD, 0) && AtAnyCase(t, PARAM, j)
    && (forall l :: |FIELD| <= l < j ==> Plain(t[l]))
    && t[j + |PARAM|..k] == name && t[k] == '"'
    && t[k + 1..k + 5] == BLANK && t[k + 5..] == p.content
  }

  lemma HeaderLaid(p: Part, field: Bytes, mid: Bytes, param: Bytes, name: string)
    requires FileHeader(p.header, field, mid, param, name)
    ensures var j := |field| + |mid|;
            Laid(Text(p), p, j, j + |param| + |name|, name)
  {
    var t, j := Text(p), |field| + |mid|;
    var k := j + |param| + |name|;
    assert t == field + mid + param + name + "\"" + BLANK + p.content;
    assert t[0..0 + |FIELD|] == field && t[j..j + |PARAM|] == param;
    AtAnyCaseIff(t, FIELD, 0);
    AtAnyCaseIff(t, PARAM, j);
    forall l | |FIELD| <= l < j ensures Plain(t[l]) {
      assert t[l] == mid[l - |field|];
    }
  }

  lemma ParamLetters(t: Bytes, j: nat)
    requires AtAnyCase(t, PARAM, j)
    ensures j + 10 <= |t| && (t[j] == 'f' || t[j] == 'F') && t[j + 9] == '"'
    ensures forall i :: j < i < j + 9 ==> t[i] != '"' && t[i] != 'f' && t[i] != 'F'
  {
    assert Lower(t[j]) == Lower(PARAM[0]) && Lower(t[j + 9]) == Lower(PARAM[9]);
    forall i | j < i < j + 9 ensures t[i] != '"' && t[i] != 'f' && t[i] != 'F' {
      assert Lower(t[j + (i - j)]) == Lower(PARAM[i - j]);
    }
  }

  /** A later parameter of the line can only be the one inside the name. */
  lemma LaterParam(t: Bytes, p: Part, j: nat, k: nat, name: string, j': nat, k': nat)
    requires Laid(t, p, j, k, name) && Quotable(name)
    requires Match(t, 0, j', k') && j < j'
    ensures j' == k - 9 && Nested(name) && '"' in p.content
    ensures j' + |PARAM| < k' && t[j' + |PARAM|] == '\r'
  {
    ParamLetters(t, j);
    ParamLetters(t, j');
    assert forall l :: j + 10 <= l < k ==> t[l] == name[l - j - 10];
    assert t[k + 1] == BLANK[0] && t[k + 2] == BLANK[1] && t[k + 3] == BLANK[2] && t[k + 4] == BLANK[3];
    assert j' <= k + 1;
    assert forall l :: j + 10 <= l < k ==> t[l] != '"';
    assert j' + 9 >= k;
    assert j' == k - 9 && j' >= j + 10;
    NestedName(t, j, k, name);
    assert k' >= k + 5 && t[k'] == p.content[k' - k - 5];
  }

  lemma NestedName(t: Bytes, j: nat, k: nat, name: string)
    requires k == j + |PARAM| + |name| < |t| && t[j + |PARAM|..k] == name && |name| >= 9 && t[k] == '"'
    ensures AtAnyCase(t, PARAM, k - 9) <==> Nested(name)
  {
    var tail := name[|name| - 9..];
    forall l | 0 <= l < 9
      ensures tail[l] == t[k - 9 + l] && PARAM[l] == "filename="[l]
      ensures Lower(t[k - 9 + l]) == Lower(PARAM[l]) <==> SameLetter(tail[l], "filename="[l])
    {
      assert tail[l] == name[|name| - 9 + l] == t[j + |PARAM|..k][|name| - 9 + l];
      LowerIff(tail[l], PARAM[l]);
    }
    assert Lower(t[k]) == Lower(PARAM[9]);
  }

  lemma NestedMatch(t: Bytes, p: Part, j: nat, k: nat, name: string) returns (k': nat)
    requires Laid(t, p, j, k, name) && Quotable(name)
    requires Nested(name) && '"' in p.content
    ensures Match(t, 0, k - 9, k')
  {
    NestedName(t, j, k, name);
    ParamLetters(t, j);
    var i :| 0 <= i < |p.content| && p.content[i] == '"';
    assert t[k + 5 + i] == '"';
    k' := Quote(t, k + 1).value;
    assert t[k + 1] == BLANK[0];
    assert k' > k + 1;
    forall l | |FIELD| <= l < k - 9 ensures Plain(t[l]) {
      if l >= j {
        if l < j + 10 { PlainParam(t, j, l); } else { assert t[l] == name[l - j - 10]; }
      }
    }
  }

  lemma PlainParam(t: Bytes, j: nat, l: nat)
    requires AtAnyCase(t, PARAM, j) && j <= l < j + 10
    ensures Plain(t[l])
  {
    assert Lower(t[j + (l - j)]) == Lower(PARAM[l - j]);
  }

  lemma LaidMatch(t: Bytes, p: Part, j: nat, k: nat, name: string)
    requires Laid(t, p, j, k, name) && Quotable(name)
    ensures Match(t, 0, j, k)
  {
    forall l | j + |PARAM| <= l < k ensures t[l] != '"' {
      assert name[l - j - |PARAM|] in name;
    }
  }

  lemma SameQuote(t: Bytes, j: nat, k: nat, k': nat)
    requires Match(t, 0, j, k) && Match(t, 0, j, k')
    ensures k == k'
  {
  }

  lemma FirstLast(t: Bytes, i: nat, j: nat, k: nat, j': nat, k': nat)
    requires Chosen(t, i, j, k) && Match(t, 0, j', k')
    ensures i == 0 && j' <= j
  {
  }

  /** The last match of the line is the one laid, or the one inside the name. */
  lemma LaidLast(t: Bytes, p: Part, j: nat, k: nat, name: string, j': nat, k': nat)
    requires Laid(t, p, j, k, name) && Quotable(name) && Match(t, 0, j, k)
    requires Match(t, 0, j', k') && j <= j' && (Nested(name) && '"' in p.content ==> k - 9 <= j')
    ensures t[j' + |PARAM|..k'] == name <==> !(Nested(name) && '"' in p.content)
  {
    if j < j' {
      LaterParam(t, p, j, k, name, j', k');
      assert t[j' + |PARAM|..k'][0] == '\r';
    } else {
      SameQuote(t, j, k, k');
    }
  }

  lemma LaidNamesIff(t: Bytes, p: Part, j: nat, k: nat, name: string)
    requires Laid(t, p, j, k, name) && Quotable(name) && FileName(t).Some? && Match(t, 0, j, k)
    ensures FileName(t) == Some(name) <==> !(Nested(name) && '"' in p.content)
  {
    var i', j', k' := ChosenName(t);
    FirstLast(t, i', j', k', j, k);
    if Nested(name) && '"' in p.content {
      var k2 := NestedMatch(t, p, j, k, name);
      FirstLast(t, i', j', k', k - 9, k2);
    }
    LaidLast(t, p, j, k, name, j', k');
  }

  /** The name such a header spells is the one found, whatever the letters' case and the content;
      except that a name ending in `filename=` reads on into a content that holds a quote. */
  lemma HeaderNamesIff(p: Part, field: Bytes, mid: Bytes, param: Bytes, name: string)
    requires FileHeader(p.header, field, mid, param, name)
    ensures FileName(Text(p)).Some?
    ensures FileName(Text(p)) == Some(name) <==> !(Nested(name) && '"' in p.content)
  {
    var t, j := Text(p), |field| + |mid|;
    var k := j + |param| + |name|;
    HeaderLaid(p, field, mid, param, name);
    LaidMatch(t, p, j, k, name);
    FileNameIff(t);
    LaidNamesIff(t, p, j, k, name);
  }

  lemma ChosenName(t: Bytes) returns (i: nat, j: nat, k: nat)
    requires FileName(t).Some?
    ensures Chosen(t, i, j, k) && FileName(t).value == t[j + |PARAM|..k]
  {
    FileNameIff(t);
    i, j, k :| Chosen(t, i, j, k) && FileName(t).value == t[j + |PARAM|..k];
  }

  /** The header browsers send. */
  const FILE_HEADER: Bytes := "Content-Disposition:" + " form-data; name=\"f\"; " + "filename=\"" + "r.txt" + "\""

  /** Under it every content is a file of that name. */
  lemma FileHeaderNames(content: Bytes)
    ensures '\r' !in FILE_HEADER && FileName(Text(Part(FILE_HEADER, content))) == Some("r.txt")
  {
    var field, mid, param := "Content-Disposition:", " form-data; name=\"f\"; ", "filename=\"";
    assert forall c :: c in mid || c in "r.txt" ==> Plain(c);
    assert FileHeader(FILE_HEADER, field, mid, param, "r.txt");
    HeaderNamesIff(Part(FILE_HEADER, content), field, mid, param, "r.txt");
    assert '\r' !in field && '\r' !in param;
  }

  /** The parser's expressions: this one, and any for the type. */
  function Expressions(mimeType: Bytes -> string): Patterns {
    Patterns(t => FileName(t), mimeType)
  }
}
