/** The string the timeout banner subscribes to: the provisioning nodes packed with `|` between
    fields and `,` between nodes, and its decoding. */
module ProvisioningCodec {
  import opened Options
  import opened Delimited
  import opened Numerals

  /** How finite numbers are written and read back; reading anything else gives nothing. */
  datatype Format<!N> = Format(show: N -> string, read: string -> Option<N>)

  /** A number is written without separators and read back as itself. */
  ghost predicate Faithful<N(!new)>(fmt: Format<N>) {
    forall n :: fmt.show(n) != "" && Clean(fmt.show(n)) && fmt.read(fmt.show(n)) == Some(n)
  }

  /** A provisioning node of the store. */
  datatype Node<N> = Node(id: string, name: Option<string>, runtime: Option<string>, timeoutMs: Option<N>)

  datatype Parsed<N> = Parsed(id: string, name: Option<string>, runtime: Option<string>, timeoutMs: Option<N>)

  function OrEmpty(s: Option<string>): string {
    if s.Some? then s.value else ""
  }

  /** Both separators become spaces. */
  function Sanitize(name: string): (r: string)
    ensures |r| == |name|
    ensures forall i :: 0 <= i < |r| ==> r[i] == if name[i] == '|' || name[i] == ',' then ' ' else name[i]
  {
    if name == "" then ""
    else [if name[0] == '|' || name[0] == ',' then ' ' else name[0]] + Sanitize(name[1..])
  }

  function Fields<N>(fmt: Format<N>, n: Node<N>): seq<string> {
    [n.id, Sanitize(OrEmpty(n.name)), OrEmpty(n.runtime),
     if n.timeoutMs.Some? then fmt.show(n.timeoutMs.value) else ""]
  }

  function EncodeNode<N>(fmt: Format<N>, n: Node<N>): string {
    Join(Fields(fmt, n), '|')
  }

  function EncodeAll<N>(fmt: Format<N>, nodes: seq<Node<N>>): (entries: seq<string>)
    ensures |entries| == |nodes|
    ensures forall i :: 0 <= i < |nodes| ==> entries[i] == EncodeNode(fmt, nodes[i])
  {
    if nodes == [] then [] else [EncodeNode(fmt, nodes[0])] + EncodeAll(fmt, nodes[1..])
  }

  function Encode<N>(fmt: Format<N>, nodes: seq<Node<N>>): string {
    Join(EncodeAll(fmt, nodes), ',')
  }

  function FieldAt(fields: seq<string>, i: nat): Option<string> {
    if i < |fields| then Some(fields[i]) else None
  }

  function DecodeNode<N>(fmt: Format<N>, entry: string): Parsed<N> {
    var fields := Split(entry, '|');
    var timeoutMs := FieldAt(fields, 3);
    Parsed(fields[0], FieldAt(fields, 1), FieldAt(fields, 2),
           if timeoutMs.Some? && timeoutMs.value != "" then fmt.read(timeoutMs.value) else None)
  }

  function DecodeAll<N>(fmt: Format<N>, entries: seq<string>): (r: seq<Parsed<N>>)
    ensures |r| == |entries|
    ensures forall i :: 0 <= i < |entries| ==> r[i] == DecodeNode(fmt, entries[i])
  {
    if entries == [] then [] else [DecodeNode(fmt, entries[0])] + DecodeAll(fmt, entries[1..])
  }

  function Decode<N>(fmt: Format<N>, s: string): seq<Parsed<N>> {
    if s == "" then [] else DecodeAll(fmt, Split(s, ','))
  }

  /** What decoding should return for a node: everything kept, separators in the name replaced, a
      missing name or runtime empty. */
  function View<N>(n: Node<N>): Parsed<N> {
    Parsed(n.id, Some(if n.name.Some? then Sanitize(n.name.value) else ""),
           Some(if n.runtime.Some? then n.runtime.value else ""), n.timeoutMs)
  }

  predicate Clean(s: string) {
    '|' !in s && ',' !in s
  }

  predicate CleanNode<N>(n: Node<N>) {
    Clean(n.id) && (n.runtime.Some? ==> Clean(n.runtime.value))
  }

  lemma EncodedNode<N(!new)>(fmt: Format<N>, n: Node<N>)
    ensures EncodeNode(fmt, n)
         == n.id + "|" + (Sanitize(OrEmpty(n.name)) + "|" + (OrEmpty(n.runtime) + "|" + Fields(fmt, n)[3]))
  {
    var f := Fields(fmt, n);
    assert f[1..][1..] == f[2..] && f[2..][1..] == f[3..] == [f[3]];
    assert f[1..][0] == f[1] && f[2..][0] == f[2];
    assert Join(f[3..], '|') == f[3];
    assert Join(f[2..], '|') == f[2] + "|" + Join(f[3..], '|');
    assert Join(f[1..], '|') == f[1] + "|" + Join(f[2..], '|');
    assert f[2] + "|" + f[3] == f[2] + ("|" + f[3]);
  }

  lemma NoComma<N(!new)>(fmt: Format<N>, n: Node<N>)
    requires forall f :: f in Fields(fmt, n) ==> Clean(f)
    ensures ',' !in EncodeNode(fmt, n)
  {
    EncodedNode(fmt, n);
    var f := Fields(fmt, n);
    assert f[0] in f && f[1] in f && f[2] in f && f[3] in f;
  }

  lemma NodeRoundTrip<N(!new)>(fmt: Format<N>, n: Node<N>)
    requires Faithful(fmt) && CleanNode(n)
    ensures DecodeNode(fmt, EncodeNode(fmt, n)) == View(n) && ',' !in EncodeNode(fmt, n)
  {
    SplitJoin(Fields(fmt, n), '|');
    NoComma(fmt, n);
  }

  ghost predicate RoundTrips<N>(fmt: Format<N>, nodes: seq<Node<N>>) {
    Decode(fmt, Encode(fmt, nodes)) == seq(|nodes|, i requires 0 <= i < |nodes| => View(nodes[i]))
  }

  /** The codec gives every list back, in order, if and only if no id or runtime holds a
      separator. */
  lemma RoundTripIff<N(!new)>(fmt: Format<N>, nodes: seq<Node<N>>)
    requires Faithful(fmt)
    ensures RoundTrips(fmt, nodes) <==> forall n :: n in nodes ==> CleanNode(n)
  {
    var entries := EncodeAll(fmt, nodes);
    if nodes != [] && forall n :: n in nodes ==> CleanNode(n) {
      forall i | 0 <= i < |nodes| ensures DecodeNode(fmt, entries[i]) == View(nodes[i]) && ',' !in entries[i] {
        assert nodes[i] in nodes;
        NodeRoundTrip(fmt, nodes[i]);
      }
      SplitJoin(entries, ',');
      EncodedNode(fmt, nodes[0]);
      assert '|' in entries[0];
    } else if RoundTrips(fmt, nodes) {
      forall n | n in nodes ensures CleanNode(n) {
        var i :| 0 <= i < |nodes| && nodes[i] == n;
        assert Decode(fmt, Encode(fmt, nodes))[i] == View(n);
        DecodedClean(fmt, Encode(fmt, nodes), i);
      }
    }
  }

  /** Whatever string is decoded, its ids and runtimes are free of separators. */
  lemma DecodedClean<N(!new)>(fmt: Format<N>, s: string, i: nat)
    requires i < |Decode(fmt, s)|
    ensures Clean(Decode(fmt, s)[i].id)
    ensures Decode(fmt, s)[i].runtime.Some? ==> Clean(Decode(fmt, s)[i].runtime.value)
  {
    var entry := Split(s, ',')[i];
    SplitPieces(s, ',', entry);
    var fields := Split(entry, '|');
    forall f | f in fields ensures Clean(f) {
      SplitPieces(entry, '|', f);
    }
  }

  /** Decimal integers are such a format. */
  lemma IntegersFaithful()
    ensures Faithful(Format(Show, Number))
  {
    forall n: int ensures Show(n) != "" && Clean(Show(n)) && Number(Show(n)) == Some(n) {
      NumberShow(n);
    }
  }
}
