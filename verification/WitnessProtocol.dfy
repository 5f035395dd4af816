/** The add-checkpoint request of internal/witness/protocol.go, byte for byte. */
module WitnessProtocol {
  import opened Bytes
  import opened Text
  import Decimal
  import Base64

  const MAX_PROOF_LINES := 63

  const NODE_SIZE := 32

  const BLANK_LINE: Bytes := [LF, LF]

  const OLD: Bytes := Ascii("old ")

  datatype Request = Request(oldSize: uint64, proof: seq<Bytes>, note: Bytes)

  // ------------------------------------------------------- marshal, unmarshal

  function NodeLines(proof: seq<Bytes>): seq<Bytes> {
    if proof == [] then [] else [Base64.Encode(proof[0])] + NodeLines(proof[1..])
  }

  /** None is ErrMalformedRequest. */
  function Marshal(r: Request): Option<Bytes> {
    if |r.proof| > MAX_PROOF_LINES then None
    else if r.note == [] then None
    else if exists i :: 0 <= i < |r.proof| && |r.proof[i]| != NODE_SIZE then None
    else Some(Unlines([OLD + Decimal.Format(r.oldSize)] + NodeLines(r.proof)) + [LF] + r.note)
  }

  function ParseNodes(lines: seq<Bytes>): Option<seq<Bytes>> {
    if lines == [] then Some([])
    else match (Base64.ParseLine(lines[0]), ParseNodes(lines[1..]))
      case (Some(node), Some(rest)) => Some([node] + rest)
      case _ => None
  }

  function Unmarshal(body: Bytes): Option<Request> {
    var i := IndexFrom(BLANK_LINE, body, 0);
    if i < 0 then None
    else
      var note := body[i + 2..];
      if note == [] then None
      else
        var lines := Split(body[..i]);
        if !(OLD <= lines[0]) then None
        else match Decimal.Parse(lines[0][|OLD|..])
          case None => None
          case Some(size) =>
            if |lines| - 1 > MAX_PROOF_LINES then None
            else match ParseNodes(lines[1..])
              case None => None
              case Some(proof) => Some(Request(size, proof, note))
  }

  // --------------------------------------------------------------- the header

  predicate HeaderLine(l: Bytes) {
    l != [] && OneLine(l)
  }

  /** In a text made of non-empty lines, no two line feeds are adjacent. */
  lemma {:induction false} NoBlankInside(lines: seq<Bytes>, i: nat)
    requires forall k :: 0 <= k < |lines| ==> HeaderLine(lines[k])
    requires i + 1 < |Unlines(lines)|
    ensures Unlines(lines)[0] != LF
    ensures !(Unlines(lines)[i] == LF && Unlines(lines)[i + 1] == LF)
  {
    var a, rest := lines[0], Unlines(lines[1..]);
    assert Unlines(lines) == a + [LF] + rest;
    if i > |a| {
      NoBlankInside(lines[1..], i - |a| - 1);
    } else if i == |a| {
      StartsInk(lines[1..]);
    }
  }

  lemma StartsInk(lines: seq<Bytes>)
    requires forall k :: 0 <= k < |lines| ==> HeaderLine(lines[k])
    ensures lines != [] ==> Unlines(lines) != [] && Unlines(lines)[0] != LF
    ensures lines == [] ==> Unlines(lines) == []
  {
  }

  lemma EndsInBreak(lines: seq<Bytes>)
    requires lines != []
    ensures Unlines(lines) != [] && Last(Unlines(lines)) == LF
  {
    if |lines| > 1 {
      EndsInBreak(lines[1..]);
      assert Unlines(lines) == lines[0] + [LF] + Unlines(lines[1..]);
    }
  }

  lemma BlankAt(body: Bytes, i: nat)
    ensures MatchAt(BLANK_LINE, body, i) <==> i + 2 <= |body| && body[i] == LF && body[i + 1] == LF
  {
    if i + 2 <= |body| {
      assert body[i..i + 2] == [body[i], body[i + 1]];
    }
  }

  /** The first blank line of a request is the one that closes its header. */
  lemma FirstBlank(u: Bytes, lines: seq<Bytes>, note: Bytes)
    requires lines != [] && forall k :: 0 <= k < |lines| ==> HeaderLine(lines[k])
    requires u == Unlines(lines)
    ensures u != [] && Last(u) == LF
    ensures IndexFrom(BLANK_LINE, u + [LF] + note, 0) == |u| - 1
  {
    hide Unlines, HeaderLine;
    var body := u + [LF] + note;
    EndsInBreak(lines);
    BlankAt(body, |u| - 1);
    forall i: nat | i < |u| - 1 ensures !MatchAt(BLANK_LINE, body, i) {
      NoBlankInside(lines, i);
      BlankAt(body, i);
    }
  }

  /** Where the header ends, and what it and the note are. */
  lemma HeaderCut(u: Bytes, lines: seq<Bytes>, note: Bytes)
    requires lines != [] && forall k :: 0 <= k < |lines| ==> HeaderLine(lines[k])
    requires u == Unlines(lines)
    ensures u != [] && IndexFrom(BLANK_LINE, u + [LF] + note, 0) == |u| - 1
    ensures Split((u + [LF] + note)[..|u| - 1]) == lines
    ensures (u + [LF] + note)[|u| + 1..] == note
  {
    hide Unlines, Split;
    FirstBlank(u, lines, note);
    assert (u + [LF] + note)[..|u| - 1] == Init(u) && Init(u) + [LF] == u;
    SplitOfUnlines(lines, Init(u));
  }

  // ---------------------------------------------------------------- the nodes

  lemma {:induction false} NodesExact(lines: seq<Bytes>, proof: seq<Bytes>)
    ensures ParseNodes(lines) == Some(proof)
            <==> lines == NodeLines(proof) && forall i :: 0 <= i < |proof| ==> |proof[i]| == NODE_SIZE
  {
    hide Base64.ParseLine, Base64.Encode;
    if lines != [] {
      if proof != [] {
        Base64.ParseLineExact(lines[0], proof[0]);
        NodesExact(lines[1..], proof[1..]);
        assert proof == [proof[0]] + proof[1..] && lines == [lines[0]] + lines[1..];
      }
    }
  }

  lemma {:induction false} NodeLinesAreHeaderLines(proof: seq<Bytes>)
    requires forall i :: 0 <= i < |proof| ==> |proof[i]| == NODE_SIZE
    ensures |NodeLines(proof)| == |proof|
    ensures forall k :: 0 <= k < |proof| ==> HeaderLine(NodeLines(proof)[k])
  {
    hide Base64.Encode;
    if proof != [] {
      Base64.EncodeSymbols(proof[0]);
      NodeLinesAreHeaderLines(proof[1..]);
    }
  }

  lemma OldLine(n: nat)
    ensures HeaderLine(OLD + Decimal.Format(n))
    ensures (OLD + Decimal.Format(n))[|OLD|..] == Decimal.Format(n)
  {
    hide Decimal.Format;
    var s := Decimal.Format(n);
    assert forall i :: 0 <= i < |s| ==> Decimal.IsDigit(s[i]);
  }

  // ----------------------------------------------------------------- theorems

  /** Everything a client sends is read back as it was sent. */
  lemma UnmarshalOfMarshal(r: Request)
    requires Marshal(r).Some?
    ensures Unmarshal(Marshal(r).value) == Some(r)
  {
    hide Decimal.Format, Base64.Encode, Base64.ParseLine, Unlines, Split, NodeLines, ParseNodes, Decimal.Parse,
         HeaderLine;
    var lines := [OLD + Decimal.Format(r.oldSize)] + NodeLines(r.proof);
    OldLine(r.oldSize);
    NodeLinesAreHeaderLines(r.proof);
    HeaderCut(Unlines(lines), lines, r.note);
    Decimal.ParseExact(Decimal.Format(r.oldSize), r.oldSize);
    NodesExact(NodeLines(r.proof), r.proof);
    assert lines[1..] == NodeLines(r.proof);
  }

  /** Everything the witness accepts is the one spelling of what it read. */
  lemma MarshalOfUnmarshal(body: Bytes)
    requires Unmarshal(body).Some?
    ensures Marshal(Unmarshal(body).value) == Some(body)
  {
    hide Decimal.Format, Base64.Encode, Base64.ParseLine, Unlines, NodeLines, ParseNodes, Decimal.Parse, HeaderLine;
    var r := Unmarshal(body).value;
    var i := IndexFrom(BLANK_LINE, body, 0);
    var lines := Split(body[..i]);
    Decimal.ParseExact(lines[0][|OLD|..], r.oldSize);
    NodesExact(lines[1..], r.proof);
    NodeLinesAreHeaderLines(r.proof);
    assert lines[0] == OLD + lines[0][|OLD|..];
    assert lines == [lines[0]] + lines[1..];
    assert body[i..i + 2] == BLANK_LINE;
    assert body == body[..i] + [LF] + [LF] + body[i + 2..];
  }

  // ---------------------------------------------------------- as the loops run

  lemma {:induction false} NodeLinesOneMore(proof: seq<Bytes>, i: nat)
    requires i < |proof|
    ensures NodeLines(proof[..i + 1]) == NodeLines(proof[..i]) + [Base64.Encode(proof[i])]
  {
    hide Base64.Encode;
    if i > 0 {
      NodeLinesOneMore(proof[1..], i - 1);
      assert proof[1..][..i] == proof[..i + 1][1..] && proof[1..][..i - 1] == proof[..i][1..];
    } else {
      assert proof[..1] == [proof[0]] && proof[..1][1..] == [];
    }
  }

  /** The header with the first `i` nodes. */
  function Header(r: Request, i: nat): Bytes
    requires i <= |r.proof|
  {
    Unlines([OLD + Decimal.Format(r.oldSize)] + NodeLines(r.proof[..i]))
  }

  lemma HeaderStart(r: Request)
    ensures Header(r, 0) == OLD + Decimal.Format(r.oldSize) + [LF]
  {
    var l := OLD + Decimal.Format(r.oldSize);
    hide Decimal.Format;
    assert NodeLines(r.proof[..0]) == [] && [l] + [] == [l] && [l][1..] == [];
    assert Unlines([]) == [];
    assert Unlines([l]) == l + [LF] + Unlines([]);
  }

  lemma HeaderNext(r: Request, i: nat)
    requires i < |r.proof|
    ensures Header(r, i + 1) == Header(r, i) + Base64.Encode(r.proof[i]) + [LF]
  {
    hide Decimal.Format, Base64.Encode, NodeLines;
    NodeLinesOneMore(r.proof, i);
    var a, e := [OLD + Decimal.Format(r.oldSize)] + NodeLines(r.proof[..i]), Base64.Encode(r.proof[i]);
    assert [OLD + Decimal.Format(r.oldSize)] + NodeLines(r.proof[..i + 1]) == a + [e];
    UnlinesOneMore(a, e);
  }

  method MarshalAddCheckpoint(r: Request) returns (b: Option<Bytes>)
    ensures b == Marshal(r)
  {
    hide Decimal.Format, Base64.Encode, NodeLines, Unlines;
    if |r.proof| > MAX_PROOF_LINES { return None; }
    if r.note == [] { return None; }
    for i := 0 to |r.proof|
      invariant forall k :: 0 <= k < i ==> |r.proof[k]| == NODE_SIZE
    {
      if |r.proof[i]| != NODE_SIZE { return None; }
    }
    var buf := OLD + Decimal.Format(r.oldSize) + [LF];
    HeaderStart(r);
    for i := 0 to |r.proof|
      invariant buf == Header(r, i)
    {
      HeaderNext(r, i);
      buf := buf + Base64.Encode(r.proof[i]) + [LF];
    }
    assert r.proof[..|r.proof|] == r.proof;
    return Some(buf + [LF] + r.note);
  }

  function Prepend(done: seq<Bytes>, rest: Option<seq<Bytes>>): Option<seq<Bytes>> {
    match rest
    case None => None
    case Some(r) => Some(done + r)
  }

  lemma PrependNothing(rest: Option<seq<Bytes>>)
    ensures Prepend([], rest) == rest
  {
    if rest.Some? { assert [] + rest.value == rest.value; }
  }

  lemma NoNodes(proof: seq<Bytes>)
    ensures Prepend(proof, ParseNodes([])) == Some(proof)
  {
    assert proof + [] == proof;
  }

  lemma ParseNodesStep(lines: seq<Bytes>, i: nat, done: seq<Bytes>)
    requires i < |lines|
    ensures var node := Base64.ParseLine(lines[i]);
            Prepend(done, ParseNodes(lines[i..]))
            == if node.None? then None else Prepend(done + [node.value], ParseNodes(lines[i + 1..]))
  {
    hide Base64.ParseLine;
    assert lines[i..][1..] == lines[i + 1..];
    match (Base64.ParseLine(lines[i]), ParseNodes(lines[i + 1..]))
    case (Some(node), Some(rest)) => assert done + ([node] + rest) == done + [node] + rest;
    case _ =>
  }

  method UnmarshalAddCheckpoint(body: Bytes) returns (r: Option<Request>)
    ensures r == Unmarshal(body)
  {
    hide Base64.ParseLine, Decimal.Parse, Split;
    var i := IndexFrom(BLANK_LINE, body, 0);
    if i < 0 { return None; }
    var note := body[i + 2..];
    if note == [] { return None; }
    var lines := Split(body[..i]);
    if !(OLD <= lines[0]) { return None; }
    var size := Decimal.Parse(lines[0][|OLD|..]);
    if size.None? { return None; }
    var proofLines := lines[1..];
    if |proofLines| > MAX_PROOF_LINES { return None; }
    var proof: seq<Bytes>, k := [], 0;
    assert proofLines[0..] == proofLines;
    PrependNothing(ParseNodes(proofLines));
    while k < |proofLines|
      invariant k <= |proofLines|
      invariant Prepend(proof, ParseNodes(proofLines[k..])) == ParseNodes(proofLines)
    {
      hide ParseNodes;
      ParseNodesStep(proofLines, k, proof);
      var node := Base64.ParseLine(proofLines[k]);
      if node.None? { return None; }
      proof := proof + [node.value];
      k := k + 1;
    }
    NoNodes(proof);
    assert proofLines[k..] == [];
    return Some(Request(size.value, proof, note));
  }
}
