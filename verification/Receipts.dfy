/** Receipts of internal/proof/proof.go: an index, an inclusion proof and a checkpoint note, their
    text form, and their verification under a policy. */
module Receipts {
  import opened Bytes
  import opened Hashing
  import opened Text
  import opened Merkle
  import MV = MerkleVerify
  import Decimal
  import Base64
  import Notes
  import PN = ProofNote

  datatype Receipt = Receipt(index: uint64, proof: seq<Digest>, note: Bytes)

  const MAGIC := Ascii("c2sp.org/tlog-proof@v1")

  // ----------------------------------------------------------------- text form

  function NodeText(proof: seq<Digest>): Bytes {
    if proof == [] then [LF] else Base64.Encode(proof[0]) + [LF] + NodeText(proof[1..])
  }

  /** Format: None is ErrFormat. */
  function Format(r: Receipt): Option<Bytes> {
    if r.note == [] || Last(r.note) != LF then None
    else Some(MAGIC + [LF] + (Decimal.Format(r.index) + [LF] + (NodeText(r.proof) + r.note)))
  }

  /** cutLine: the first line, which must be closed, and the rest. */
  function CutLine(data: Bytes): (r: Option<(Bytes, Bytes)>)
    ensures r.Some? ==> |r.value.1| < |data|
  {
    if data == [] then None
    else if data[0] == LF then Some(([], data[1..]))
    else match CutLine(data[1..])
      case None => None
      case Some((line, rest)) => Some(([data[0]] + line, rest))
  }

  /** The nodes up to the blank line, and what follows it. */
  function ReadNodes(data: Bytes): Option<(seq<Digest>, Bytes)>
    decreases |data|
  {
    match CutLine(data)
    case None => None
    case Some((line, rest)) =>
      if line == [] then Some(([], rest))
      else match (Base64.DecodeStrict(line), ReadNodes(rest))
        case (Some(node), Some((nodes, note))) => if |node| == 32 then Some(([node] + nodes, note)) else None
        case _ => None
  }

  /** Parse. */
  function Parse(data: Bytes): Option<Receipt> {
    match CutLine(data)
    case None => None
    case Some((magic, rest)) =>
      if magic != MAGIC then None
      else match CutLine(rest)
        case None => None
        case Some((index, rest2)) =>
          match (Decimal.Parse(index), ReadNodes(rest2))
          case (Some(i), Some((nodes, note))) =>
            if note == [] || Last(note) != LF then None else Some(Receipt(i, nodes, note))
          case _ => None
  }

  lemma {:induction false} CutLineOf(line: Bytes, rest: Bytes)
    requires OneLine(line)
    ensures CutLine(line + [LF] + rest) == Some((line, rest))
  {
    var data := line + [LF] + rest;
    if line == [] {
      assert data[1..] == rest;
    } else {
      CutLineOf(line[1..], rest);
      assert data[1..] == line[1..] + [LF] + rest;
      assert line == [line[0]] + line[1..];
    }
  }

  lemma EncodedNode(node: Digest)
    ensures Base64.Encode(node) != [] && OneLine(Base64.Encode(node))
    ensures Base64.DecodeStrict(Base64.Encode(node)) == Some(node)
  {
    hide Base64.Encode, Base64.DecodeQuads;
    Base64.EncodeSymbols(node);
    Base64.NothingToSkip(Base64.Encode(node));
    Base64.DecodeOfEncode(node);
  }

  lemma {:induction false} ReadNodesOf(proof: seq<Digest>, note: Bytes)
    ensures ReadNodes(NodeText(proof) + note) == Some((proof, note))
  {
    hide Base64.Encode, Base64.DecodeStrict, CutLine;
    var data := NodeText(proof) + note;
    if proof == [] {
      assert data == [] + [LF] + note;
      CutLineOf([], note);
    } else {
      ReadNodesOf(proof[1..], note);
      EncodedNode(proof[0]);
      var rest := NodeText(proof[1..]) + note;
      assert data == Base64.Encode(proof[0]) + [LF] + rest;
      CutLineOf(Base64.Encode(proof[0]), rest);
      assert proof == [proof[0]] + proof[1..];
    }
  }

  lemma IndexLine(n: uint64)
    ensures OneLine(Decimal.Format(n)) && Decimal.Parse(Decimal.Format(n)) == Some(n)
  {
    Decimal.ParseExact(Decimal.Format(n), n);
    hide Decimal.Format, Decimal.Parse;
    var s := Decimal.Format(n);
    assert forall i :: 0 <= i < |s| ==> Decimal.IsDigit(s[i]);
  }

  /** A receipt is read back as it was written. */
  lemma ParseOfFormat(r: Receipt)
    requires Format(r).Some?
    ensures Parse(Format(r).value) == Some(r)
  {
    MagicIsOneLine();
    hide Decimal.Format, Decimal.Parse, NodeText, ReadNodes, CutLine, Ascii, OneLine;
    var tail := NodeText(r.proof) + r.note;
    var middle := Decimal.Format(r.index) + [LF] + tail;
    CutLineOf(MAGIC, middle);
    IndexLine(r.index);
    CutLineOf(Decimal.Format(r.index), tail);
    ReadNodesOf(r.proof, r.note);
  }

  lemma MagicIsOneLine()
    ensures OneLine(MAGIC) && NoReturns(MAGIC)
  {
  }

  // ----------------------------------------------------------- one text, one receipt

  const CR: byte := 13

  predicate NoReturns(s: Bytes) {
    forall i :: 0 <= i < |s| ==> s[i] != CR
  }

  lemma {:induction false} CutLineIs(data: Bytes)
    requires CutLine(data).Some?
    ensures var (line, rest) := CutLine(data).value; OneLine(line) && data == line + [LF] + rest
  {
    if data[0] == LF {
      assert data == [LF] + data[1..] && [] + [LF] == [LF];
    } else {
      CutLineIs(data[1..]);
      assert data == [data[0]] + data[1..];
    }
  }

  /** `data` ends in `note`, and what precedes it has no carriage return. */
  predicate CleanBefore(data: Bytes, note: Bytes) {
    |note| <= |data| && data[|data| - |note|..] == note && NoReturns(data[..|data| - |note|])
  }

  lemma CleanConcat(a: Bytes, b: Bytes, note: Bytes)
    requires |note| <= |b| && b[|b| - |note|..] == note
    ensures (a + b)[|a + b| - |note|..] == note
    ensures CleanBefore(a + b, note) <==> NoReturns(a) && CleanBefore(b, note)
  {
    var n := |a + b| - |note|;
    assert (a + b)[n..] == b[|b| - |note|..];
    assert (a + b)[..n] == a + b[..|b| - |note|];
    var h := b[..|b| - |note|];
    assert forall i :: 0 <= i < |a| ==> (a + h)[i] == a[i];
    assert forall i :: 0 <= i < |h| ==> (a + h)[|a| + i] == h[i];
  }

  lemma LineThenRest(line: Bytes, rest: Bytes, note: Bytes)
    requires |note| <= |rest| && rest[|rest| - |note|..] == note
    ensures var data := line + [LF] + rest;
            && |note| <= |data| && data[|data| - |note|..] == note
            && (CleanBefore(data, note) <==> NoReturns(line) && CleanBefore(rest, note))
  {
    CleanConcat(line + [LF], rest, note);
    assert forall i :: 0 <= i < |line| ==> (line + [LF])[i] == line[i];
  }

  lemma CleanNode(line: Bytes)
    requires OneLine(line) && NoReturns(line) && Base64.DecodeStrict(line).Some?
    ensures Base64.Encode(Base64.DecodeStrict(line).value) == line
  {
    Base64.NoBreaksToSkip(line);
    Base64.EncodeOfDecode(line);
  }

  /** Node lines without carriage returns are the ones Format writes. */
  lemma {:induction false} NodesAre(data: Bytes, nodes: seq<Digest>, note: Bytes)
    requires ReadNodes(data) == Some((nodes, note))
    ensures |note| <= |data| && data[|data| - |note|..] == note
    ensures CleanBefore(data, note) ==> data == NodeText(nodes) + note
    decreases |data|
  {
    hide Base64.DecodeStrict, Base64.Encode, CutLine, CleanBefore;
    CutLineIs(data);
    var (line, rest) := CutLine(data).value;
    if line == [] {
      assert data == [LF] + rest;
    } else {
      NodesAre(rest, nodes[1..], note);
      LineThenRest(line, rest, note);
      if CleanBefore(data, note) {
        CleanNode(line);
        assert data == line + [LF] + rest == (line + [LF] + NodeText(nodes[1..])) + note;
      }
    }
  }

  lemma {:induction false} NodeTextIsClean(proof: seq<Digest>)
    ensures NoReturns(NodeText(proof))
  {
    if proof != [] {
      Base64.EncodeSymbols(proof[0]);
      NodeTextIsClean(proof[1..]);
    }
  }

  lemma IndexIsClean(n: uint64)
    ensures NoReturns(Decimal.Format(n))
  {
    hide Decimal.Format;
    var s := Decimal.Format(n);
    assert forall i :: 0 <= i < |s| ==> Decimal.IsDigit(s[i]);
  }

  lemma CleanItself(note: Bytes)
    ensures CleanBefore(note, note) && note[|note| - |note|..] == note
  {
  }

  lemma FormatIsClean(r: Receipt)
    requires Format(r).Some?
    ensures CleanBefore(Format(r).value, r.note)
  {
    hide NodeText, Decimal.Format, Ascii;
    MagicIsOneLine();
    NodeTextIsClean(r.proof);
    IndexIsClean(r.index);
    CleanItself(r.note);
    hide NoReturns, OneLine, CleanBefore;
    var tail := NodeText(r.proof) + r.note;
    CleanConcat(NodeText(r.proof), r.note, r.note);
    LineThenRest(Decimal.Format(r.index), tail, r.note);
    LineThenRest(MAGIC, Decimal.Format(r.index) + [LF] + tail, r.note);
  }

  lemma ParsedIsFormatted(data: Bytes, r: Receipt)
    requires Parse(data) == Some(r) && CleanBefore(data, r.note)
    ensures Format(r) == Some(data)
  {
    hide NodeText, Decimal.Format, Decimal.Parse, Ascii, CutLine, ReadNodes, CleanBefore;
    var (magic, rest) := CutLine(data).value;
    var (index, nodes) := CutLine(rest).value;
    CutLineIs(data);
    CutLineIs(rest);
    NodesAre(nodes, r.proof, r.note);
    LineThenRest(index, nodes, r.note);
    LineThenRest(magic, rest, r.note);
    Decimal.ParseExact(index, r.index);
  }

  /** The texts that Format writes are exactly those that Parse reads and that hold no carriage
      return before the note. */
  lemma FormatExact(data: Bytes, r: Receipt)
    ensures Format(r) == Some(data) <==> Parse(data) == Some(r) && CleanBefore(data, r.note)
  {
    hide Parse, CleanBefore;
    if Format(r) == Some(data) {
      ParseOfFormat(r);
      FormatIsClean(r);
    }
    if Parse(data) == Some(r) && CleanBefore(data, r.note) { ParsedIsFormatted(data, r); }
  }

  /** The text of a receipt with a carriage return before its first node. */
  function Returned(r: Receipt): Bytes
    requires r.proof != []
  {
    MAGIC + [LF]
    + (Decimal.Format(r.index) + [LF]
       + ([CR] + Base64.Encode(r.proof[0]) + [LF]
          + (NodeText(r.proof[1..]) + r.note)))
  }

  lemma ReturnedNode(node: Digest)
    ensures var line := [CR] + Base64.Encode(node);
            OneLine(line) && line != [] && Base64.DecodeStrict(line) == Some(node)
  {
    hide Base64.Encode, Base64.DecodeQuads;
    EncodedNode(node);
    var line := [CR] + Base64.Encode(node);
    assert line[1..] == Base64.Encode(node);
    assert Base64.SkipBreaks(line) == Base64.SkipBreaks(line[1..]);
  }

  /** Two texts, one receipt: the decoder skips the carriage return. */
  lemma ReturnIsLost(r: Receipt)
    requires Format(r).Some? && r.proof != []
    ensures Parse(Returned(r)) == Some(r) && Format(r) != Some(Returned(r))
  {
    MagicIsOneLine();
    hide Decimal.Format, Decimal.Parse, NodeText, CutLine, Ascii, OneLine, Base64.Encode, Base64.DecodeStrict;
    var rest := NodeText(r.proof[1..]) + r.note;
    var line := [CR] + Base64.Encode(r.proof[0]);
    var nodes := line + [LF] + rest;
    var middle := Decimal.Format(r.index) + [LF] + nodes;
    CutLineOf(MAGIC, middle);
    IndexLine(r.index);
    CutLineOf(Decimal.Format(r.index), nodes);
    ReturnedNode(r.proof[0]);
    CutLineOf(line, rest);
    ReadNodesOf(r.proof[1..], r.note);
    assert r.proof == [r.proof[0]] + r.proof[1..];
    assert ReadNodes(nodes) == Some((r.proof, r.note));
    ReturnedIsOther(r);
  }

  lemma ReturnedIsOther(r: Receipt)
    requires Format(r).Some? && r.proof != []
    ensures Format(r).value != Returned(r)
  {
    hide Decimal.Format, Base64.Encode, Ascii;
    assert |NodeText(r.proof)| == |Base64.Encode(r.proof[0])| + 1 + |NodeText(r.proof[1..])|;
    hide NodeText;
    assert |Returned(r)| == |Format(r).value| + 1;
  }

  function Prepend(nodes: seq<Digest>, r: Option<(seq<Digest>, Bytes)>): Option<(seq<Digest>, Bytes)> {
    match r
    case None => None
    case Some((more, note)) => Some((nodes + more, note))
  }

  lemma PrependNothing(r: Option<(seq<Digest>, Bytes)>)
    ensures Prepend([], r) == r
  {
    if r.Some? { assert [] + r.value.0 == r.value.0; }
  }

  lemma ReadNodesTurn(nodes: seq<Digest>, data: Bytes)
    ensures Prepend(nodes, ReadNodes(data))
         == match CutLine(data)
            case None => None
            case Some((line, rest)) =>
              if line == [] then Some((nodes, rest))
              else match Base64.DecodeStrict(line)
                case None => None
                case Some(node) => if |node| == 32 then Prepend(nodes + [node], ReadNodes(rest)) else None
  {
    hide CutLine, Base64.DecodeStrict;
    match CutLine(data)
    case None =>
    case Some((line, rest)) =>
      if line == [] {
        assert nodes + [] == nodes;
      } else if Base64.DecodeStrict(line).Some? && |Base64.DecodeStrict(line).value| == 32 && ReadNodes(rest).Some? {
        var node: Digest := Base64.DecodeStrict(line).value;
        assert nodes + ([node] + ReadNodes(rest).value.0) == nodes + [node] + ReadNodes(rest).value.0;
      }
  }

  /** Parse, as its loop runs. */
  method ParseReceipt(data: Bytes) returns (r: Option<Receipt>)
    ensures r == Parse(data)
  {
    hide CutLine, Base64.DecodeStrict, Decimal.Parse, ReadNodes, Ascii;
    var first := CutLine(data);
    if first.None? || first.value.0 != MAGIC { return None; }
    var second := CutLine(first.value.1);
    if second.None? { return None; }
    var index := Decimal.Parse(second.value.0);
    if index.None? { return None; }
    var nodes: seq<Digest>, rest := [], second.value.1;
    PrependNothing(ReadNodes(rest));
    while true
      invariant Prepend(nodes, ReadNodes(rest)) == ReadNodes(second.value.1)
      decreases |rest|
    {
      ReadNodesTurn(nodes, rest);
      var cut := CutLine(rest);
      if cut.None? { return None; }
      var (line, next) := cut.value;
      rest := next;
      if line == [] {
        if rest == [] || Last(rest) != LF { return None; }
        return Some(Receipt(index.value, nodes, rest));
      }
      var node := Base64.DecodeStrict(line);
      if node.None? || |node.value| != 32 { return None; }
      nodes := nodes + [node.value];
    }
  }

  // --------------------------------------------------------------- verification

  const LEAF_DATA_SIZE: nat := 96
  const MAX_INT: nat := 0x7FFF_FFFF_FFFF_FFFF

  datatype Outcome = Valid(attested: PN.Verdict)
                   | BadPolicy | BadLeaf | BadNote(why: PN.Refusal) | BadIndex | NotIncluded

  /** Receipt.Verify; `split` tells a note's text from its signature lines, as x/mod does. */
  function Verify(h: HashFn, k: PN.Keys, p: PN.Policy, order: seq<Bytes>, split: Bytes -> Option<Notes.Note>,
                  leafData: Bytes, r: Receipt): Outcome
    requires PN.Lists(order, p)
  {
    if !PN.PolicyValid(k, p) then BadPolicy
    else if |leafData| != LEAF_DATA_SIZE then BadLeaf
    else match split(r.note)
      case None => BadNote(PN.NotOpenable)
      case Some(n) =>
        match PN.Judge(k, p, order, n)
        case Refused(why) => BadNote(why)
        case Accepted(c, _, _, _, _) =>
          if r.index >= c.size || c.size > MAX_INT then BadIndex
          else if MV.InclusionVerdict(h, leafData, r.index, c.size, r.proof, c.root) != MV.Accepted then NotIncluded
          else Valid(PN.Judge(k, p, order, n))
  }

  /** The verdict once the note is accepted. */
  lemma VerifyIs(h: HashFn, k: PN.Keys, p: PN.Policy, order: seq<Bytes>, split: Bytes -> Option<Notes.Note>,
                 leafData: Bytes, r: Receipt, n: Notes.Note)
    requires PN.Lists(order, p) && split(r.note) == Some(n) && PN.Judge(k, p, order, n).Accepted?
    ensures var c := PN.Judge(k, p, order, n).checkpoint;
            Verify(h, k, p, order, split, leafData, r).Valid?
            <==> && |leafData| == LEAF_DATA_SIZE && r.index < c.size && c.size <= MAX_INT
                 && MV.InclusionVerdict(h, leafData, r.index, c.size, r.proof, c.root) == MV.Accepted
  {
    AcceptedPolicy(k, p, order, n);
    hide PN.Judge, PN.PolicyValid, MV.InclusionVerdict;
  }

  lemma AcceptedPolicy(k: PN.Keys, p: PN.Policy, order: seq<Bytes>, n: Notes.Note)
    requires PN.Lists(order, p) && PN.Judge(k, p, order, n).Accepted?
    ensures PN.PolicyValid(k, p)
  {
    PN.VerdictExact(k, p, order, n);
    hide PN.Judge, PN.PolicyValid;
  }

  /** A valid receipt under a checkpoint of the tree of `d` is about the leaf it names and carries
      the generated proof, or the hash collided; and every leaf has a valid receipt. */
  lemma ReceiptExact(h: HashFn, k: PN.Keys, p: PN.Policy, order: seq<Bytes>, split: Bytes -> Option<Notes.Note>,
                     d: seq<Bytes>, leafData: Bytes, r: Receipt, n: Notes.Note)
    requires PN.Lists(order, p) && split(r.note) == Some(n)
    requires PN.Judge(k, p, order, n).Accepted?
    requires var c := PN.Judge(k, p, order, n).checkpoint; c.size == |d| <= MAX_INT && c.root == Root(h, d)
    ensures var valid := Verify(h, k, p, order, split, leafData, r).Valid?;
            var right := && r.index < |d| && leafData == d[r.index] && |leafData| == LEAF_DATA_SIZE
                         && InclusionProof(h, d, r.index) == Some(r.proof);
            && (right ==> valid)
            && (valid ==>
                  right || CollisionIn(h, RootInputs(h, d) + MV.InclusionInputs(h, leafData, r.index, |d|, r.proof)))
  {
    hide *;
    VerifyIs(h, k, p, order, split, leafData, r, n);
    MV.InclusionExact(h, d, leafData, r.index, r.proof);
    ProofInRange(h, d, r.index);
  }

  lemma ProofInRange(h: HashFn, d: seq<Bytes>, m: nat)
    ensures InclusionProof(h, d, m).Some? <==> m < |d|
  {
    hide InclusionPath;
  }
}
