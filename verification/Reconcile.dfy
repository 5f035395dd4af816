/** Reconciliation of the live records with what the ledger sealed (internal/reconcile/reconcile.go). */
module Reconcile {
  import opened Bytes
  import opened Hashing
  import Hex
  import opened Blocks
  import opened Erasure

  datatype Record = Record(index: uint64, payload: Bytes, extra: bool)

  /** In the order of their names: discrepancia, faltante, no sellado, supresión no autorizada. */
  datatype Status = Altered | Missing | Extra | UnauthorizedErasure

  function Rank(s: Status): nat {
    match s
    case Altered => 0
    case Missing => 1
    case Extra => 2
    case UnauthorizedErasure => 3
  }

  /** Why an event is not authorised; the texts of the errors are not modelled. */
  datatype Reason = NoReason | ErasesNothing | NotAuthorized

  datatype Finding = Finding(
    status: Status,
    index: uint64,
    sealedHash: Bytes,
    currentHash: Bytes,
    sealedAt: Bytes,
    tenant: Bytes,
    typ: Bytes,
    reason: Reason)

  datatype Erased = Erased(index: uint64, sealedHash: Bytes, sealedAt: Bytes, erasedBy: uint64, erasedAt: Bytes)

  datatype Report = Report(treeSize: nat, checked: nat, verified: nat, findings: seq<Finding>, erased: seq<Erased>)

  function OfBlock(status: Status, b: Block, current: Bytes, reason: Reason): Finding {
    Finding(status, b.header.index, b.header.payloadHash, current,
            b.header.timestamp, b.header.tenant, b.header.typ, reason)
  }

  function ExtraOf(r: Record, current: Bytes): Finding {
    Finding(Extra, r.index, [], current, [], [], [], NoReason)
  }

  // ------------------------------------------------------------------- sorting

  /** less: by index, then by the name of the status. */
  predicate Less(a: Finding, b: Finding) {
    if a.index != b.index then a.index < b.index else Rank(a.status) < Rank(b.status)
  }

  /** Into a sorted list from the right, past what is greater. */
  function Insert(s: seq<Finding>, x: Finding): (r: seq<Finding>)
    ensures |r| == |s| + 1
  {
    if s == [] || !Less(x, Last(s)) then s + [x] else Insert(Init(s), x) + [Last(s)]
  }

  function Sorted(s: seq<Finding>): (r: seq<Finding>)
    ensures |r| == |s|
  {
    if s == [] then [] else Insert(Sorted(Init(s)), Last(s))
  }

  ghost predicate InOrder(s: seq<Finding>) {
    forall i, j :: 0 <= i < j < |s| ==> !Less(s[j], s[i])
  }

  lemma {:induction false} InsertCount(s: seq<Finding>, x: Finding)
    ensures multiset(Insert(s, x)) == multiset(s) + multiset{x}
  {
    if s != [] && Less(x, Last(s)) {
      InsertCount(Init(s), x);
      assert s == Init(s) + [Last(s)];
    }
  }

  lemma {:induction false} InsertInOrder(s: seq<Finding>, x: Finding)
    requires InOrder(s)
    ensures InOrder(Insert(s, x))
  {
    if s != [] && Less(x, Last(s)) {
      InsertInOrder(Init(s), x);
      InsertCount(Init(s), x);
      var r := Insert(Init(s), x);
      forall i | 0 <= i < |r| ensures !Less(Last(s), r[i]) {
        assert r[i] in multiset(r);
        if r[i] != x { assert r[i] in Init(s); }
      }
    }
  }

  /** The findings come out in order and are the same findings. */
  lemma {:induction false} SortedIsSorted(s: seq<Finding>)
    ensures InOrder(Sorted(s)) && multiset(Sorted(s)) == multiset(s)
  {
    if s != [] {
      SortedIsSorted(Init(s));
      InsertInOrder(Sorted(Init(s)), Last(s));
      InsertCount(Sorted(Init(s)), Last(s));
      assert s == Init(s) + [Last(s)];
    }
  }

  lemma InsertStep(p: seq<Finding>, y: Finding, x: Finding, rest: seq<Finding>)
    ensures if Less(x, y) then Insert(p + [y], x) + rest == Insert(p, x) + ([y] + rest)
            else Insert(p + [y], x) == p + [y, x]
  {
    assert Init(p + [y]) == p;
    assert Less(x, y) ==> Insert(p, x) + [y] + rest == Insert(p, x) + ([y] + rest);
  }

  lemma SortedStep(s: seq<Finding>, i: nat)
    requires i < |s|
    ensures Sorted(s[..i + 1]) == Insert(Sorted(s[..i]), s[i])
  {
    assert Init(s[..i + 1]) == s[..i];
  }

  /** The inner loop: `a[i]` moves left while it is less than what is before it. */
  method Sift(a: array<Finding>, i: nat)
    requires i < a.Length
    modifies a
    ensures a[..i + 1] == Insert(old(a[..i]), old(a[i]))
    ensures a[i + 1..] == old(a[i + 1..])
  {
    hide Insert;
    ghost var s, x := a[..], a[i];
    var j := i;
    assert a[..j] == s[..i] && a[j + 1..i + 1] == [];
    while j > 0 && Less(a[j], a[j - 1])
      invariant j <= i && a[j] == x
      invariant a[..j] == s[..j] && a[i + 1..] == s[i + 1..]
      invariant Insert(s[..j], x) + a[j + 1..i + 1] == Insert(s[..i], x)
    {
      ghost var rest := a[j + 1..i + 1];
      assert a[j - 1] == a[..j][j - 1] == s[j - 1];
      assert s[..j] == s[..j - 1] + [s[j - 1]];
      InsertStep(s[..j - 1], s[j - 1], x, rest);
      a[j], a[j - 1] := a[j - 1], a[j];
      assert a[j..i + 1] == [s[j - 1]] + rest;
      j := j - 1;
    }
    Settled(s[..j], x);
    assert a[..j] == s[..j];
    assert a[..i + 1] == a[..j] + [x] + a[j + 1..i + 1];
  }

  lemma Settled(p: seq<Finding>, x: Finding)
    requires p != [] ==> !Less(x, Last(p))
    ensures Insert(p, x) == p + [x]
  {
  }

  /** sortFindings: insertion sort in place. */
  method SortFindings(a: array<Finding>)
    modifies a
    ensures a[..] == Sorted(old(a[..]))
  {
    ghost var s := a[..];
    for i := 0 to a.Length
      invariant a[..i] == Sorted(s[..i]) && a[i..] == s[i..]
    {
      SortedStep(s, i);
      assert a[i] == s[i];
      Sift(a, i);
      assert a[i + 1..] == s[i..][1..];
    }
    assert a[..a.Length] == a[..] && s[..a.Length] == s;
  }
  // ---------------------------------------------------------- the single pass

  datatype Content = Content(hash: Bytes, since: uint64)

  datatype Coverage = Coverage(event: Block, through: nat)

  datatype Events = Events(byEvent: map<Bytes, Content>, authorised: map<Bytes, seq<Coverage>>, findings: seq<Finding>)

  function Covering(authorised: map<Bytes, seq<Coverage>>, hash: Bytes): seq<Coverage> {
    if hash in authorised then authorised[hash] else []
  }

  /** One turn of clasificaEventos. */
  function Classify(env: Env, a: Authority, b: Block, s: Events): Events {
    if b.header.typ != EVENT_TYPE then
      match EventPayloadHash(env.sha, b.header.payloadHash)
      case None => s
      case Some(eph) =>
        if eph in s.byEvent then s
        else s.(byEvent := s.byEvent[eph := Content(b.header.payloadHash, b.header.index)])
    else if b.header.payloadHash !in s.byEvent || s.byEvent[b.header.payloadHash].since >= b.header.index then
      s.(findings := s.findings + [OfBlock(UnauthorizedErasure, b, [], ErasesNothing)])
    else
      var hash := s.byEvent[b.header.payloadHash].hash;
      match Check(env, a, b, hash)
      case None => s.(findings := s.findings + [OfBlock(UnauthorizedErasure, b, [], NotAuthorized)])
      case Some(through) =>
        s.(authorised := s.authorised[hash := Covering(s.authorised, hash) + [Coverage(b, through)]])
  }

  function ClassifyAll(env: Env, a: Authority, blocks: seq<Block>, n: nat): Events
    requires n <= |blocks|
  {
    if n == 0 then Events(map[], map[], []) else Classify(env, a, blocks[n - 1], ClassifyAll(env, a, blocks, n - 1))
  }

  /** eventoQueSuprime. */
  function ErasingEvent(cover: seq<Coverage>, b: Block): Option<Block> {
    if cover == [] then None
    else if cover[0].through >= b.header.index then Some(cover[0].event)
    else ErasingEvent(cover[1..], b)
  }

  function SealedMap(blocks: seq<Block>, n: nat): map<uint64, Block>
    requires n <= |blocks|
  {
    if n == 0 then map[] else SealedMap(blocks, n - 1)[blocks[n - 1].header.index := blocks[n - 1]]
  }

  datatype Compared = Compared(verified: nat, findings: seq<Finding>, seen: set<uint64>)

  /** The callback on one live record. */
  function Compare(env: Env, sealed: map<uint64, Block>, r: Record, c: Compared): Compared {
    var current := Hex.Encode(env.sha(r.payload));
    if r.extra || r.index !in sealed then c.(findings := c.findings + [ExtraOf(r, current)])
    else
      var b := sealed[r.index];
      var seen := c.seen + {r.index};
      if b.header.payloadHash == current then c.(seen := seen, verified := c.verified + 1)
      else c.(seen := seen, findings := c.findings + [OfBlock(Altered, b, current, NoReason)])
  }

  function CompareAll(env: Env, sealed: map<uint64, Block>, records: seq<Record>, n: nat): Compared
    requires n <= |records|
  {
    if n == 0 then Compared(0, [], {})
    else Compare(env, sealed, records[n - 1], CompareAll(env, sealed, records, n - 1))
  }

  datatype Gone = Gone(findings: seq<Finding>, erased: seq<Erased>)

  function ErasedBy(b: Block, ev: Block): Erased {
    Erased(b.header.index, b.header.payloadHash, b.header.timestamp, ev.header.index, ev.header.timestamp)
  }

  /** One sealed block that may be gone from the live system. */
  function LookFor(authorised: map<Bytes, seq<Coverage>>, seen: set<uint64>, b: Block, g: Gone): Gone {
    if b.header.index in seen || b.header.typ == EVENT_TYPE then g
    else match ErasingEvent(Covering(authorised, b.header.payloadHash), b)
      case Some(ev) => g.(erased := g.erased + [ErasedBy(b, ev)])
      case None => g.(findings := g.findings + [OfBlock(Missing, b, [], NoReason)])
  }

  function LookForAll(authorised: map<Bytes, seq<Coverage>>, seen: set<uint64>, blocks: seq<Block>, n: nat): Gone
    requires n <= |blocks|
  {
    if n == 0 then Gone([], [])
    else LookFor(authorised, seen, blocks[n - 1], LookForAll(authorised, seen, blocks, n - 1))
  }

  /** What the whole pass reports. */
  function ReportOf(env: Env, a: Authority, blocks: seq<Block>, records: seq<Record>): Report {
    var events := ClassifyAll(env, a, blocks, |blocks|);
    var c := CompareAll(env, SealedMap(blocks, |blocks|), records, |records|);
    var g := LookForAll(events.authorised, c.seen, blocks, |blocks|);
    Report(|blocks|, |records|, c.verified, Sorted(c.findings + g.findings + events.findings), g.erased)
  }

  method ClassifyEvents(env: Env, a: Authority, blocks: seq<Block>) returns (s: Events)
    ensures s == ClassifyAll(env, a, blocks, |blocks|)
  {
    hide Check, EventPayloadHash;
    var byEvent: map<Bytes, Content>, authorised: map<Bytes, seq<Coverage>>, findings: seq<Finding> := map[], map[], [];
    for i := 0 to |blocks|
      invariant Events(byEvent, authorised, findings) == ClassifyAll(env, a, blocks, i)
    {
      var b := blocks[i];
      if b.header.typ != EVENT_TYPE {
        var eph := EventPayloadHash(env.sha, b.header.payloadHash);
        if eph.Some? && eph.value !in byEvent {
          byEvent := byEvent[eph.value := Content(b.header.payloadHash, b.header.index)];
        }
      } else if b.header.payloadHash !in byEvent || byEvent[b.header.payloadHash].since >= b.header.index {
        findings := findings + [OfBlock(UnauthorizedErasure, b, [], ErasesNothing)];
      } else {
        var hash := byEvent[b.header.payloadHash].hash;
        var through := Check(env, a, b, hash);
        if through.None? {
          findings := findings + [OfBlock(UnauthorizedErasure, b, [], NotAuthorized)];
        } else {
          authorised := authorised[hash := Covering(authorised, hash) + [Coverage(b, through.value)]];
        }
      }
    }
    return Events(byEvent, authorised, findings);
  }

  /** The callback over every record the source yields. */
  method CompareRecords(env: Env, sealed: map<uint64, Block>, records: seq<Record>)
    returns (checked: nat, verified: nat, findings: seq<Finding>, seen: set<uint64>)
    ensures checked == |records|
    ensures Compared(verified, findings, seen) == CompareAll(env, sealed, records, |records|)
  {
    checked, verified, findings, seen := 0, 0, [], {};
    while checked < |records|
      invariant checked <= |records|
      invariant Compared(verified, findings, seen) == CompareAll(env, sealed, records, checked)
    {
      hide Hex.Encode;
      var r := records[checked];
      checked := checked + 1;
      var current := Hex.Encode(env.sha(r.payload));
      if r.extra || r.index !in sealed {
        findings := findings + [ExtraOf(r, current)];
      } else {
        var b := sealed[r.index];
        seen := seen + {r.index};
        if b.header.payloadHash == current {
          verified := verified + 1;
        } else {
          findings := findings + [OfBlock(Altered, b, current, NoReason)];
        }
      }
    }
  }

  /** The pass over the sealed blocks that no live record was about. */
  method LookForGone(authorised: map<Bytes, seq<Coverage>>, seen: set<uint64>, blocks: seq<Block>,
                     findings0: seq<Finding>)
    returns (findings: seq<Finding>, erased: seq<Erased>)
    ensures findings == findings0 + LookForAll(authorised, seen, blocks, |blocks|).findings
    ensures erased == LookForAll(authorised, seen, blocks, |blocks|).erased
  {
    findings, erased := findings0, [];
    for i := 0 to |blocks|
      invariant findings == findings0 + LookForAll(authorised, seen, blocks, i).findings
      invariant erased == LookForAll(authorised, seen, blocks, i).erased
    {
      hide ErasingEvent, Covering;
      var b := blocks[i];
      if b.header.index in seen { continue; }
      if b.header.typ == EVENT_TYPE { continue; }
      var ev := ErasingEvent(Covering(authorised, b.header.payloadHash), b);
      if ev.Some? {
        erased := erased + [ErasedBy(b, ev.value)];
      } else {
        findings := findings + [OfBlock(Missing, b, [], NoReason)];
      }
    }
  }

  /** Reconcile. The source hands over its records and may then fail, which aborts; reading the
      blocks is the ledger's part. */
  method Reconcile(env: Env, a: Authority, blocks: seq<Block>, records: seq<Record>, sourceFails: bool)
    returns (rep: Option<Report>)
    ensures rep == if sourceFails then None else Some(ReportOf(env, a, blocks, records))
  {
    var sealed: map<uint64, Block> := map[];
    for i := 0 to |blocks|
      invariant sealed == SealedMap(blocks, i)
    {
      sealed := sealed[blocks[i].header.index := blocks[i]];
    }
    hide Sorted, ClassifyAll, CompareAll, LookForAll, SealedMap;
    var events := ClassifyEvents(env, a, blocks);
    var checked, verified, compared, seen := CompareRecords(env, sealed, records);
    if sourceFails { return None; }
    var findings, erased := LookForGone(events.authorised, seen, blocks, compared);
    var all := findings + events.findings;
    var sorting := new Finding[|all|](i requires 0 <= i < |all| => all[i]);
    assert sorting[..] == all;
    SortFindings(sorting);
    return Some(Report(|blocks|, checked, verified, sorting[..], erased));
  }
}
