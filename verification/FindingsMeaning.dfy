/** Every line of a reconciliation report, field by field: which findings there are and what each of them
    says, and which erasures. */
module FindingsMeaning {
  import opened Bytes
  import opened Hashing
  import Hex
  import opened Blocks
  import opened Erasure
  import opened Reconcile
  import opened ReconcileMeaning

  /** A live record of block i whose payload is not the one sealed: what was sealed, and what there is. */
  ghost predicate AlteredBy(env: Env, blocks: seq<Block>, r: Record, f: Finding) {
    && !r.extra && r.index < |blocks|
    && var h, current := blocks[r.index].header, Hex.Encode(env.sha(r.payload));
       && h.payloadHash != current
       && f.status == Altered && f.index == r.index && f.sealedHash == h.payloadHash && f.currentHash == current
       && f.sealedAt == h.timestamp && f.tenant == h.tenant && f.typ == h.typ && f.reason == NoReason
  }

  /** A live record that no block stands for. */
  ghost predicate ExtraBy(env: Env, blocks: seq<Block>, r: Record, f: Finding) {
    && (r.extra || r.index >= |blocks|)
    && f.status == Extra && f.index == r.index && f.currentHash == Hex.Encode(env.sha(r.payload))
    && f.sealedHash == [] && f.sealedAt == [] && f.tenant == [] && f.typ == [] && f.reason == NoReason
  }

  /** A block that is neither live nor erased, or an event authorised for nothing sealed before it. */
  ghost predicate BlockIs(status: Status, b: Block, reason: Reason, f: Finding) {
    && f.status == status && f.index == b.header.index && f.sealedHash == b.header.payloadHash && f.currentHash == []
    && f.sealedAt == b.header.timestamp && f.tenant == b.header.tenant && f.typ == b.header.typ && f.reason == reason
  }

  ghost predicate MissingAt(env: Env, a: Authority, blocks: seq<Block>, records: seq<Record>, i: nat, f: Finding)
    requires i < |blocks|
  {
    && Unseen(blocks, records, i) && !Covered(env, a, blocks, i)
    && BlockIs(Missing, blocks[i], NoReason, f)
  }

  ghost predicate UnauthorisedAt(env: Env, a: Authority, blocks: seq<Block>, j: nat, f: Finding)
    requires j < |blocks|
  {
    && blocks[j].header.typ == EVENT_TYPE && !Authorised(env, a, blocks, j)
    && BlockIs(UnauthorizedErasure, blocks[j],
               if NamesContent(env, blocks, j) then NotAuthorized else ErasesNothing, f)
  }

  ghost predicate OfRecords(env: Env, blocks: seq<Block>, records: seq<Record>, n: nat, f: Finding)
    requires n <= |records|
  {
    exists r :: 0 <= r < n && (AlteredBy(env, blocks, records[r], f) || ExtraBy(env, blocks, records[r], f))
  }

  lemma OneRecord(env: Env, blocks: seq<Block>, records: seq<Record>, n: nat, f: Finding)
    requires InPlace(blocks) && 0 < n <= |records|
    ensures f in RecordFindings(env, blocks, records, n)
            <==> || f in RecordFindings(env, blocks, records, n - 1)
                 || AlteredBy(env, blocks, records[n - 1], f) || ExtraBy(env, blocks, records[n - 1], f)
  {
    hide Hex.Encode;
  }

  lemma OfOneMore(env: Env, blocks: seq<Block>, records: seq<Record>, n: nat, f: Finding)
    requires 0 < n <= |records|
    ensures OfRecords(env, blocks, records, n, f)
            <==> || OfRecords(env, blocks, records, n - 1, f)
                 || AlteredBy(env, blocks, records[n - 1], f) || ExtraBy(env, blocks, records[n - 1], f)
  {
    hide AlteredBy, ExtraBy;
  }

  lemma NoRecords(env: Env, blocks: seq<Block>, records: seq<Record>, f: Finding)
    ensures f !in RecordFindings(env, blocks, records, 0) && !OfRecords(env, blocks, records, 0, f)
  {
  }

  lemma {:induction false} RecordsExact(env: Env, blocks: seq<Block>, records: seq<Record>, n: nat, f: Finding)
    requires InPlace(blocks) && n <= |records|
    ensures f in RecordFindings(env, blocks, records, n) <==> OfRecords(env, blocks, records, n, f)
  {
    hide *;
    if n == 0 {
      NoRecords(env, blocks, records, f);
    } else {
      RecordsExact(env, blocks, records, n - 1, f);
      OneRecord(env, blocks, records, n, f);
      OfOneMore(env, blocks, records, n, f);
    }
  }

  lemma BlockFinding(status: Status, b: Block, reason: Reason, f: Finding)
    ensures BlockIs(status, b, reason, f) <==> f == OfBlock(status, b, [], reason)
  {
  }

  lemma OneMissing(env: Env, a: Authority, blocks: seq<Block>, records: seq<Record>, n: nat, f: Finding)
    requires 0 < n <= |blocks|
    ensures f in MissingList(env, a, blocks, records, n)
            <==> f in MissingList(env, a, blocks, records, n - 1) || MissingAt(env, a, blocks, records, n - 1, f)
  {
    hide Unseen, Covered, BlockIs;
    BlockFinding(Missing, blocks[n - 1], NoReason, f);
  }

  lemma OneUnauthorised(env: Env, a: Authority, blocks: seq<Block>, n: nat, f: Finding)
    requires 0 < n <= |blocks|
    ensures f in UnauthorisedList(env, a, blocks, n)
            <==> f in UnauthorisedList(env, a, blocks, n - 1) || UnauthorisedAt(env, a, blocks, n - 1, f)
  {
    hide Authorised, NamesContent, BlockIs;
    BlockFinding(UnauthorizedErasure, blocks[n - 1],
                 if NamesContent(env, blocks, n - 1) then NotAuthorized else ErasesNothing, f);
  }

  lemma {:induction false} MissingExact(env: Env, a: Authority, blocks: seq<Block>, records: seq<Record>, n: nat,
                                        f: Finding)
    requires n <= |blocks|
    ensures f in MissingList(env, a, blocks, records, n)
            <==> exists i :: 0 <= i < n && MissingAt(env, a, blocks, records, i, f)
  {
    hide MissingAt;
    if n > 0 {
      MissingExact(env, a, blocks, records, n - 1, f);
      OneMissing(env, a, blocks, records, n, f);
    }
  }

  lemma {:induction false} UnauthorisedExact(env: Env, a: Authority, blocks: seq<Block>, n: nat, f: Finding)
    requires n <= |blocks|
    ensures f in UnauthorisedList(env, a, blocks, n)
            <==> exists j :: 0 <= j < n && UnauthorisedAt(env, a, blocks, j, f)
  {
    hide UnauthorisedAt;
    if n > 0 {
      UnauthorisedExact(env, a, blocks, n - 1, f);
      OneUnauthorised(env, a, blocks, n, f);
    }
  }

  /** The findings of a report are exactly these: for each live record, that it differs from the block it
      names, with the hash sealed and the hash it has now, or that no block stands for it; for each
      content, that it is gone; for each event, that it is not authorised. */
  lemma FindingExact(env: Env, a: Authority, blocks: seq<Block>, records: seq<Record>, f: Finding)
    requires InPlace(blocks)
    ensures CollisionIn(env.sha, EventInputs(blocks))
            || (f in ReportOf(env, a, blocks, records).findings
                <==> || OfRecords(env, blocks, records, |records|, f)
                     || (exists i :: 0 <= i < |blocks| && MissingAt(env, a, blocks, records, i, f))
                     || (exists j :: 0 <= j < |blocks| && UnauthorisedAt(env, a, blocks, j, f)))
  {
    hide *;
    ReportMeans(env, a, blocks, records);
    RecordsExact(env, blocks, records, |records|, f);
    MissingExact(env, a, blocks, records, |blocks|, f);
    UnauthorisedExact(env, a, blocks, |blocks|, f);
    var x, y, z := RecordFindings(env, blocks, records, |records|), MissingList(env, a, blocks, records, |blocks|),
                   UnauthorisedList(env, a, blocks, |blocks|);
    SortedIsSorted(x + y + z);
    assert f in Sorted(x + y + z) <==> f in multiset(x + y + z);
  }

  /** The findings are in order of their index, and at one index in that of the names of their kinds:
      altered, missing, extra, unauthorised erasure. */
  lemma OrderExact(env: Env, a: Authority, blocks: seq<Block>, records: seq<Record>, i: nat, j: nat)
    requires i < j < |ReportOf(env, a, blocks, records).findings|
    ensures var f, g := ReportOf(env, a, blocks, records).findings[i], ReportOf(env, a, blocks, records).findings[j];
            && f.index <= g.index
            && (f.index == g.index ==>
                  && (g.status == Altered ==> f.status == Altered)
                  && (g.status == Missing ==> f.status in {Altered, Missing})
                  && (f.status == UnauthorizedErasure ==> g.status == UnauthorizedErasure))
  {
    hide ClassifyAll, CompareAll, LookForAll, SealedMap, Sorted;
    var events := ClassifyAll(env, a, blocks, |blocks|);
    var c := CompareAll(env, SealedMap(blocks, |blocks|), records, |records|);
    var g := LookForAll(events.authorised, c.seen, blocks, |blocks|);
    SortedIsSorted(c.findings + g.findings + events.findings);
  }

  /** Block i is gone from the live system, and event j is the first authorised to erase it. */
  ghost predicate ErasedAt(env: Env, a: Authority, blocks: seq<Block>, records: seq<Record>, i: nat, j: nat, e: Erased)
    requires i < |blocks|
  {
    && Unseen(blocks, records, i) && FirstCover(env, a, blocks, i, j)
    && e.index == blocks[i].header.index && e.sealedHash == blocks[i].header.payloadHash
    && e.sealedAt == blocks[i].header.timestamp
    && e.erasedBy == blocks[j].header.index && e.erasedAt == blocks[j].header.timestamp
  }

  ghost predicate ErasedIn(env: Env, a: Authority, blocks: seq<Block>, records: seq<Record>, n: nat, e: Erased)
    requires n <= |blocks|
  {
    exists i, j :: 0 <= i < n && 0 <= j < |blocks| && ErasedAt(env, a, blocks, records, i, j, e)
  }

  lemma ErasureIs(env: Env, a: Authority, blocks: seq<Block>, records: seq<Record>, i: nat, e: Erased)
    requires i < |blocks|
    ensures (exists j :: 0 <= j < |blocks| && ErasedAt(env, a, blocks, records, i, j, e))
            <==> Unseen(blocks, records, i) && ErasureOf(env, a, blocks, i) == Some(e)
  {
    hide Reaches, Unseen;
    if j :| 0 <= j < |blocks| && ErasedAt(env, a, blocks, records, i, j, e) {
      assert Covered(env, a, blocks, i);
      OneFirst(env, a, blocks, i, j, FirstCoverOf(env, a, blocks, i));
    }
    if Unseen(blocks, records, i) && ErasureOf(env, a, blocks, i) == Some(e) {
      assert ErasedAt(env, a, blocks, records, i, FirstCoverOf(env, a, blocks, i), e);
    }
  }

  lemma {:induction false} ErasedListExact(env: Env, a: Authority, blocks: seq<Block>, records: seq<Record>, n: nat,
                                           e: Erased)
    requires n <= |blocks|
    ensures e in ErasedList(env, a, blocks, records, n) <==> ErasedIn(env, a, blocks, records, n, e)
  {
    hide ErasedAt, Unseen, ErasureOf;
    if n > 0 {
      ErasedListExact(env, a, blocks, records, n - 1, e);
      ErasureIs(env, a, blocks, records, n - 1, e);
    }
  }

  /** The erasures of a report are exactly those of the contents that are gone, each by the first event
      authorised for it that reaches it. */
  lemma ErasedExact(env: Env, a: Authority, blocks: seq<Block>, records: seq<Record>, e: Erased)
    requires InPlace(blocks)
    ensures CollisionIn(env.sha, EventInputs(blocks))
            || (e in ReportOf(env, a, blocks, records).erased <==> ErasedIn(env, a, blocks, records, |blocks|, e))
  {
    hide *;
    ReportMeans(env, a, blocks, records);
    ErasedListExact(env, a, blocks, records, |blocks|, e);
  }
}
