/** What the single map-based pass of Reconcile means, block by block and record by record. */
module ReconcileMeaning {
  import opened Bytes
  import opened Hashing
  import Hex
  import opened Blocks
  import opened Erasure
  import opened Reconcile

  /** Block k is at its index, as a chain leaves it. */
  ghost predicate InPlace(blocks: seq<Block>) {
    forall k :: 0 <= k < |blocks| ==> blocks[k].header.index == k
  }

  predicate IsContent(b: Block) {
    b.header.typ != EVENT_TYPE
  }

  function HashOf(b: Block): Bytes {
    b.header.payloadHash
  }

  /** The event payloads hashed for the blocks of the ledger. */
  ghost function EventInputs(blocks: seq<Block>): set<Bytes> {
    PayloadInputs(set k | 0 <= k < |blocks| :: HashOf(blocks[k]))
  }

  // ------------------------------------------------------- the meaning, in quantifiers

  /** Event j is authorised to erase the content of block i, and reaches as far as block i. */
  predicate Reaches(env: Env, a: Authority, blocks: seq<Block>, i: nat, j: nat)
    requires i < |blocks| && j < |blocks|
  {
    var c := Check(env, a, blocks[j], HashOf(blocks[i]));
    !IsContent(blocks[j]) && c.Some? && i <= c.value
  }

  /** The content `hash` was sealed before block j. */
  ghost predicate SealedBefore(blocks: seq<Block>, j: nat, hash: Bytes)
    requires j <= |blocks|
  {
    exists k :: 0 <= k < j && IsContent(blocks[k]) && HashOf(blocks[k]) == hash
  }

  /** Event j is authorised for some content sealed before it. */
  ghost predicate Authorised(env: Env, a: Authority, blocks: seq<Block>, j: nat)
    requires j < |blocks|
  {
    exists k :: 0 <= k < j && IsContent(blocks[k]) && Check(env, a, blocks[j], HashOf(blocks[k])).Some?
  }

  /** Some content sealed before event j is the one it says it erases. */
  ghost predicate NamesContent(env: Env, blocks: seq<Block>, j: nat)
    requires j < |blocks|
  {
    exists k :: 0 <= k < j && IsContent(blocks[k])
                && EventPayloadHash(env.sha, HashOf(blocks[k])) == Some(HashOf(blocks[j]))
  }

  /** Event j is the first that reaches block i. */
  ghost predicate FirstCover(env: Env, a: Authority, blocks: seq<Block>, i: nat, j: nat)
    requires i < |blocks|
  {
    j < |blocks| && Reaches(env, a, blocks, i, j) && forall k :: 0 <= k < j ==> !Reaches(env, a, blocks, i, k)
  }

  // ------------------------------------------------------------------ the events

  /** Every event of the first n that covers a content, in order. */
  ghost function CoverList(env: Env, a: Authority, blocks: seq<Block>, hash: Bytes, n: nat): seq<Coverage>
    requires n <= |blocks|
  {
    if n == 0 then []
    else
      var rest := CoverList(env, a, blocks, hash, n - 1);
      var c := Check(env, a, blocks[n - 1], hash);
      if !IsContent(blocks[n - 1]) && c.Some? && SealedBefore(blocks, n - 1, hash)
      then rest + [Coverage(blocks[n - 1], c.value)] else rest
  }

  /** One finding for each event of the first n that is not authorised, in order. */
  ghost function UnauthorisedList(env: Env, a: Authority, blocks: seq<Block>, n: nat): seq<Finding>
    requires n <= |blocks|
  {
    if n == 0 then []
    else
      var rest, b := UnauthorisedList(env, a, blocks, n - 1), blocks[n - 1];
      if IsContent(b) || Authorised(env, a, blocks, n - 1) then rest
      else rest + [OfBlock(UnauthorizedErasure, b, [],
                           if NamesContent(env, blocks, n - 1) then NotAuthorized else ErasesNothing)]
  }

  /** Where an event hash was first seen, and for which content. */
  ghost predicate FirstSeen(env: Env, blocks: seq<Block>, n: nat, eph: Bytes, c: Content)
    requires n <= |blocks|
  {
    exists k :: 0 <= k < n && IsContent(blocks[k]) && c.hash == HashOf(blocks[k]) && c.since == k
                && EventPayloadHash(env.sha, HashOf(blocks[k])) == Some(eph)
  }

  ghost predicate EventsKnown(env: Env, blocks: seq<Block>, n: nat, byEvent: map<Bytes, Content>)
    requires n <= |blocks|
  {
    && (forall eph :: eph in byEvent ==> FirstSeen(env, blocks, n, eph, byEvent[eph]))
    && (forall k :: 0 <= k < n && IsContent(blocks[k]) && EventPayloadHash(env.sha, HashOf(blocks[k])).Some?
                    ==> EventPayloadHash(env.sha, HashOf(blocks[k])).value in byEvent)
  }

  ghost predicate Means(env: Env, a: Authority, blocks: seq<Block>, n: nat, s: Events)
    requires n <= |blocks|
  {
    && EventsKnown(env, blocks, n, s.byEvent)
    && (forall hash :: Covering(s.authorised, hash) == CoverList(env, a, blocks, hash, n))
    && s.findings == UnauthorisedList(env, a, blocks, n)
  }

  lemma CheckNeedsEvent(env: Env, a: Authority, ev: Block, hash: Bytes)
    requires Check(env, a, ev, hash).Some?
    ensures !IsContent(ev) && EventPayloadHash(env.sha, hash) == Some(HashOf(ev))
            && Check(env, a, ev, hash).value < ev.header.index
  {
    hide EventPayloadHash, VerifyCID;
  }

  /** Two contents of the ledger with one event hash are the same content. */
  lemma OneContent(env: Env, blocks: seq<Block>, k: nat, l: nat)
    requires k < |blocks| && l < |blocks| && !CollisionIn(env.sha, EventInputs(blocks))
    requires EventPayloadHash(env.sha, HashOf(blocks[k])).Some?
    requires EventPayloadHash(env.sha, HashOf(blocks[k])) == EventPayloadHash(env.sha, HashOf(blocks[l]))
    ensures HashOf(blocks[k]) == HashOf(blocks[l])
  {
    var hashes := set i | 0 <= i < |blocks| :: HashOf(blocks[i]);
    assert HashOf(blocks[k]) in hashes && HashOf(blocks[l]) in hashes;
    hide EventPayloadHash, PayloadInputs, HashOf;
    EventHashInjective(env.sha, HashOf(blocks[k]), HashOf(blocks[l]), hashes);
  }

  /** What the map says of event j is what is true of it. */
  lemma EventLookup(env: Env, a: Authority, blocks: seq<Block>, j: nat, byEvent: map<Bytes, Content>)
    requires InPlace(blocks) && j < |blocks| && !IsContent(blocks[j])
    requires !CollisionIn(env.sha, EventInputs(blocks))
    requires EventsKnown(env, blocks, j, byEvent)
    ensures var ev := blocks[j];
            && (HashOf(ev) in byEvent <==> NamesContent(env, blocks, j))
            && (HashOf(ev) in byEvent ==>
                  && byEvent[HashOf(ev)].since < ev.header.index
                  && SealedBefore(blocks, j, byEvent[HashOf(ev)].hash)
                  && forall hash :: SealedBefore(blocks, j, hash) && Check(env, a, ev, hash).Some? ==>
                       hash == byEvent[HashOf(ev)].hash)
            && (HashOf(ev) !in byEvent ==>
                  forall hash :: SealedBefore(blocks, j, hash) ==> Check(env, a, ev, hash).None?)
  {
    hide Check, EventPayloadHash, CollisionIn, EventInputs;
    var ev := blocks[j];
    if HashOf(ev) in byEvent {
      var c := byEvent[HashOf(ev)];
      var k :| 0 <= k < j && IsContent(blocks[k]) && c.hash == HashOf(blocks[k]) && c.since == k
               && EventPayloadHash(env.sha, HashOf(blocks[k])) == Some(HashOf(ev));
      forall hash | SealedBefore(blocks, j, hash) && Check(env, a, ev, hash).Some? ensures hash == c.hash {
        CheckNeedsEvent(env, a, ev, hash);
        var l :| 0 <= l < j && IsContent(blocks[l]) && HashOf(blocks[l]) == hash;
        OneContent(env, blocks, k, l);
      }
    } else {
      forall hash | SealedBefore(blocks, j, hash) ensures Check(env, a, ev, hash).None? {
        if Check(env, a, ev, hash).Some? { CheckNeedsEvent(env, a, ev, hash); }
      }
    }
  }

  lemma ContentMeans(env: Env, a: Authority, blocks: seq<Block>, n: nat, s: Events)
    requires InPlace(blocks) && n < |blocks| && Means(env, a, blocks, n, s) && IsContent(blocks[n])
    ensures Means(env, a, blocks, n + 1, Classify(env, a, blocks[n], s))
  {
    hide Check, EventPayloadHash, Authorised, NamesContent, SealedBefore;
    var r := Classify(env, a, blocks[n], s);
    assert EventsKnown(env, blocks, n + 1, r.byEvent);
    hide EventsKnown;
    forall hash ensures Covering(r.authorised, hash) == CoverList(env, a, blocks, hash, n + 1) {}
  }

  /** An event covers a content exactly when the map leads to it and the authorisation is good. */
  lemma EventLookupAt(env: Env, a: Authority, blocks: seq<Block>, j: nat, byEvent: map<Bytes, Content>, hash: Bytes)
    requires InPlace(blocks) && j < |blocks| && !IsContent(blocks[j])
    requires !CollisionIn(env.sha, EventInputs(blocks))
    requires EventsKnown(env, blocks, j, byEvent)
    ensures var ev := blocks[j];
            && (HashOf(ev) in byEvent ==> byEvent[HashOf(ev)].since < ev.header.index)
            && (SealedBefore(blocks, j, hash) && Check(env, a, ev, hash).Some?
                <==> HashOf(ev) in byEvent && hash == byEvent[HashOf(ev)].hash && Check(env, a, ev, hash).Some?)
  {
    EventLookup(env, a, blocks, j, byEvent);
    hide *;
  }

  lemma EventCover(env: Env, a: Authority, blocks: seq<Block>, n: nat, s: Events, hash: Bytes)
    requires InPlace(blocks) && n < |blocks| && Means(env, a, blocks, n, s) && !IsContent(blocks[n])
    requires !CollisionIn(env.sha, EventInputs(blocks))
    ensures Covering(Classify(env, a, blocks[n], s).authorised, hash) == CoverList(env, a, blocks, hash, n + 1)
  {
    assert Covering(s.authorised, hash) == CoverList(env, a, blocks, hash, n);
    assert EventsKnown(env, blocks, n, s.byEvent);
    hide *;
    EventLookupAt(env, a, blocks, n, s.byEvent, hash);
    ClassifyCovering(env, a, blocks[n], s, hash);
    CoverListStep(env, a, blocks, n, hash);
  }

  lemma ClassifyCovering(env: Env, a: Authority, b: Block, s: Events, hash: Bytes)
    requires !IsContent(b)
    ensures var c := Check(env, a, b, hash);
            Covering(Classify(env, a, b, s).authorised, hash)
            == if HashOf(b) in s.byEvent && s.byEvent[HashOf(b)].since < b.header.index
                  && hash == s.byEvent[HashOf(b)].hash && c.Some?
               then Covering(s.authorised, hash) + [Coverage(b, c.value)] else Covering(s.authorised, hash)
  {
    hide Check, EventPayloadHash;
  }

  lemma CoverListStep(env: Env, a: Authority, blocks: seq<Block>, n: nat, hash: Bytes)
    requires n < |blocks| && !IsContent(blocks[n])
    ensures var c := Check(env, a, blocks[n], hash);
            CoverList(env, a, blocks, hash, n + 1)
            == if SealedBefore(blocks, n, hash) && c.Some?
               then CoverList(env, a, blocks, hash, n) + [Coverage(blocks[n], c.value)]
               else CoverList(env, a, blocks, hash, n)
  {
    hide Check, SealedBefore;
  }

  lemma EventFindings(env: Env, a: Authority, blocks: seq<Block>, n: nat, s: Events)
    requires InPlace(blocks) && n < |blocks| && Means(env, a, blocks, n, s) && !IsContent(blocks[n])
    requires !CollisionIn(env.sha, EventInputs(blocks))
    ensures Classify(env, a, blocks[n], s).findings == UnauthorisedList(env, a, blocks, n + 1)
  {
    EventLookup(env, a, blocks, n, s.byEvent);
    SealedAsAuthorised(env, a, blocks, n);
    hide Check, EventPayloadHash, NamesContent, CollisionIn, EventInputs, InPlace, EventsKnown, SealedBefore,
         Authorised, CoverList;
  }

  lemma KnownStays(env: Env, blocks: seq<Block>, n: nat, byEvent: map<Bytes, Content>)
    requires n < |blocks| && !IsContent(blocks[n]) && EventsKnown(env, blocks, n, byEvent)
    ensures EventsKnown(env, blocks, n + 1, byEvent)
  {
    hide EventPayloadHash;
  }

  lemma ClassifyEventKeeps(env: Env, a: Authority, b: Block, s: Events)
    requires !IsContent(b)
    ensures Classify(env, a, b, s).byEvent == s.byEvent
  {
    hide Check, EventPayloadHash;
  }

  lemma EventMeans(env: Env, a: Authority, blocks: seq<Block>, n: nat, s: Events)
    requires InPlace(blocks) && n < |blocks| && Means(env, a, blocks, n, s) && !IsContent(blocks[n])
    requires !CollisionIn(env.sha, EventInputs(blocks))
    ensures Means(env, a, blocks, n + 1, Classify(env, a, blocks[n], s))
  {
    hide Classify, EventsKnown, CoverList, UnauthorisedList, InPlace, IsContent, CollisionIn, EventInputs, Covering;
    EventFindings(env, a, blocks, n, s);
    ClassifyEventKeeps(env, a, blocks[n], s);
    KnownStays(env, blocks, n, s.byEvent);
    var r := Classify(env, a, blocks[n], s);
    forall hash ensures Covering(r.authorised, hash) == CoverList(env, a, blocks, hash, n + 1) {
      EventCover(env, a, blocks, n, s, hash);
    }
  }

  lemma SealedAsAuthorised(env: Env, a: Authority, blocks: seq<Block>, j: nat)
    requires j < |blocks|
    ensures Authorised(env, a, blocks, j) <==>
              exists hash :: SealedBefore(blocks, j, hash) && Check(env, a, blocks[j], hash).Some?
  {
    hide Check, IsContent, HashOf;
    if Authorised(env, a, blocks, j) {
      var k :| 0 <= k < j && IsContent(blocks[k]) && Check(env, a, blocks[j], HashOf(blocks[k])).Some?;
      assert SealedBefore(blocks, j, HashOf(blocks[k]));
    }
  }

  /** The pass over the blocks finds exactly the authorised events, under the content each erases,
      and exactly the unauthorised ones. */
  lemma {:induction false} ClassifyMeans(env: Env, a: Authority, blocks: seq<Block>, n: nat)
    requires InPlace(blocks) && n <= |blocks| && !CollisionIn(env.sha, EventInputs(blocks))
    ensures Means(env, a, blocks, n, ClassifyAll(env, a, blocks, n))
  {
    hide Means, Classify, CollisionIn, EventInputs, InPlace, IsContent;
    if n > 0 {
      ClassifyMeans(env, a, blocks, n - 1);
      var s := ClassifyAll(env, a, blocks, n - 1);
      if IsContent(blocks[n - 1]) { ContentMeans(env, a, blocks, n - 1, s); }
      else { EventMeans(env, a, blocks, n - 1, s); }
    } else {
      NothingMeans(env, a, blocks);
    }
  }

  lemma NothingMeans(env: Env, a: Authority, blocks: seq<Block>)
    ensures Means(env, a, blocks, 0, ClassifyAll(env, a, blocks, 0))
  {
  }

  // ------------------------------------------------------------ erased or missing

  /** The first event of the cover that reaches block i is the first event of the ledger that does. */
  lemma {:induction false} CoverMeans(env: Env, a: Authority, blocks: seq<Block>, i: nat, n: nat)
    requires InPlace(blocks) && i < |blocks| && n <= |blocks| && IsContent(blocks[i])
    ensures var ev := ErasingEvent(CoverList(env, a, blocks, HashOf(blocks[i]), n), blocks[i]);
            && (ev.None? <==> forall j :: 0 <= j < n ==> !Reaches(env, a, blocks, i, j))
            && (ev.Some? ==> exists j :: 0 <= j < n && ev.value == blocks[j] && FirstCover(env, a, blocks, i, j))
  {
    hide Reaches, CoverList;
    if n > 0 {
      CoverMeans(env, a, blocks, i, n - 1);
      CoverStep(env, a, blocks, i, n);
      hide ErasingEvent, HashOf, IsContent;
      if forall j :: 0 <= j < n - 1 ==> !Reaches(env, a, blocks, i, j) {
        assert Reaches(env, a, blocks, i, n - 1) ==> FirstCover(env, a, blocks, i, n - 1);
      }
    } else {
      NoCover(env, a, blocks, HashOf(blocks[i]));
    }
  }

  lemma NoCover(env: Env, a: Authority, blocks: seq<Block>, hash: Bytes)
    ensures CoverList(env, a, blocks, hash, 0) == []
  {
  }

  lemma CoverStep(env: Env, a: Authority, blocks: seq<Block>, i: nat, n: nat)
    requires InPlace(blocks) && i < |blocks| && 0 < n <= |blocks| && IsContent(blocks[i])
    ensures var hash := HashOf(blocks[i]);
            var before := ErasingEvent(CoverList(env, a, blocks, hash, n - 1), blocks[i]);
            ErasingEvent(CoverList(env, a, blocks, hash, n), blocks[i])
            == if before.Some? then before else if Reaches(env, a, blocks, i, n - 1) then Some(blocks[n - 1]) else None
  {
    hide Check, ErasingEvent;
    var hash := HashOf(blocks[i]);
    var c := Check(env, a, blocks[n - 1], hash);
    if c.Some? {
      CheckNeedsEvent(env, a, blocks[n - 1], hash);
      LastErases(CoverList(env, a, blocks, hash, n - 1), Coverage(blocks[n - 1], c.value), blocks[i]);
    }
    if c.Some? && i <= c.value {
      assert i < n - 1;
      assert SealedBefore(blocks, n - 1, hash);
    }
  }

  lemma {:induction false} LastErases(cover: seq<Coverage>, c: Coverage, b: Block)
    ensures ErasingEvent(cover + [c], b)
         == if ErasingEvent(cover, b).Some? then ErasingEvent(cover, b)
            else if c.through >= b.header.index then Some(c.event) else None
  {
    if cover == [] {
      assert [] + [c] == [c] && [c][1..] == [];
    } else {
      LastErases(cover[1..], c, b);
      assert (cover + [c])[1..] == cover[1..] + [c];
    }
  }

  // ----------------------------------------------------------------- the records

  /** Some live record is about block i. */
  ghost predicate Seen(records: seq<Record>, n: nat, i: nat)
    requires n <= |records|
  {
    exists r :: 0 <= r < n && NamesBlock(records[r], i)
  }

  predicate NamesBlock(r: Record, i: nat) {
    !r.extra && r.index == i
  }

  function CurrentHash(env: Env, r: Record): Bytes {
    Hex.Encode(env.sha(r.payload))
  }

  predicate IsExtra(blocks: seq<Block>, r: Record) {
    r.extra || r.index >= |blocks|
  }

  predicate Matches(env: Env, blocks: seq<Block>, r: Record) {
    !IsExtra(blocks, r) && HashOf(blocks[r.index]) == CurrentHash(env, r)
  }

  /** One finding for each of the first n records that does not match the block it names. */
  function RecordFindings(env: Env, blocks: seq<Block>, records: seq<Record>, n: nat): seq<Finding>
    requires n <= |records|
  {
    if n == 0 then []
    else
      var rest, r := RecordFindings(env, blocks, records, n - 1), records[n - 1];
      if IsExtra(blocks, r) then rest + [ExtraOf(r, CurrentHash(env, r))]
      else if Matches(env, blocks, r) then rest
      else rest + [OfBlock(Altered, blocks[r.index], CurrentHash(env, r), NoReason)]
  }

  function MatchCount(env: Env, blocks: seq<Block>, records: seq<Record>, n: nat): nat
    requires n <= |records|
  {
    if n == 0 then 0
    else MatchCount(env, blocks, records, n - 1) + if Matches(env, blocks, records[n - 1]) then 1 else 0
  }

  lemma {:induction false} SealedIs(blocks: seq<Block>, n: nat)
    requires InPlace(blocks) && n <= |blocks|
    ensures forall i: uint64 :: i in SealedMap(blocks, n) <==> i < n
    ensures forall i: uint64 :: i < n ==> SealedMap(blocks, n)[i] == blocks[i]
  {
    if n > 0 { SealedIs(blocks, n - 1); }
  }

  lemma {:induction false} CompareMeans(env: Env, blocks: seq<Block>, sealed: map<uint64, Block>, records: seq<Record>,
                                        n: nat)
    requires n <= |records|
    requires forall i: uint64 :: i in sealed <==> i < |blocks|
    requires forall i: uint64 :: i < |blocks| ==> sealed[i] == blocks[i]
    ensures var c := CompareAll(env, sealed, records, n);
            && c.verified == MatchCount(env, blocks, records, n)
            && c.findings == RecordFindings(env, blocks, records, n)
            && forall i: uint64 :: i in c.seen <==> i < |blocks| && Seen(records, n, i)
  {
    hide Hex.Encode, Seen;
    if n > 0 {
      CompareMeans(env, blocks, sealed, records, n - 1);
      SeenOneMore(records, n);
    } else {
      NoneSeen(records);
    }
  }

  lemma SeenOneMore(records: seq<Record>, n: nat)
    requires 0 < n <= |records|
    ensures forall i: uint64 :: Seen(records, n, i) <==> Seen(records, n - 1, i) || NamesBlock(records[n - 1], i)
  {
    hide NamesBlock;
  }

  lemma NoneSeen(records: seq<Record>)
    ensures forall i: uint64 :: !Seen(records, 0, i)
  {
  }

  // ------------------------------------------------------------------ the report

  /** Block i is a content no live record is about. */
  ghost predicate Unseen(blocks: seq<Block>, records: seq<Record>, i: nat)
    requires i < |blocks|
  {
    IsContent(blocks[i]) && !Seen(records, |records|, i)
  }

  ghost predicate Covered(env: Env, a: Authority, blocks: seq<Block>, i: nat)
    requires i < |blocks|
  {
    exists j :: 0 <= j < |blocks| && Reaches(env, a, blocks, i, j)
  }

  ghost function MissingList(env: Env, a: Authority, blocks: seq<Block>, records: seq<Record>, n: nat): seq<Finding>
    requires n <= |blocks|
  {
    if n == 0 then []
    else
      var rest := MissingList(env, a, blocks, records, n - 1);
      if Unseen(blocks, records, n - 1) && !Covered(env, a, blocks, n - 1)
      then rest + [OfBlock(Missing, blocks[n - 1], [], NoReason)] else rest
  }

  /** The first event that reaches block i. */
  ghost function FirstCoverOf(env: Env, a: Authority, blocks: seq<Block>, i: nat): (j: nat)
    requires i < |blocks| && Covered(env, a, blocks, i)
    ensures j < |blocks| && FirstCover(env, a, blocks, i, j)
  {
    FirstExists(env, a, blocks, i);
    var j :| FirstCover(env, a, blocks, i, j);
    j
  }

  lemma FirstExists(env: Env, a: Authority, blocks: seq<Block>, i: nat)
    requires i < |blocks| && Covered(env, a, blocks, i)
    ensures exists j :: FirstCover(env, a, blocks, i, j)
  {
    hide Reaches;
    var j :| 0 <= j < |blocks| && Reaches(env, a, blocks, i, j);
    FirstBelow(env, a, blocks, i, j);
  }

  lemma {:induction false} FirstBelow(env: Env, a: Authority, blocks: seq<Block>, i: nat, j: nat)
    requires i < |blocks| && j < |blocks| && Reaches(env, a, blocks, i, j)
    ensures exists k :: FirstCover(env, a, blocks, i, k)
    decreases j
  {
    hide Reaches;
    if k :| 0 <= k < j && Reaches(env, a, blocks, i, k) {
      FirstBelow(env, a, blocks, i, k);
    } else {
      assert FirstCover(env, a, blocks, i, j);
    }
  }

  /** The erasure of block i, by the first event that reaches it. */
  ghost function ErasureOf(env: Env, a: Authority, blocks: seq<Block>, i: nat): Option<Erased>
    requires i < |blocks|
  {
    if Covered(env, a, blocks, i) then Some(ErasedBy(blocks[i], blocks[FirstCoverOf(env, a, blocks, i)])) else None
  }

  lemma CoveredIs(env: Env, a: Authority, blocks: seq<Block>, i: nat)
    requires i < |blocks|
    ensures Covered(env, a, blocks, i) <==> ErasureOf(env, a, blocks, i).Some?
  {
    hide Reaches;
  }

  ghost function ErasedList(env: Env, a: Authority, blocks: seq<Block>, records: seq<Record>, n: nat): seq<Erased>
    requires n <= |blocks|
  {
    if n == 0 then []
    else
      var rest, e := ErasedList(env, a, blocks, records, n - 1), ErasureOf(env, a, blocks, n - 1);
      if Unseen(blocks, records, n - 1) && e.Some? then rest + [e.value] else rest
  }

  lemma {:induction false} LookForMeans(env: Env, a: Authority, blocks: seq<Block>, records: seq<Record>,
                                        authorised: map<Bytes, seq<Coverage>>, seen: set<uint64>, n: nat)
    requires InPlace(blocks) && n <= |blocks|
    requires forall hash :: Covering(authorised, hash) == CoverList(env, a, blocks, hash, |blocks|)
    requires forall i: uint64 :: i in seen <==> i < |blocks| && Seen(records, |records|, i)
    ensures LookForAll(authorised, seen, blocks, n)
         == Gone(MissingList(env, a, blocks, records, n), ErasedList(env, a, blocks, records, n))
  {
    if n > 0 {
      LookForMeans(env, a, blocks, records, authorised, seen, n - 1);
      CoveredIs(env, a, blocks, n - 1);
      hide Covering, CoverList, Unseen, Covered, LookFor, InPlace, Seen, ErasureOf;
      OneBlock(env, a, blocks, records, authorised, seen, n - 1, LookForAll(authorised, seen, blocks, n - 1));
    }
  }

  lemma OneBlock(env: Env, a: Authority, blocks: seq<Block>, records: seq<Record>,
                 authorised: map<Bytes, seq<Coverage>>, seen: set<uint64>, i: nat, g: Gone)
    requires InPlace(blocks) && i < |blocks|
    requires forall hash :: Covering(authorised, hash) == CoverList(env, a, blocks, hash, |blocks|)
    requires forall j: uint64 :: j in seen <==> j < |blocks| && Seen(records, |records|, j)
    ensures LookFor(authorised, seen, blocks[i], g)
            == if !Unseen(blocks, records, i) then g
               else if Covered(env, a, blocks, i) then g.(erased := g.erased + [ErasureOf(env, a, blocks, i).value])
               else g.(findings := g.findings + [OfBlock(Missing, blocks[i], [], NoReason)])
  {
    hide Reaches, CoverList, Seen, ErasingEvent;
    assert blocks[i].header.index == i;
    hide InPlace;
    if IsContent(blocks[i]) {
      assert InPlace(blocks);
      CoverMeans(env, a, blocks, i, |blocks|);
      var cover := CoverList(env, a, blocks, HashOf(blocks[i]), |blocks|);
      assert Covering(authorised, HashOf(blocks[i])) == cover;
      if ErasingEvent(cover, blocks[i]).Some? {
        var j :| 0 <= j < |blocks| && ErasingEvent(cover, blocks[i]).value == blocks[j]
          && FirstCover(env, a, blocks, i, j);
        OneFirst(env, a, blocks, i, j, FirstCoverOf(env, a, blocks, i));
      }
    }
  }

  lemma OneFirst(env: Env, a: Authority, blocks: seq<Block>, i: nat, j: nat, k: nat)
    requires i < |blocks| && FirstCover(env, a, blocks, i, j) && FirstCover(env, a, blocks, i, k)
    ensures j == k
  {
    hide Reaches;
  }

  /** The report of the single pass, said without maps: a record that does not match the block it
      names is a finding; an unseen content is erased, by the first event authorised for it that
      reaches it, if there is one, and missing otherwise; an event authorised for nothing sealed
      before it is a finding; and the findings are in order. The alternative is a collision between
      the event payloads of two contents of the ledger. */
  lemma ReportMeans(env: Env, a: Authority, blocks: seq<Block>, records: seq<Record>)
    requires InPlace(blocks)
    ensures CollisionIn(env.sha, EventInputs(blocks))
            || ReportOf(env, a, blocks, records)
               == Report(|blocks|, |records|, MatchCount(env, blocks, records, |records|),
                         Sorted(RecordFindings(env, blocks, records, |records|)
                                + MissingList(env, a, blocks, records, |blocks|)
                                + UnauthorisedList(env, a, blocks, |blocks|)),
                         ErasedList(env, a, blocks, records, |blocks|))
  {
    if !CollisionIn(env.sha, EventInputs(blocks)) {
      ClassifyMeans(env, a, blocks, |blocks|);
      var events := ClassifyAll(env, a, blocks, |blocks|);
      hide Sorted, ClassifyAll, CoverList, UnauthorisedList, EventsKnown, CompareAll, Seen, Covering, SealedMap,
           InPlace;
      SealedIs(blocks, |blocks|);
      var sealed := SealedMap(blocks, |blocks|);
      CompareMeans(env, blocks, sealed, records, |records|);
      LookForMeans(env, a, blocks, records, events.authorised, CompareAll(env, sealed, records, |records|).seen,
                   |blocks|);
    }
  }

  /** What reaches a block comes after it: a copy sealed again after the limit is not covered. */
  lemma CoverIsLater(env: Env, a: Authority, blocks: seq<Block>, i: nat, j: nat)
    requires InPlace(blocks) && i < |blocks| && j < |blocks| && Reaches(env, a, blocks, i, j)
    ensures i < j
  {
    CheckNeedsEvent(env, a, blocks[j], HashOf(blocks[i]));
    hide Check;
  }

  // ------------------------------------------------------------------ conservation

  function Count(s: seq<Finding>, st: Status): nat {
    if s == [] then 0 else Count(Init(s), st) + if Last(s).status == st then 1 else 0
  }

  lemma CountOneMore(s: seq<Finding>, f: Finding, st: Status)
    ensures Count(s + [f], st) == Count(s, st) + if f.status == st then 1 else 0
  {
    assert Init(s + [f]) == s;
  }

  lemma CountAll(s: seq<Finding>, f: Finding)
    ensures Count(s + [f], Altered) == Count(s, Altered) + if f.status == Altered then 1 else 0
    ensures Count(s + [f], Missing) == Count(s, Missing) + if f.status == Missing then 1 else 0
    ensures Count(s + [f], Extra) == Count(s, Extra) + if f.status == Extra then 1 else 0
    ensures Count(s + [f], UnauthorizedErasure)
         == Count(s, UnauthorizedErasure) + if f.status == UnauthorizedErasure then 1 else 0
  {
    hide Count;
    CountOneMore(s, f, Altered);
    CountOneMore(s, f, Missing);
    CountOneMore(s, f, Extra);
    CountOneMore(s, f, UnauthorizedErasure);
  }

  lemma {:induction false} CountConcat(s: seq<Finding>, u: seq<Finding>, st: Status)
    ensures Count(s + u, st) == Count(s, st) + Count(u, st)
  {
    hide Count;
    if u == [] {
      assert s + u == s;
      CountNone(st);
    } else {
      CountConcat(s, Init(u), st);
      assert s + u == (s + Init(u)) + [Last(u)] && u == Init(u) + [Last(u)];
      CountOneMore(s + Init(u), Last(u), st);
      CountOneMore(Init(u), Last(u), st);
    }
  }

  lemma CountNone(st: Status)
    ensures Count([], st) == 0
  {
  }

  lemma {:induction false} CountInsert(s: seq<Finding>, x: Finding, st: Status)
    ensures Count(Insert(s, x), st) == Count(s, st) + if x.status == st then 1 else 0
  {
    if s == [] || !Less(x, Last(s)) {
      CountOneMore(s, x, st);
    } else {
      CountInsert(Init(s), x, st);
      CountOneMore(Insert(Init(s), x), Last(s), st);
    }
  }

  lemma {:induction false} CountSorted(s: seq<Finding>, st: Status)
    ensures Count(Sorted(s), st) == Count(s, st)
  {
    if s != [] {
      CountSorted(Init(s), st);
      CountInsert(Sorted(Init(s)), Last(s), st);
    }
  }

  lemma RecordStep(env: Env, blocks: seq<Block>, records: seq<Record>, n: nat) returns (x: Finding)
    requires 0 < n <= |records|
    ensures var rest, m := RecordFindings(env, blocks, records, n - 1), Matches(env, blocks, records[n - 1]);
            && MatchCount(env, blocks, records, n) == MatchCount(env, blocks, records, n - 1) + (if m then 1 else 0)
            && RecordFindings(env, blocks, records, n) == if m then rest else rest + [x]
    ensures x.status in {Altered, Extra}
  {
    var r := records[n - 1];
    hide CurrentHash;
    x := if IsExtra(blocks, r) then ExtraOf(r, CurrentHash(env, r))
         else OfBlock(Altered, blocks[r.index], CurrentHash(env, r), NoReason);
  }

  lemma NoFindings(env: Env, blocks: seq<Block>, records: seq<Record>, st: Status)
    ensures MatchCount(env, blocks, records, 0) == 0 && Count(RecordFindings(env, blocks, records, 0), st) == 0
  {
  }

  lemma {:induction false} RecordCounts(env: Env, blocks: seq<Block>, records: seq<Record>, n: nat)
    requires n <= |records|
    ensures var f := RecordFindings(env, blocks, records, n);
            && n == MatchCount(env, blocks, records, n) + Count(f, Altered) + Count(f, Extra)
            && Count(f, Missing) == 0 && Count(f, UnauthorizedErasure) == 0
  {
    hide *;
    if n > 0 {
      RecordCounts(env, blocks, records, n - 1);
      var x := RecordStep(env, blocks, records, n);
      CountAll(RecordFindings(env, blocks, records, n - 1), x);
    } else {
      NoFindings(env, blocks, records, Altered);
      NoFindings(env, blocks, records, Extra);
      NoFindings(env, blocks, records, Missing);
      NoFindings(env, blocks, records, UnauthorizedErasure);
    }
  }

  ghost function UnseenCount(blocks: seq<Block>, records: seq<Record>, n: nat): nat
    requires n <= |blocks|
  {
    if n == 0 then 0 else UnseenCount(blocks, records, n - 1) + if Unseen(blocks, records, n - 1) then 1 else 0
  }

  lemma {:induction false} MissingCounts(env: Env, a: Authority, blocks: seq<Block>, records: seq<Record>, n: nat)
    requires n <= |blocks|
    ensures var f := MissingList(env, a, blocks, records, n);
            && Count(f, Missing) + |ErasedList(env, a, blocks, records, n)| == UnseenCount(blocks, records, n)
            && Count(f, Altered) == 0 && Count(f, Extra) == 0 && Count(f, UnauthorizedErasure) == 0
  {
    hide *;
    if n > 0 {
      MissingCounts(env, a, blocks, records, n - 1);
      var x := MissingStep(env, a, blocks, records, n);
      CountAll(MissingList(env, a, blocks, records, n - 1), x);
    } else {
      NoneMissing(env, a, blocks, records);
    }
  }

  /** One block more: it is seen, or erased, or adds a finding. */
  lemma MissingStep(env: Env, a: Authority, blocks: seq<Block>, records: seq<Record>, n: nat) returns (x: Finding)
    requires 0 < n <= |blocks|
    ensures var u, c := Unseen(blocks, records, n - 1), Covered(env, a, blocks, n - 1);
            var rest := MissingList(env, a, blocks, records, n - 1);
            && UnseenCount(blocks, records, n) == UnseenCount(blocks, records, n - 1) + (if u then 1 else 0)
            && MissingList(env, a, blocks, records, n) == (if u && !c then rest + [x] else rest)
            && |ErasedList(env, a, blocks, records, n)|
               == |ErasedList(env, a, blocks, records, n - 1)| + (if u && c then 1 else 0)
    ensures x.status == Missing
  {
    hide Unseen, Covered, ErasureOf;
    x := OfBlock(Missing, blocks[n - 1], [], NoReason);
    CoveredIs(env, a, blocks, n - 1);
  }

  lemma NoneMissing(env: Env, a: Authority, blocks: seq<Block>, records: seq<Record>)
    ensures MissingList(env, a, blocks, records, 0) == [] && ErasedList(env, a, blocks, records, 0) == []
    ensures UnseenCount(blocks, records, 0) == 0 && forall st :: Count([], st) == 0
  {
  }

  ghost function UnauthorisedCount(env: Env, a: Authority, blocks: seq<Block>, n: nat): nat
    requires n <= |blocks|
  {
    if n == 0 then 0
    else UnauthorisedCount(env, a, blocks, n - 1)
         + if !IsContent(blocks[n - 1]) && !Authorised(env, a, blocks, n - 1) then 1 else 0
  }

  lemma {:induction false} EventCounts(env: Env, a: Authority, blocks: seq<Block>, n: nat)
    requires n <= |blocks|
    ensures var f := UnauthorisedList(env, a, blocks, n);
            && Count(f, UnauthorizedErasure) == UnauthorisedCount(env, a, blocks, n)
            && Count(f, Altered) == 0 && Count(f, Extra) == 0 && Count(f, Missing) == 0
  {
    hide *;
    if n > 0 {
      EventCounts(env, a, blocks, n - 1);
      var x := EventStep(env, a, blocks, n);
      CountAll(UnauthorisedList(env, a, blocks, n - 1), x);
    } else {
      NoEvents(env, a, blocks);
    }
  }

  /** One block more: it is a content, or authorised, or adds a finding. */
  lemma EventStep(env: Env, a: Authority, blocks: seq<Block>, n: nat) returns (x: Finding)
    requires 0 < n <= |blocks|
    ensures var u := !IsContent(blocks[n - 1]) && !Authorised(env, a, blocks, n - 1);
            var rest := UnauthorisedList(env, a, blocks, n - 1);
            && UnauthorisedCount(env, a, blocks, n) == UnauthorisedCount(env, a, blocks, n - 1) + (if u then 1 else 0)
            && UnauthorisedList(env, a, blocks, n) == if u then rest + [x] else rest
    ensures x.status == UnauthorizedErasure
  {
    hide Authorised, NamesContent, IsContent;
    x := OfBlock(UnauthorizedErasure, blocks[n - 1], [],
                 if NamesContent(env, blocks, n - 1) then NotAuthorized else ErasesNothing);
  }

  lemma NoEvents(env: Env, a: Authority, blocks: seq<Block>)
    ensures UnauthorisedList(env, a, blocks, 0) == [] && UnauthorisedCount(env, a, blocks, 0) == 0
    ensures forall st :: Count([], st) == 0
  {
  }

  /** Nothing is lost in the counts: every record read is verified, altered or extra; every unseen
      content is missing or erased; every unauthorised event gives one finding; and the findings are
      in order. */
  lemma Conservation(env: Env, a: Authority, blocks: seq<Block>, records: seq<Record>)
    requires InPlace(blocks)
    ensures var r := ReportOf(env, a, blocks, records);
            || CollisionIn(env.sha, EventInputs(blocks))
            || (&& r.checked == r.verified + Count(r.findings, Altered) + Count(r.findings, Extra)
                && Count(r.findings, Missing) + |r.erased| == UnseenCount(blocks, records, |blocks|)
                && Count(r.findings, UnauthorizedErasure) == UnauthorisedCount(env, a, blocks, |blocks|)
                && InOrder(r.findings))
  {
    ReportMeans(env, a, blocks, records);
    var x, y, z := RecordFindings(env, blocks, records, |records|), MissingList(env, a, blocks, records, |blocks|),
                   UnauthorisedList(env, a, blocks, |blocks|);
    RecordCounts(env, blocks, records, |records|);
    MissingCounts(env, a, blocks, records, |blocks|);
    EventCounts(env, a, blocks, |blocks|);
    SortedIsSorted(x + y + z);
    hide *;
    forall st ensures Count(Sorted(x + y + z), st) == Count(x, st) + Count(y, st) + Count(z, st) {
      CountSorted(x + y + z, st);
      CountConcat(x + y, z, st);
      CountConcat(x, y, st);
    }
  }
}
