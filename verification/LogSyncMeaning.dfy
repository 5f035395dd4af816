/** What a synchronisation reports, over a network that may answer anything: when it sends a request
    and which, when it is attested, when it reports a rollback, and what it leaves on disk. */
module LogSyncMeaning {
  import opened Bytes
  import opened Hashing
  import opened Merkle
  import opened Notes
  import opened LogLock
  import opened LogSync
  import CF = CheckpointFormat
  import WP = WitnessProtocol

  // ----------------------------------------------------------------- the notes

  /** The witness's own signature on a note gives an instant exactly when it is the first line of its
      key, it verifies, and it is a cosignature of that instant. */
  lemma TimeExact(wv: Verifier, n: Note, t: nat)
    ensures CosignatureTime(wv, n) == Some(t)
            <==> && SignedUnder(wv, n)
                 && var b := FirstOf(wv, n.lines).value.blob; b.CosignatureBlob? && b.time == t
  {
    hide Open, Verifies;
    OpenExact(wv, n);
  }

  ghost predicate Verified(wv: Verifier, n: Note) {
    SignedUnder(wv, n) && FirstOf(wv, n.lines).value.blob.CosignatureBlob?
  }

  lemma TimeIsVerified(wv: Verifier, n: Note)
    ensures CosignatureTime(wv, n).Some? <==> Verified(wv, n)
  {
    hide CosignatureTime, Verifies;
    if Verified(wv, n) { TimeExact(wv, n, FirstOf(wv, n.lines).value.blob.time); }
    if CosignatureTime(wv, n).Some? { TimeExact(wv, n, CosignatureTime(wv, n).value); }
  }

  /** A verified note of the witness about this log, of `x` leaves. */
  ghost predicate Says(wv: Verifier, origin: Bytes, fetch: Fetch, x: nat) {
    && fetch.Fetched? && Verified(wv, fetch.note)
    && var c := CF.Parse(fetch.note.text);
       c.Ok? && c.value.origin == origin && c.value.size == x
  }

  /** The witness is taken to remember `x`: nothing yet, or what a note of its own says. */
  ghost predicate Known(wv: Verifier, origin: Bytes, fetch: Fetch, x: nat) {
    Says(wv, origin, fetch, x) || (fetch.NotFound? && x == 0)
  }

  lemma RemoteExact(wv: Verifier, origin: Bytes, fetch: Fetch, x: nat)
    ensures RemoteSize(wv, origin, fetch) == KnownSize(x, false) <==> Says(wv, origin, fetch, x)
    ensures RemoteSize(wv, origin, fetch) == KnownSize(x, true) <==> fetch.NotFound? && x == 0
    ensures RemoteSize(wv, origin, fetch).KnownSize? ==> RemoteSize(wv, origin, fetch).first == fetch.NotFound?
  {
    hide CF.Parse, CosignatureTime, Verified;
    if fetch.Fetched? { TimeIsVerified(wv, fetch.note); }
  }

  // --------------------------------------------------------------- the request

  function Mine(h: HashFn, origin: Bytes, leaves: seq<Bytes>): CF.Checkpoint
    requires |leaves| < 0x1_0000_0000_0000_0000
  {
    CF.Checkpoint(origin, |leaves|, Root(h, leaves))
  }

  /** The log signs what it has on disk exactly when its origin can be written, its lock is not ahead
      and the signature reaches the disk. */
  ghost predicate Signs(h: HashFn, origin: Bytes, l: Local, put: Put)
    requires |l.leaves| < 0x1_0000_0000_0000_0000
  {
    CF.ValidOrigin(origin) && Monotonic(l.last, Mine(h, origin, l.leaves)) && put == Stored
  }

  /** The request a log of these leaves makes to a witness that remembers `x`: its own signed
      checkpoint, and the consistency proof from there. */
  ghost predicate Asks(h: HashFn, origin: Bytes, me: Verifier, leaves: seq<Bytes>, x: nat, q: Request)
    requires |leaves| < 0x1_0000_0000_0000_0000
  {
    && q.oldSize == x && |q.proof| <= WP.MAX_PROOF_LINES
    && (if 0 < x < |leaves| then ConsistencyProof(h, leaves, x) == Some(q.proof) else q.proof == [])
    && CF.Parse(q.note.text) == CF.Ok(Mine(h, origin, leaves))
    && q.note.lines == [SigLine(me.name, me.hash, LogBlob(Ed(me.key, q.note.text)))]
  }

  lemma SignsExact(h: HashFn, origin: Bytes, me: Verifier, l: Local, put: Put)
    requires |l.leaves| < 0x1_0000_0000_0000_0000
    ensures var c := Mine(h, origin, l.leaves);
            var r := SignSpec(origin, me, l.last, true, l.durable, c, put);
            && (r.result.Done? <==> Signs(h, origin, l, put))
            && (r.result.Done? ==>
                  && r.last == Some(c) && r.durable == Some(r.result.value)
                  && CF.Parse(r.result.value.text) == CF.Ok(c)
                  && r.result.value.lines == [SigLine(me.name, me.hash, LogBlob(Ed(me.key, r.result.value.text)))])
  {
    hide CF.Parse, Root, CF.ValidOrigin;
    var c := Mine(h, origin, l.leaves);
    if CF.Format(c).Ok? { CF.FormatExact(CF.Format(c).value, c); }
  }

  /** The request that a synchronisation would send, from a witness size it knows. */
  lemma BuildExact(h: HashFn, origin: Bytes, me: Verifier, leaves: seq<Bytes>, x: nat, msg: Note)
    requires x <= |leaves| < 0x1_0000_0000_0000_0000
    requires CF.Parse(msg.text) == CF.Ok(Mine(h, origin, leaves))
    requires msg.lines == [SigLine(me.name, me.hash, LogBlob(Ed(me.key, msg.text)))]
    ensures var r := BuildRequest(h, leaves, x, msg);
            && r.Done?
            && (|r.value.proof| <= WP.MAX_PROOF_LINES ==> Asks(h, origin, me, leaves, x, r.value))
            && r.value.note == msg
  {
    hide CF.Parse, Root, ConsistencyPath;
  }

  // ---------------------------------------------------------- the whole of it

  /** The parts of a synchronisation, one after another. */
  lemma SyncIs(h: HashFn, origin: Bytes, me: Verifier, wv: Verifier, l: Local, put: Put, net: Network, x: nat,
               first: bool)
    requires |l.leaves| < 0x1_0000_0000_0000_0000
    requires RemoteSize(wv, origin, net.fetch) == KnownSize(x, first) && x <= |l.leaves|
    ensures var out := SyncSpec(h, origin, me, wv, l, put, net);
            var n := |l.leaves|;
            var signed := SignSpec(origin, me, l.last, true, l.durable, Mine(h, origin, l.leaves), put);
            if signed.result.Failed? then
              out == SyncOutcome(l.(last := signed.last, durable := signed.durable), None,
                                 NoSync(LockRefused(signed.result.error)))
            else
              var r := BuildRequest(h, l.leaves, x, signed.result.value);
              r.Done? ==>
                var s1 := l.(last := signed.last, durable := signed.durable);
                if |r.value.proof| > WP.MAX_PROOF_LINES then out == SyncOutcome(s1, None, NoSync(RequestTooLong))
                else
                  && out.sent == Some(r.value)
                  && match net.reply(r.value)
                     case ReplyFailed => out.local == s1 && out.result == NoSync(ReplyError)
                     case ReplyConflict(size) =>
                       && out.local == s1
                       && out.result == NoSync(if size > n then RolledBack(n, size) else ReplyError)
                     case ReplyOk(whole) =>
                       var at := CosignatureTime(wv, whole);
                       if at.Some? && CoversLocalState(whole, origin, n, Root(h, l.leaves)) then
                         && out.local == s1.(checkpoints := Record(l.checkpoints, n, whole))
                         && out.result == Attested(x, first, whole, at.value)
                       else out.local == s1 && out.result in {NoSync(NotVerified), NoSync(NotAttested)}
  {
    hide Root, RemoteSize, SignSpec, BuildRequest, CosignatureTime, CoversLocalState;
    assert l.leaves[..|l.leaves|] == l.leaves;
  }

  /** With nothing known of the witness, nothing is sent, nothing changes and no one is accused. */
  lemma NothingKnown(h: HashFn, origin: Bytes, me: Verifier, wv: Verifier, l: Local, put: Put, net: Network)
    requires |l.leaves| < 0x1_0000_0000_0000_0000
    requires RemoteSize(wv, origin, net.fetch).NoSize?
    ensures var out := SyncSpec(h, origin, me, wv, l, put, net);
            && out.sent == None && out.local == l && out.result.NoSync?
            && out.result.error in {FetchError, NotVerified, SyncError.Unreadable, OtherOrigin}
  {
    hide Root, CF.Parse, CosignatureTime, SignSpec;
  }

  /** A witness known to be ahead is a rollback, found before anything is signed. */
  lemma KnownAhead(h: HashFn, origin: Bytes, me: Verifier, wv: Verifier, l: Local, put: Put, net: Network, x: nat,
                   first: bool)
    requires |l.leaves| < 0x1_0000_0000_0000_0000
    requires RemoteSize(wv, origin, net.fetch) == KnownSize(x, first) && x > |l.leaves|
    ensures SyncSpec(h, origin, me, wv, l, put, net)
            == SyncOutcome(l, None, NoSync(RolledBack(|l.leaves|, x)))
  {
    hide Root, RemoteSize, SignSpec;
  }

  predicate Fits(h: HashFn, leaves: seq<Bytes>, x: nat) {
    0 < x < |leaves| ==>
      var p := ConsistencyProof(h, leaves, x);
      p.Some? && |p.value| <= WP.MAX_PROOF_LINES
  }

  lemma SentExact(h: HashFn, origin: Bytes, me: Verifier, wv: Verifier, l: Local, put: Put, net: Network, x: nat)
    requires |l.leaves| < 0x1_0000_0000_0000_0000 && Known(wv, origin, net.fetch, x)
    ensures var out := SyncSpec(h, origin, me, wv, l, put, net);
            && (out.sent.Some? <==> x <= |l.leaves| && Signs(h, origin, l, put) && Fits(h, l.leaves, x))
            && (out.sent.Some? ==> Asks(h, origin, me, l.leaves, x, out.sent.value))
  {
    hide *;
    KnownIsRemote(wv, origin, net.fetch, x);
    var first := net.fetch.NotFound?;
    if x > |l.leaves| {
      KnownAhead(h, origin, me, wv, l, put, net, x, first);
    } else {
      SyncIs(h, origin, me, wv, l, put, net, x, first);
      SignsExact(h, origin, me, l, put);
      var signed := SignSpec(origin, me, l.last, true, l.durable, Mine(h, origin, l.leaves), put);
      if signed.result.Done? {
        BuildExact(h, origin, me, l.leaves, x, signed.result.value);
        BuildFits(h, l.leaves, x, signed.result.value);
      }
    }
  }

  lemma KnownIsRemote(wv: Verifier, origin: Bytes, fetch: Fetch, x: nat)
    requires Known(wv, origin, fetch, x)
    ensures RemoteSize(wv, origin, fetch) == KnownSize(x, fetch.NotFound?)
  {
    hide RemoteSize, CF.Parse, Verified;
    RemoteExact(wv, origin, fetch, x);
  }

  lemma BuildFits(h: HashFn, leaves: seq<Bytes>, x: nat, msg: Note)
    requires x <= |leaves| < 0x1_0000_0000_0000_0000
    ensures var r := BuildRequest(h, leaves, x, msg);
            r.Done? ==> (|r.value.proof| <= WP.MAX_PROOF_LINES <==> Fits(h, leaves, x))
  {
    hide ConsistencyPath;
  }

  /** A rollback of `x` is reported in exactly two cases: a verified note of the witness says more than
      there is on disk, or a request was sent and the answer is a conflict over more than that. */
  lemma RollbackExact(h: HashFn, origin: Bytes, me: Verifier, wv: Verifier, l: Local, put: Put, net: Network, k: nat,
                      x: nat)
    requires |l.leaves| < 0x1_0000_0000_0000_0000
    ensures var out := SyncSpec(h, origin, me, wv, l, put, net);
            out.result == NoSync(RolledBack(k, x))
            <==> && k == |l.leaves| < x
                 && (|| Says(wv, origin, net.fetch, x)
                     || (out.sent.Some? && net.reply(out.sent.value).ReplyConflict?
                         && net.reply(out.sent.value).size == x))
  {
    hide *;
    RemoteExact(wv, origin, net.fetch, x);
    var remote := RemoteSize(wv, origin, net.fetch);
    match remote {
      case NoSize(_) =>
        NothingKnown(h, origin, me, wv, l, put, net);
      case KnownSize(m, first) =>
        if m > |l.leaves| {
          NotFoundIsZero(wv, origin, net.fetch);
          KnownAhead(h, origin, me, wv, l, put, net, m, first);
        } else {
          SyncIs(h, origin, me, wv, l, put, net, m, first);
          SentIsBuilt(h, origin, me, l, put, m);
        }
    }
  }

  lemma NotFoundIsZero(wv: Verifier, origin: Bytes, fetch: Fetch)
    ensures fetch.NotFound? ==> RemoteSize(wv, origin, fetch) == KnownSize(0, true)
    ensures RemoteSize(wv, origin, fetch).KnownSize? ==> RemoteSize(wv, origin, fetch).first == fetch.NotFound?
  {
    hide CF.Parse, CosignatureTime;
  }

  lemma SentIsBuilt(h: HashFn, origin: Bytes, me: Verifier, l: Local, put: Put, x: nat)
    requires x <= |l.leaves| < 0x1_0000_0000_0000_0000
    ensures var r := SignSpec(origin, me, l.last, true, l.durable, Mine(h, origin, l.leaves), put).result;
            r.Done? ==> BuildRequest(h, l.leaves, x, r.value).Done?
                        && BuildRequest(h, l.leaves, x, r.value).value.oldSize == x
  {
    hide *;
    SignsExact(h, origin, me, l, put);
    var r := SignSpec(origin, me, l.last, true, l.durable, Mine(h, origin, l.leaves), put).result;
    if r.Done? {
      BuildExact(h, origin, me, l.leaves, x, r.value);
      BuildKeepsSize(h, l.leaves, x, r.value);
    }
  }

  lemma BuildKeepsSize(h: HashFn, leaves: seq<Bytes>, x: nat, msg: Note)
    requires x <= |leaves| < 0x1_0000_0000_0000_0000
    ensures var r := BuildRequest(h, leaves, x, msg);
            r.Done? ==> r.value.oldSize == x
  {
    hide ConsistencyProof;
  }

  lemma CoversExact(h: HashFn, origin: Bytes, leaves: seq<Bytes>, whole: Note)
    requires |leaves| < 0x1_0000_0000_0000_0000
    ensures CoversLocalState(whole, origin, |leaves|, Root(h, leaves))
            <==> CF.Parse(whole.text) == CF.Ok(Mine(h, origin, leaves))
  {
    hide CF.Parse, Root;
  }

  /** A synchronisation is attested in exactly one case: the request was sent, and what came back is a
      note that the witness's cosignature verifies, at the instant reported, on the very checkpoint of
      the leaves on disk. */
  lemma AttestedExact(h: HashFn, origin: Bytes, me: Verifier, wv: Verifier, l: Local, put: Put, net: Network, x: nat,
                      first: bool, whole: Note, t: nat)
    requires |l.leaves| < 0x1_0000_0000_0000_0000
    ensures var out := SyncSpec(h, origin, me, wv, l, put, net);
            out.result == Attested(x, first, whole, t)
            <==> && out.sent.Some? && out.sent.value.oldSize == x && first == net.fetch.NotFound?
                 && net.reply(out.sent.value) == ReplyOk(whole)
                 && CosignatureTime(wv, whole) == Some(t)
                 && CF.Parse(whole.text) == CF.Ok(Mine(h, origin, l.leaves))
  {
    hide *;
    var remote := RemoteSize(wv, origin, net.fetch);
    NotFoundIsZero(wv, origin, net.fetch);
    CoversExact(h, origin, l.leaves, whole);
    match remote {
      case NoSize(_) =>
        NothingKnown(h, origin, me, wv, l, put, net);
      case KnownSize(m, f) =>
        if m > |l.leaves| {
          KnownAhead(h, origin, me, wv, l, put, net, m, f);
        } else {
          SyncIs(h, origin, me, wv, l, put, net, m, f);
          SentIsBuilt(h, origin, me, l, put, m);
        }
    }
  }

  /** What a synchronisation leaves on disk: the same leaves; the lock on what was signed if a request
      could be sent; every cosigned note that was there, the first of each size; and one more note,
      for the size on disk, exactly when it is attested and there was none. */
  lemma LeavesBehind(h: HashFn, origin: Bytes, me: Verifier, wv: Verifier, l: Local, put: Put, net: Network)
    requires |l.leaves| < 0x1_0000_0000_0000_0000
    ensures var out := SyncSpec(h, origin, me, wv, l, put, net);
            var n := |l.leaves|;
            && out.local.leaves == l.leaves
            && (out.sent.Some? ==> out.local.last == Some(Mine(h, origin, l.leaves))
                                   && out.local.durable == Some(out.sent.value.note))
            && (forall k :: k in l.checkpoints ==>
                  k in out.local.checkpoints && out.local.checkpoints[k] == l.checkpoints[k])
            && (forall k :: k in out.local.checkpoints ==>
                  k in l.checkpoints || (k == n && out.result.Attested?))
            && (out.result.Attested? ==>
                  n in out.local.checkpoints
                  && (n !in l.checkpoints ==> out.local.checkpoints[n] == out.result.cosigned))
  {
    hide *;
    var remote := RemoteSize(wv, origin, net.fetch);
    match remote {
      case NoSize(_) =>
        NothingKnown(h, origin, me, wv, l, put, net);
      case KnownSize(m, f) =>
        if m > |l.leaves| {
          KnownAhead(h, origin, me, wv, l, put, net, m, f);
        } else {
          SyncIs(h, origin, me, wv, l, put, net, m, f);
          SentIsBuilt(h, origin, me, l, put, m);
          SignsExact(h, origin, me, l, put);
          var signed := SignSpec(origin, me, l.last, true, l.durable, Mine(h, origin, l.leaves), put);
          if signed.result.Done? {
            BuildExact(h, origin, me, l.leaves, m, signed.result.value);
            var reply := net.reply(BuildRequest(h, l.leaves, m, signed.result.value).value);
            if reply.ReplyOk? { RecordExact(l.checkpoints, |l.leaves|, reply.whole); }
          }
        }
    }
  }

  lemma RecordExact(table: map<nat, Note>, size: nat, n: Note)
    ensures var r := Record(table, size, n);
            && (forall k :: k in table ==> k in r && r[k] == table[k])
            && (forall k :: k in r <==> k in table || k == size)
            && (size !in table ==> r[size] == n)
  {
  }
}
