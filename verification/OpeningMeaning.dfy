/** What an opening reports: which checkpoint it takes as the attested one, what it has demanded of the
    policy and of the ledger, and whose witnesses it names. */
module OpeningMeaning {
  import opened Bytes
  import opened Hashing
  import Hex
  import Merkle
  import CF = CheckpointFormat
  import N = Notes
  import PN = ProofNote
  import opened Blocks
  import opened Store
  import opened Integrity
  import opened Opening

  // --------------------------------------------------------- the last cosigned

  ghost predicate NoneCosigned(notes: seq<N.Note>, from: nat) {
    forall j :: from <= j < |notes| ==> !IsCosigned(notes[j])
  }

  /** The note at `i` is cosigned and none after it is. */
  ghost predicate IsLast(notes: seq<N.Note>, i: nat) {
    i < |notes| && IsCosigned(notes[i]) && NoneCosigned(notes, i + 1)
  }

  lemma NoneStep(notes: seq<N.Note>, from: nat)
    requires notes != [] && from < |notes|
    ensures NoneCosigned(notes, from) <==> NoneCosigned(Init(notes), from) && !IsCosigned(Last(notes))
    ensures from + 1 == |notes| ==> NoneCosigned(notes, from + 1)
  {
    hide IsCosigned;
    assert forall j :: 0 <= j < |notes| - 1 ==> Init(notes)[j] == notes[j];
  }

  /** No note is found exactly when none is cosigned. */
  lemma {:induction false} AbsentExact(notes: seq<N.Note>)
    ensures LastCosigned(notes).None? <==> NoneCosigned(notes, 0)
  {
    hide IsCosigned, NoneCosigned;
    if notes == [] {
      assert NoneCosigned([], 0) by { NothingCosigned(); }
    } else {
      NoneStep(notes, 0);
      AbsentExact(Init(notes));
    }
  }

  lemma NothingCosigned()
    ensures NoneCosigned([], 0)
  {
  }

  /** The note found is cosigned and stands after every other cosigned one. */
  lemma {:induction false} FoundIsLast(notes: seq<N.Note>) returns (i: nat)
    requires LastCosigned(notes).Some?
    ensures IsLast(notes, i) && LastCosigned(notes).value == notes[i]
  {
    hide IsCosigned, NoneCosigned;
    NoneStep(notes, |notes| - 1);
    if IsCosigned(Last(notes)) {
      i := |notes| - 1;
    } else {
      i := FoundIsLast(Init(notes));
      if i + 1 < |notes| { NoneStep(notes, i + 1); }
    }
  }

  /** Checkpoints as the table gives them, in order of size. */
  ghost predicate InOrder(notes: seq<N.Note>) {
    forall i, j :: 0 <= i < j < |notes| && CF.Parse(notes[i].text).Ok? && CF.Parse(notes[j].text).Ok? ==>
      CF.Parse(notes[i].text).value.size <= CF.Parse(notes[j].text).value.size
  }

  lemma LastIsLargest(notes: seq<N.Note>, i: nat, j: nat)
    requires InOrder(notes) && IsLast(notes, i) && j < |notes| && IsCosigned(notes[j])
    requires CF.Parse(notes[i].text).Ok? && CF.Parse(notes[j].text).Ok?
    ensures CF.Parse(notes[j].text).value.size <= CF.Parse(notes[i].text).value.size
  {
    hide IsCosigned, CF.Parse;
  }

  // ------------------------------------------------------------ the attestation

  /** The stored note is this log's: the ledger declares a key, the one the policy asserts if it asserts
      one, and the note opens under it. */
  ghost predicate LogsOwn(k: PN.Keys, p: Option<WitnessPolicy>, d: Declared, n: N.Note, origin: Bytes) {
    d.logKey.Some? && LogKeyAgrees(p, d)
    && var name := if d.origin.Some? then d.origin.value else origin;
       && |d.logKey.value| == 32 && k.validName(name)
       && N.SignedUnder(N.LogVerifier(name, k.hash(name, d.logKey.value, PN.ALG_LOG), d.logKey.value), n)
  }

  /** A note read from the ledger: a checkpoint, of this log. */
  ghost predicate Reads(k: PN.Keys, p: Option<WitnessPolicy>, d: Declared, n: N.Note, c: CF.Checkpoint) {
    CF.Parse(n.text) == CF.Ok(c) && LogsOwn(k, p, d, n, c.origin)
  }

  lemma ReadExact(k: PN.Keys, p: Option<WitnessPolicy>, d: Declared, n: N.Note, c: CF.Checkpoint)
    ensures ReadStored(k, p, d, n) == Some(c) <==> Reads(k, p, d, n, c)
  {
    hide CF.Parse, N.SignedUnder, N.Open, LogKeyAgrees;
    if d.logKey.Some? {
      var name := if d.origin.Some? then d.origin.value else c.origin;
      N.OpenExact(N.LogVerifier(name, k.hash(name, d.logKey.value, PN.ALG_LOG), d.logKey.value), n);
    }
  }

  /** A checkpoint is taken as the attested one exactly when it is the last cosigned note, it is of this
      log and promises no more than there is; the ledger has none exactly when no note is cosigned. */
  lemma AttestedExact(k: PN.Keys, p: Option<WitnessPolicy>, l: Ledger, n: N.Note, c: CF.Checkpoint)
    ensures AttestedCheckpoint(k, p, l) == Found(n, c)
            <==> (exists i: nat :: i < |l.checkpoints| && l.checkpoints[i] == n && IsLast(l.checkpoints, i))
                 && Reads(k, p, l.declared, n, c) && c.size <= |l.rows|
    ensures AttestedCheckpoint(k, p, l) == Absent <==> NoneCosigned(l.checkpoints, 0)
  {
    hide ReadStored, LastCosigned, Reads, IsCosigned, NoneCosigned;
    AbsentExact(l.checkpoints);
    ReadExact(k, p, l.declared, n, c);
    if LastCosigned(l.checkpoints).Some? {
      var i := FoundIsLast(l.checkpoints);
      forall j: nat | IsLast(l.checkpoints, j) ensures j == i { LastIsOne(l.checkpoints, i, j); }
      if ReadStored(k, p, l.declared, l.checkpoints[i]).Some? {
        ReadExact(k, p, l.declared, l.checkpoints[i], ReadStored(k, p, l.declared, l.checkpoints[i]).value);
      }
    } else {
      forall j: nat ensures !IsLast(l.checkpoints, j) { NoLast(l.checkpoints, j); }
    }
  }

  lemma LastIsOne(notes: seq<N.Note>, i: nat, j: nat)
    requires IsLast(notes, i) && IsLast(notes, j)
    ensures i == j
  {
    hide IsCosigned;
  }

  lemma NoLast(notes: seq<N.Note>, j: nat)
    requires NoneCosigned(notes, 0)
    ensures !IsLast(notes, j)
  {
    hide IsCosigned;
  }

  // --------------------------------------------------------------- the opening

  /** What is asked of a policy: witnesses with names and with keys of their own, at least one of whom
      must have signed; and that the ledger declares the identity it asserts. */
  ghost predicate Admits(p: Option<WitnessPolicy>, d: Declared) {
    p.Some? ==>
      var w := p.value.witnesses;
      && 1 <= p.value.quorum <= |w|
      && (forall a :: a in w ==> a != [] && |w[a]| == 32)
      && (forall a, b :: a in w && b in w && a != b ==> w[a] != w[b])
      && (p.value.origin == [] || d.origin == Some(p.value.origin))
      && (p.value.logKey == [] || d.logKey == Some(p.value.logKey))
  }

  lemma BeforeExact(k: PN.Keys, p: Option<WitnessPolicy>, l: Ledger)
    ensures Before(k, p, l) == None <==> Admits(p, l.declared) && AttestedCheckpoint(k, p, l) != Bad
  {
    hide AttestedCheckpoint;
  }

  /** The root a checkpoint promises is that of the first leaves. */
  ghost predicate RootIs(h: HashFn, leaves: seq<Bytes>, c: CF.Checkpoint) {
    c.size <= |leaves| && Merkle.Root(h, leaves[..c.size]) == c.root
  }

  /** The last checkpoint, and the attested one, promise the roots of the rows. */
  ghost predicate RootsHold(h: HashFn, k: PN.Keys, p: Option<WitnessPolicy>, l: Ledger, leaves: seq<Bytes>) {
    && (l.checkpoints != [] ==>
          exists c :: Reads(k, p, l.declared, Last(l.checkpoints), c) && RootIs(h, leaves, c))
    && (forall n, c :: AttestedCheckpoint(k, p, l) == Found(n, c) ==> RootIs(h, leaves, c))
  }

  lemma RootsExact(h: HashFn, k: PN.Keys, p: Option<WitnessPolicy>, l: Ledger, leaves: seq<Bytes>)
    ensures RootsAgree(h, k, p, l, leaves, AttestedCheckpoint(k, p, l)) <==> RootsHold(h, k, p, l, leaves)
  {
    hide AttestedCheckpoint, ReadStored, Reads, Merkle.Root;
    if l.checkpoints == [] {
      EmptyIsAbsent(k, p, l);
    } else {
      forall c ensures ReadStored(k, p, l.declared, Last(l.checkpoints)) == Some(c)
                       <==> Reads(k, p, l.declared, Last(l.checkpoints), c)
      {
        ReadExact(k, p, l.declared, Last(l.checkpoints), c);
      }
    }
  }

  lemma EmptyIsAbsent(k: PN.Keys, p: Option<WitnessPolicy>, l: Ledger)
    requires l.checkpoints == []
    ensures AttestedCheckpoint(k, p, l) == Absent
  {
    hide ReadStored;
  }

  /** A ledger opens exactly when the policy and the declared identity admit it, the attested
      checkpoint, if there is a cosigned note, is good, the walk passes from there, and the roots hold. */
  lemma OpensExactly(env: Env, k: PN.Keys, p: Option<WitnessPolicy>, order: seq<Bytes>, l: Ledger, mode: Mode)
    requires p.Some? ==> PN.Lists(order, PN.Policy([], [], p.value.witnesses, 0))
    ensures var s := AttestedCheckpoint(k, p, l);
            var a := AttestationOf(k, p, order, l.declared, s).0;
            var from := if mode.Attested? && s.Found? && a.Verified? then s.checkpoint.size else 0;
            Opening.Verify(env, k, p, order, l, mode).Opened?
            <==> && Admits(p, l.declared) && s != Bad
                 && GoodUpTo(env, l.rows, from, Expected(p), |l.rows|)
                 && RootsHold(env.sha, k, p, l, Leaves(env, l.rows, |l.rows|))
  {
    hide *;
    var s := AttestedCheckpoint(k, p, l);
    var a := AttestationOf(k, p, order, l.declared, s);
    var from := if mode.Attested? && s.Found? && a.0.Verified? then s.checkpoint.size else 0;
    var w := WalkFrom(env, l.rows, from, Expected(p), 0, START);
    VerifyIs(env, k, p, order, l, mode);
    BeforeExact(k, p, l);
    WalkMeaning(env, l.rows, from, Expected(p));
    if w.Pass? {
      RootsExact(env.sha, k, p, l, w.leaves);
      if l.rows != [] && Expected(p) != [] { SignerIsExpected(env, l.rows, from, Expected(p)); }
    }
    AfterExact(env, k, p, l, s, a, w);
  }

  lemma SignerIsExpected(env: Env, rows: seq<Row>, from: nat, expected: Bytes)
    requires GoodUpTo(env, rows, from, expected, |rows|) && rows != [] && expected != []
    ensures FirstSigner(env, rows) == expected
  {
    hide RowLeaf, BlockGood, BlockOf;
    assert RowGood(env, rows, expected, 0);
  }

  lemma AfterExact(env: Env, k: PN.Keys, p: Option<WitnessPolicy>, l: Ledger, s: Stored, a: (Attestation, PN.Verdict),
                   w: Pass)
    ensures AfterWalk(env, k, p, l, s, a, w).Opened?
            <==> && w.Pass? && RootsAgree(env.sha, k, p, l, w.leaves, s)
                 && (w.leaves != [] && Expected(p) != [] ==> w.signer == Expected(p))
  {
    hide RootsAgree, Expected;
  }

  /** What an opened result says of the attested note `n`, a checkpoint `c`. */
  ghost predicate Reports(k: PN.Keys, p: Option<WitnessPolicy>, d: Declared, n: N.Note, c: CF.Checkpoint, r: Result) {
    && r.attestedSize == c.size && r.attestation != NoneFound
    && (r.attestation.Verified? <==> p.Some? && AcceptedUnder(k, p.value, d, n, c))
    && (r.attestation.Verified? ==>
          && 1 <= p.value.quorum <= |r.attestedBy| && PN.Distinct(r.attestedBy)
          && (forall a :: a in r.attestedBy <==> Cosigned(k, p.value, d, n, c, a))
          && r.attestedAt == PN.EarliestFrom(PN.Times(k, OpeningPolicy(p.value, d, c.origin).value, n.lines, 0),
                                             PN.ZERO_TIME))
    && (r.attestation.Unverified? ==> r.attestedBy == [] && r.attestedAt == PN.ZERO_TIME)
  }

  ghost predicate AcceptedUnder(k: PN.Keys, p: WitnessPolicy, d: Declared, n: N.Note, c: CF.Checkpoint) {
    var pol := OpeningPolicy(p, d, c.origin);
    pol.Some? && PN.Acceptable(k, pol.value, n)
  }

  /** The witness `a` of the policy signed the note: a line under its name and key that verifies. */
  ghost predicate Cosigned(k: PN.Keys, p: WitnessPolicy, d: Declared, n: N.Note, c: CF.Checkpoint, a: Bytes) {
    && a in p.witnesses
    && exists i :: 0 <= i < |n.lines| && n.lines[i].name == a
                   && var w := N.WitnessVerifier(a, k.hash(a, p.witnesses[a], PN.ALG_COSIGNATURE), p.witnesses[a]);
                      n.lines[i].hash == w.hash && N.Verifies(w, n.text, n.lines[i].blob)
  }

  /** Under an acceptable note, the witnesses counted are those who signed. */
  lemma CosignersSigned(k: PN.Keys, p: WitnessPolicy, d: Declared, n: N.Note, c: CF.Checkpoint, a: Bytes)
    requires AcceptedUnder(k, p, d, n, c)
    ensures a in PN.CosignerSet(k, OpeningPolicy(p, d, c.origin).value, n.lines, 0) <==> Cosigned(k, p, d, n, c, a)
  {
    hide CF.Parse, LogKeyAgrees;
    var pol := OpeningPolicy(p, d, c.origin).value;
    assert forall i :: 0 <= i < |n.lines| ==> !PN.Spoils(k, pol, n.text, n.lines[i]);
    hide PN.Acceptable, PN.Spoiling, N.Verifies;
  }

  lemma StateIs(k: PN.Keys, p: Option<WitnessPolicy>, order: seq<Bytes>, d: Declared, s: Stored)
    requires p.Some? ==> PN.Lists(order, PN.Policy([], [], p.value.witnesses, 0))
    ensures var a := AttestationOf(k, p, order, d, s);
            && (a.0 == NoneFound <==> !s.Found?)
            && (a.0.Verified? ==> a.1.Accepted?)
            && (s.Found? ==> (a.0.Verified? <==> p.Some? && AcceptedUnder(k, p.value, d, s.note, s.checkpoint)))
            && (a.0.Verified? ==> OpeningPolicy(p.value, d, s.checkpoint.origin).Some?)
            && (a.0.Verified? ==>
                  var pol := OpeningPolicy(p.value, d, s.checkpoint.origin).value;
                  && PN.Distinct(a.1.cosigners)
                  && PN.SetOf(a.1.cosigners) == PN.CosignerSet(k, pol, s.note.lines, 0)
                  && |PN.CosignerSet(k, pol, s.note.lines, 0)| >= p.value.quorum
                  && a.1.provableTime == PN.EarliestFrom(PN.Times(k, pol, s.note.lines, 0), PN.ZERO_TIME))
  {
    hide LogPolicy, PN.Judge, PN.CosignerSet, PN.Times, PN.SetOf, PN.Distinct, PN.EarliestFrom, CF.Parse;
    if s.Found? && p.Some? {
      var pol := OpeningPolicy(p.value, d, s.checkpoint.origin);
      if pol.Some? { PN.VerdictExact(k, pol.value, order, s.note); }
    }
  }

  lemma ResultIs(env: Env, k: PN.Keys, p: Option<WitnessPolicy>, l: Ledger, s: Stored, a: (Attestation, PN.Verdict),
                 w: Pass)
    requires AfterWalk(env, k, p, l, s, a, w).Opened? && (a.0.Verified? ==> a.1.Accepted?)
    ensures var r := AfterWalk(env, k, p, l, s, a, w).result;
            && w.Pass? && r.treeSize == |w.leaves| && r.attestation == a.0 && r.signerKey == w.signer
            && r.attestedSize == (if s.Found? then s.checkpoint.size else 0)
            && r.attestedAt == (if a.0.Verified? then a.1.provableTime else PN.ZERO_TIME)
            && r.attestedBy == (if a.0.Verified? then a.1.cosigners else [])
            && (r.signer == NotSigned <==> w.leaves == [])
            && (r.signer == SignerVerified <==> w.leaves != [] && p.Some? && p.value.signerKey != [])
            && (r.signer == SignerVerified ==> r.signerKey == Hex.Encode(p.value.signerKey))
  {
    hide RootsAgree, Hex.Encode;
  }

  lemma QuorumNamed(k: PN.Keys, p: WitnessPolicy, d: Declared, n: N.Note, c: CF.Checkpoint, names: seq<Bytes>)
    requires AcceptedUnder(k, p, d, n, c) && PN.Distinct(names)
    requires var all := PN.CosignerSet(k, OpeningPolicy(p, d, c.origin).value, n.lines, 0);
             PN.SetOf(names) == all && |all| >= p.quorum
    ensures |names| >= p.quorum && forall a :: a in names <==> Cosigned(k, p, d, n, c, a)
  {
    hide AcceptedUnder, OpeningPolicy, PN.CosignerSet, Cosigned, PN.Distinct;
    PN.DistinctCount(names);
    forall a ensures a in names <==> Cosigned(k, p, d, n, c, a) {
      CosignersSigned(k, p, d, n, c, a);
      assert a in names <==> a in PN.SetOf(names);
    }
  }

  /** What an opened ledger reports: its size, its signer, and of the last cosigned note, if one is
      cosigned, its size; verified exactly when the opener's policy accepts that very note, with the
      witnesses that signed it, at least a quorum, and the earliest of their instants. */
  lemma OpenedReports(env: Env, k: PN.Keys, p: Option<WitnessPolicy>, order: seq<Bytes>, l: Ledger, mode: Mode)
    returns (i: nat, c: CF.Checkpoint)
    requires p.Some? ==> PN.Lists(order, PN.Policy([], [], p.value.witnesses, 0))
    requires Opening.Verify(env, k, p, order, l, mode).Opened?
    ensures var r := Opening.Verify(env, k, p, order, l, mode).result;
            && r.treeSize == |l.rows| && r.signerKey == FirstSigner(env, l.rows)
            && (r.signer == NotSigned <==> l.rows == [])
            && (r.signer == SignerVerified <==> l.rows != [] && p.Some? && p.value.signerKey != [])
            && (r.signer == SignerVerified ==> r.signerKey == Hex.Encode(p.value.signerKey))
            && (if NoneCosigned(l.checkpoints, 0) then
                  r.attestation == NoneFound && r.attestedSize == 0 && r.attestedBy == []
                else
                  && i < |l.checkpoints| && IsLast(l.checkpoints, i)
                  && Reads(k, p, l.declared, l.checkpoints[i], c) && c.size <= |l.rows|
                  && Reports(k, p, l.declared, l.checkpoints[i], c, r))
  {
    hide *;
    var s := AttestedCheckpoint(k, p, l);
    var a := AttestationOf(k, p, order, l.declared, s);
    var from := if mode.Attested? && s.Found? && a.0.Verified? then s.checkpoint.size else 0;
    var w := WalkFrom(env, l.rows, from, Expected(p), 0, START);
    VerifyIs(env, k, p, order, l, mode);
    BeforeExact(k, p, l);
    AdmitsQuorum(p, l.declared);
    StateIs(k, p, order, l.declared, s);
    ResultIs(env, k, p, l, s, a, w);
    WalkMeaning(env, l.rows, from, Expected(p));
    i, c := 0, if s.Found? then s.checkpoint else CF.Checkpoint([], 0, []);
    AttestedExact(k, p, l, if s.Found? then s.note else N.Note([], []), c);
    NoSigner(env, l.rows);
    if s.Found? {
      i :| i < |l.checkpoints| && l.checkpoints[i] == s.note && IsLast(l.checkpoints, i);
      CosignedThere(l.checkpoints, i);
      if a.0.Verified? { QuorumNamed(k, p.value, l.declared, s.note, c, a.1.cosigners); }
      ReportsIs(k, p, l.declared, s.note, c, Opening.Verify(env, k, p, order, l, mode).result);
    }
  }

  lemma AdmitsQuorum(p: Option<WitnessPolicy>, d: Declared)
    requires Admits(p, d)
    ensures p.Some? ==> 1 <= p.value.quorum
  {
  }

  lemma NoSigner(env: Env, rows: seq<Row>)
    ensures rows == [] ==> FirstSigner(env, rows) == []
  {
  }

  lemma CosignedThere(notes: seq<N.Note>, i: nat)
    requires IsLast(notes, i)
    ensures !NoneCosigned(notes, 0)
  {
    hide IsCosigned;
  }

  lemma ReportsIs(k: PN.Keys, p: Option<WitnessPolicy>, d: Declared, n: N.Note, c: CF.Checkpoint, r: Result)
    requires r.attestedSize == c.size && r.attestation != NoneFound
    requires r.attestation.Verified? <==> p.Some? && AcceptedUnder(k, p.value, d, n, c)
    requires r.attestation.Verified? ==>
               && 1 <= p.value.quorum <= |r.attestedBy| && PN.Distinct(r.attestedBy)
               && (forall a :: a in r.attestedBy <==> Cosigned(k, p.value, d, n, c, a))
               && OpeningPolicy(p.value, d, c.origin).Some?
               && r.attestedAt == PN.EarliestFrom(PN.Times(k, OpeningPolicy(p.value, d, c.origin).value, n.lines, 0),
                                                  PN.ZERO_TIME)
    requires r.attestation.Unverified? ==> r.attestedBy == [] && r.attestedAt == PN.ZERO_TIME
    ensures Reports(k, p, d, n, c, r)
  {
    hide AcceptedUnder, Cosigned, OpeningPolicy, PN.Times, PN.EarliestFrom, PN.Distinct;
  }

  /** With the checkpoints in order of size, no cosigned checkpoint in the ledger is larger than the one
      an opened result reports. */
  lemma AttestedIsGreatest(env: Env, k: PN.Keys, p: Option<WitnessPolicy>, order: seq<Bytes>, l: Ledger, mode: Mode,
                           j: nat)
    requires p.Some? ==> PN.Lists(order, PN.Policy([], [], p.value.witnesses, 0))
    requires Opening.Verify(env, k, p, order, l, mode).Opened? && InOrder(l.checkpoints)
    requires j < |l.checkpoints| && IsCosigned(l.checkpoints[j]) && CF.Parse(l.checkpoints[j].text).Ok?
    ensures CF.Parse(l.checkpoints[j].text).value.size <= Opening.Verify(env, k, p, order, l, mode).result.attestedSize
  {
    hide *;
    var i, c := OpenedReports(env, k, p, order, l, mode);
    SomeCosigned(l.checkpoints, j);
    LastReported(k, p, l.declared, l.checkpoints[i], c, Opening.Verify(env, k, p, order, l, mode).result);
    LastIsLargest(l.checkpoints, i, j);
  }

  lemma SomeCosigned(notes: seq<N.Note>, j: nat)
    requires j < |notes| && IsCosigned(notes[j])
    ensures !NoneCosigned(notes, 0)
  {
    hide IsCosigned;
  }

  lemma LastReported(k: PN.Keys, p: Option<WitnessPolicy>, d: Declared, n: N.Note, c: CF.Checkpoint, r: Result)
    requires Reads(k, p, d, n, c) && Reports(k, p, d, n, c, r)
    ensures CF.Parse(n.text) == CF.Ok(c) && r.attestedSize == c.size
  {
    hide CF.Parse, LogsOwn, AcceptedUnder, Cosigned, OpeningPolicy, PN.Times, PN.EarliestFrom, PN.Distinct;
  }
}
