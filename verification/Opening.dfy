/** Opening the ledger: verify of internal/store/integrity.go, which finds the attested checkpoint,
    walks the table from it, compares the roots and names the signer. */
module Opening {
  import opened Bytes
  import opened Hashing
  import Hex
  import Merkle
  import J = Jcs
  import CF = CheckpointFormat
  import N = Notes
  import PN = ProofNote
  import opened Blocks
  import opened Store
  import opened Integrity

  datatype Mode = Attested | Full

  /** What vault_meta declares: the log's public key and its origin. */
  datatype Declared = Declared(logKey: Option<Bytes>, origin: Option<Bytes>)

  /** What whoever opens brings from outside; empty fields assert nothing. */
  datatype WitnessPolicy = WitnessPolicy(witnesses: map<Bytes, N.Key>, quorum: int, signerKey: Bytes, logKey: Bytes,
                                         origin: Bytes)

  /** The ledger file: blocks, checkpoints in order of tree size, and the declared identity. */
  datatype Ledger = Ledger(rows: seq<Row>, checkpoints: seq<N.Note>, declared: Declared)

  datatype Attestation = NoneFound | Unverified | Verified

  datatype SignerState = NotSigned | SignerUnverified | SignerVerified

  datatype Result = Result(treeSize: nat, attestation: Attestation, signer: SignerState, signerKey: Bytes,
                           attestedSize: nat, attestedAt: int, attestedBy: seq<Bytes>)

  datatype Outcome = Opened(result: Result) | Failed(stage: Stage)

  datatype Stage = PolicyStage | LogStage | CheckpointStage | WalkStage(fault: Fault) | SignerStage

  // ---------------------------------------------------------------- the policy

  /** WitnessPolicy.validate: it must demand at least one cosignature. */
  predicate PolicyUsable(p: WitnessPolicy) {
    && |p.witnesses| > 0 && 1 <= p.quorum <= |p.witnesses|
    && (forall a :: a in p.witnesses ==> a != [] && |p.witnesses[a]| == 32)
    && (forall a, b :: a in p.witnesses && b in p.witnesses && p.witnesses[a] == p.witnesses[b] ==> a == b)
  }

  /** checkLogKey: what the policy asserts, the ledger must declare. */
  predicate LogKeyAgrees(p: Option<WitnessPolicy>, d: Declared) {
    p.Some? ==>
      && (p.value.origin != [] ==> d.origin == Some(p.value.origin))
      && (p.value.logKey != [] ==> d.logKey == Some(p.value.logKey))
  }

  /** logPolicy: origin and key of the log, from the ledger itself. */
  function LogPolicy(p: Option<WitnessPolicy>, d: Declared, origin: Bytes): Option<PN.Policy> {
    if d.logKey.None? || !LogKeyAgrees(p, d) then None
    else Some(PN.Policy(if d.origin.Some? then d.origin.value else origin, d.logKey.value, map[], 0))
  }

  // ------------------------------------------------------------- the checkpoints

  /** IsCosigned: by its shape alone. */
  predicate IsCosigned(n: N.Note) {
    exists i :: 0 <= i < |n.lines| && n.lines[i].blob.CosignatureBlob?
  }

  function LastCosigned(notes: seq<N.Note>): Option<N.Note> {
    if notes == [] then None else if IsCosigned(Last(notes)) then Some(Last(notes)) else LastCosigned(Init(notes))
  }

  /** verifyLogSignature. */
  predicate LogSigned(k: PN.Keys, p: Option<WitnessPolicy>, d: Declared, n: N.Note, origin: Bytes) {
    var pol := LogPolicy(p, d, origin);
    && pol.Some? && |pol.value.logKey| == 32 && k.validName(pol.value.origin)
    && N.VerifyCheckpoint([PN.LogOf(k, pol.value)], n).Some?
  }

  /** A stored note read as a checkpoint signed by this log. */
  function ReadStored(k: PN.Keys, p: Option<WitnessPolicy>, d: Declared, n: N.Note): Option<CF.Checkpoint> {
    match CF.Parse(n.text)
    case Err(_) => None
    case Ok(c) => if LogSigned(k, p, d, n, c.origin) then Some(c) else None
  }

  datatype Stored = Absent | Bad | Found(note: N.Note, checkpoint: CF.Checkpoint)

  /** attestedCheckpoint. */
  function AttestedCheckpoint(k: PN.Keys, p: Option<WitnessPolicy>, l: Ledger): Stored {
    match LastCosigned(l.checkpoints)
    case None => Absent
    case Some(n) =>
      match ReadStored(k, p, l.declared, n)
      case None => Bad
      case Some(c) => if c.size > |l.rows| then Bad else Found(n, c)
  }

  /** attestationState: verified only by the policy of whoever opens. */
  function AttestationOf(k: PN.Keys, p: Option<WitnessPolicy>, order: seq<Bytes>, d: Declared,
                         s: Stored): (Attestation, PN.Verdict)
    requires p.Some? ==> PN.Lists(order, PN.Policy([], [], p.value.witnesses, 0))
  {
    if !s.Found? then (NoneFound, PN.Refused(PN.NoQuorum))
    else if p.None? then (Unverified, PN.Refused(PN.NoQuorum))
    else match LogPolicy(p, d, s.checkpoint.origin)
      case None => (Unverified, PN.Refused(PN.NoQuorum))
      case Some(pol) =>
        var v := PN.Judge(k, pol.(witnesses := p.value.witnesses, quorum := p.value.quorum), order, s.note);
        (if v.Accepted? then Verified else Unverified, v)
  }

  /** verifyAgainstCheckpoints. */
  predicate RootsAgree(h: HashFn, k: PN.Keys, p: Option<WitnessPolicy>, l: Ledger, leaves: seq<Bytes>, s: Stored) {
    l.checkpoints != [] ==>
      var last := ReadStored(k, p, l.declared, Last(l.checkpoints));
      && last.Some? && VerifyRootAt(h, leaves, last.value.size, last.value.root).None?
      && (s.Found? ==> VerifyRootAt(h, leaves, s.checkpoint.size, s.checkpoint.root).None?)
  }

  // -------------------------------------------------------------------- verify

  function Expected(p: Option<WitnessPolicy>): Bytes {
    if p.Some? && p.value.signerKey != [] then Hex.Encode(p.value.signerKey) else []
  }

  /** verify after the walk. */
  function Finish(env: Env, k: PN.Keys, p: Option<WitnessPolicy>, l: Ledger, s: Stored, a: (Attestation, PN.Verdict),
                  w: Pass): Outcome
    requires w.Pass?
  {
    if !RootsAgree(env.sha, k, p, l, w.leaves, s) then Failed(CheckpointStage)
    else if w.leaves != [] && Expected(p) != [] && Expected(p) != w.signer then Failed(SignerStage)
    else
      Opened(Result(|w.leaves|, a.0,
                    if w.leaves == [] then NotSigned else if Expected(p) != [] then SignerVerified
                    else SignerUnverified,
                    w.signer,
                    if s.Found? then s.checkpoint.size else 0,
                    if a.0.Verified? && a.1.Accepted? then a.1.provableTime else PN.ZERO_TIME,
                    if a.0.Verified? && a.1.Accepted? then a.1.cosigners else []))
  }

  function SignedFrom(mode: Mode, s: Stored, a: Attestation): nat {
    if mode.Attested? && s.Found? && a.Verified? then s.checkpoint.size else 0
  }

  /** What is checked before the table is read: where it fails, if it does. */
  function Before(k: PN.Keys, p: Option<WitnessPolicy>, l: Ledger): Option<Stage> {
    if p.Some? && !PolicyUsable(p.value) then Some(PolicyStage)
    else if !LogKeyAgrees(p, l.declared) then Some(LogStage)
    else if AttestedCheckpoint(k, p, l).Bad? then Some(CheckpointStage)
    else None
  }

  function AfterWalk(env: Env, k: PN.Keys, p: Option<WitnessPolicy>, l: Ledger, s: Stored, a: (Attestation, PN.Verdict),
                     w: Pass): Outcome
  {
    if w.Stopped? then Failed(WalkStage(w.fault)) else Finish(env, k, p, l, s, a, w)
  }

  /** verify, under a usable policy or none. */
  function Verify(env: Env, k: PN.Keys, p: Option<WitnessPolicy>, order: seq<Bytes>, l: Ledger, mode: Mode): Outcome
    requires p.Some? ==> PN.Lists(order, PN.Policy([], [], p.value.witnesses, 0))
  {
    match Before(k, p, l)
    case Some(stage) => Failed(stage)
    case None =>
      var s := AttestedCheckpoint(k, p, l);
      var a := AttestationOf(k, p, order, l.declared, s);
      AfterWalk(env, k, p, l, s, a, WalkFrom(env, l.rows, SignedFrom(mode, s, a.0), Expected(p), 0, START))
  }

  method VerifyLedger(env: Env, k: PN.Keys, p: Option<WitnessPolicy>, order: seq<Bytes>, l: Ledger, mode: Mode)
    returns (r: Outcome)
    requires p.Some? ==> PN.Lists(order, PN.Policy([], [], p.value.witnesses, 0))
    ensures r == Verify(env, k, p, order, l, mode)
  {
    hide PolicyUsable, LogKeyAgrees, AttestedCheckpoint, AttestationOf, WalkFrom, Finish, Expected;
    if p.Some? && !PolicyUsable(p.value) { return Failed(PolicyStage); }
    if !LogKeyAgrees(p, l.declared) { return Failed(LogStage); }
    var s := AttestedCheckpoint(k, p, l);
    if s.Bad? { return Failed(CheckpointStage); }
    var a := AttestationOf(k, p, order, l.declared, s);
    var signedFrom := 0;
    if s.Found? && mode.Attested? && a.0.Verified? { signedFrom := s.checkpoint.size; }
    var w := Walk(env, l.rows, signedFrom, Expected(p));
    if w.Stopped? { return Failed(WalkStage(w.fault)); }
    return Finish(env, k, p, l, s, a, w);
  }

  /** The attested root, when verified, is the root of a table that passed the full walk. */
  ghost predicate Grounded(env: Env, s: Stored, h: seq<Row>, e: Bytes) {
    s.Found? ==> |h| == s.checkpoint.size && Open(env, h, 0, e, |h|, s.checkpoint.root).Pass?
  }

  lemma CosignedIsStored(notes: seq<N.Note>)
    ensures LastCosigned(notes).Some? ==> notes != []
  {
  }

  /** A finished opening has compared the attested root. */
  lemma FinishChecksRoot(env: Env, k: PN.Keys, p: Option<WitnessPolicy>, l: Ledger, s: Stored,
                         a: (Attestation, PN.Verdict), w: Pass)
    requires s == AttestedCheckpoint(k, p, l) && s.Found?
    ensures AfterWalk(env, k, p, l, s, a, w).Opened? ==>
              w.Pass? && VerifyRootAt(env.sha, w.leaves, s.checkpoint.size, s.checkpoint.root).None?
  {
    CosignedIsStored(l.checkpoints);
    hide ReadStored, VerifyRootAt, LastCosigned, Expected;
  }

  lemma FinishSame(env: Env, k: PN.Keys, p: Option<WitnessPolicy>, l: Ledger, s: Stored, a: (Attestation, PN.Verdict),
                   w: Pass, v: Pass)
    requires w.Pass? && v.Pass? && w.leaves == v.leaves && w.signer == v.signer
    ensures AfterWalk(env, k, p, l, s, a, w) == AfterWalk(env, k, p, l, s, a, v)
  {
    hide RootsAgree, Expected;
  }

  /** VerifyIntegrity, which skips signatures below a verified checkpoint, and VerifyFull open the
      same ledgers with the same result, if the attested root is the root of some table that passed
      the full walk, or a collision is among what the two tables hashed. */
  lemma FastIsFull(env: Env, k: PN.Keys, p: Option<WitnessPolicy>, order: seq<Bytes>, l: Ledger, h: seq<Row>, e: Bytes)
    requires p.Some? ==> PN.Lists(order, PN.Policy([], [], p.value.witnesses, 0))
    requires Grounded(env, AttestedCheckpoint(k, p, l), h, e)
    ensures var fast, full := Verify(env, k, p, order, l, Attested), Verify(env, k, p, order, l, Full);
            || (fast.Opened? == full.Opened? && (fast.Opened? ==> fast == full))
            || (|h| <= |l.rows| && CollisionIn(env.sha, TableInputs(env, l.rows, |h|) + TableInputs(env, h, |h|)))
  {
    hide *;
    var s := AttestedCheckpoint(k, p, l);
    var a := AttestationOf(k, p, order, l.declared, s);
    VerifyIs(env, k, p, order, l, Attested);
    VerifyIs(env, k, p, order, l, Full);
    if s.Found? {
      GroundedIs(env, s, h, e);
      FastOpenRefinesFull(env, l.rows, Expected(p), s.checkpoint.root, h, e);
      var o := Open(env, l.rows, s.checkpoint.size, Expected(p), s.checkpoint.size, s.checkpoint.root);
      var f := Open(env, l.rows, 0, Expected(p), s.checkpoint.size, s.checkpoint.root);
      if o.Pass? == f.Pass? && (o.Pass? ==> o.leaves == f.leaves && o.signer == f.signer) {
        FastOrFull(env, k, p, l, s, a);
      }
    }
  }

  lemma GroundedIs(env: Env, s: Stored, h: seq<Row>, e: Bytes)
    requires Grounded(env, s, h, e) && s.Found?
    ensures |h| == s.checkpoint.size && Open(env, h, 0, e, |h|, s.checkpoint.root).Pass?
  {
  }

  lemma VerifyIs(env: Env, k: PN.Keys, p: Option<WitnessPolicy>, order: seq<Bytes>, l: Ledger, mode: Mode)
    requires p.Some? ==> PN.Lists(order, PN.Policy([], [], p.value.witnesses, 0))
    ensures var s := AttestedCheckpoint(k, p, l);
            var a := AttestationOf(k, p, order, l.declared, s);
            var from := if mode.Attested? && s.Found? && a.0.Verified? then s.checkpoint.size else 0;
            Verify(env, k, p, order, l, mode)
            == match Before(k, p, l)
               case Some(stage) => Failed(stage)
               case None => AfterWalk(env, k, p, l, s, a, WalkFrom(env, l.rows, from, Expected(p), 0, START))
  {
    hide Before, AttestedCheckpoint, AttestationOf, AfterWalk, WalkFrom, Expected;
  }

  lemma OpenIs(env: Env, rows: seq<Row>, from: nat, expected: Bytes, size: nat, root: Bytes)
    ensures var w := WalkFrom(env, rows, from, expected, 0, START);
            var o := Open(env, rows, from, expected, size, root);
            && (o.Pass? <==> w.Pass? && VerifyRootAt(env.sha, w.leaves, size, root).None?)
            && (o.Pass? ==> o == w)
  {
    hide WalkFrom, VerifyRootAt;
  }

  /** When the two walks agree, so do the two openings. */
  lemma FastOrFull(env: Env, k: PN.Keys, p: Option<WitnessPolicy>, l: Ledger, s: Stored, a: (Attestation, PN.Verdict))
    requires s == AttestedCheckpoint(k, p, l) && s.Found?
    requires var o := Open(env, l.rows, s.checkpoint.size, Expected(p), s.checkpoint.size, s.checkpoint.root);
             var f := Open(env, l.rows, 0, Expected(p), s.checkpoint.size, s.checkpoint.root);
             o.Pass? == f.Pass? && (o.Pass? ==> o.leaves == f.leaves && o.signer == f.signer)
    ensures var x := AfterWalk(env, k, p, l, s, a, WalkFrom(env, l.rows, s.checkpoint.size, Expected(p), 0, START));
            var y := AfterWalk(env, k, p, l, s, a, WalkFrom(env, l.rows, 0, Expected(p), 0, START));
            x.Opened? == y.Opened? && (x.Opened? ==> x == y)
  {
    hide *;
    var w := WalkFrom(env, l.rows, s.checkpoint.size, Expected(p), 0, START);
    var v := WalkFrom(env, l.rows, 0, Expected(p), 0, START);
    OpenIs(env, l.rows, s.checkpoint.size, Expected(p), s.checkpoint.size, s.checkpoint.root);
    OpenIs(env, l.rows, 0, Expected(p), s.checkpoint.size, s.checkpoint.root);
    FinishChecksRoot(env, k, p, l, s, a, w);
    FinishChecksRoot(env, k, p, l, s, a, v);
    if w.Pass? && v.Pass? && w.leaves == v.leaves && w.signer == v.signer { FinishSame(env, k, p, l, s, a, w, v); }
  }

  // ---------------------------------------------------------- what verified means

  lemma {:induction false} LastCosignedIsStored(notes: seq<N.Note>)
    requires LastCosigned(notes).Some?
    ensures LastCosigned(notes).value in notes && IsCosigned(LastCosigned(notes).value)
  {
    hide IsCosigned;
    if !IsCosigned(Last(notes)) {
      LastCosignedIsStored(Init(notes));
      assert notes == Init(notes) + [Last(notes)];
    }
  }

  /** The policy of whoever opens, over the identity the ledger declares. */
  function OpeningPolicy(p: WitnessPolicy, d: Declared, origin: Bytes): Option<PN.Policy> {
    match LogPolicy(Some(p), d, origin)
    case None => None
    case Some(pol) => Some(pol.(witnesses := p.witnesses, quorum := p.quorum))
  }

  /** A checkpoint that the opener's policy accepts, and whose root is that of the first rows. */
  ghost predicate AttestedBy(env: Env, k: PN.Keys, p: WitnessPolicy, l: Ledger, leaves: seq<Bytes>, n: N.Note,
                             size: nat)
  {
    var c := CF.Parse(n.text);
    && n in l.checkpoints && c.Ok? && c.value.size == size <= |leaves|
    && c.value.root == Merkle.Root(env.sha, leaves[..size])
    && var pol := OpeningPolicy(p, l.declared, c.value.origin);
       pol.Some? && PN.Acceptable(k, pol.value, n)
  }

  lemma FoundIsRead(k: PN.Keys, p: Option<WitnessPolicy>, l: Ledger)
    ensures var s := AttestedCheckpoint(k, p, l);
            s.Found? ==> s.note in l.checkpoints && CF.Parse(s.note.text) == CF.Ok(s.checkpoint)
  {
    if LastCosigned(l.checkpoints).Some? { LastCosignedIsStored(l.checkpoints); }
    hide CF.Parse, LogSigned, LastCosigned;
  }

  lemma VerifiedIsAcceptable(k: PN.Keys, p: Option<WitnessPolicy>, order: seq<Bytes>, d: Declared, s: Stored)
    requires p.Some? ==> PN.Lists(order, PN.Policy([], [], p.value.witnesses, 0))
    requires AttestationOf(k, p, order, d, s).0.Verified?
    ensures s.Found? && p.Some?
    ensures var pol := OpeningPolicy(p.value, d, s.checkpoint.origin);
            pol.Some? && PN.Acceptable(k, pol.value, s.note)
  {
    hide LogPolicy, PN.Judge, PN.Acceptable;
    var pol := LogPolicy(p, d, s.checkpoint.origin).value.(witnesses := p.value.witnesses, quorum := p.value.quorum);
    PN.VerdictExact(k, pol, order, s.note);
  }

  /** An opening that says verified has checked all of this: a usable policy that agrees with what the
      ledger declares; a stored checkpoint with the log's signature and a quorum of the opener's
      witnesses; its root, against the leaves rebuilt from the rows; and, if the policy names a signer,
      that every block is that signer's. */
  lemma VerifiedIsAttested(env: Env, k: PN.Keys, p: Option<WitnessPolicy>, order: seq<Bytes>, l: Ledger, mode: Mode)
    returns (n: N.Note)
    requires p.Some? ==> PN.Lists(order, PN.Policy([], [], p.value.witnesses, 0))
    requires Verify(env, k, p, order, l, mode).Opened? && Verify(env, k, p, order, l, mode).result.attestation.Verified?
    ensures var r := Verify(env, k, p, order, l, mode).result;
            && p.Some? && PolicyUsable(p.value) && LogKeyAgrees(p, l.declared)
            && r.treeSize == |l.rows|
            && AttestedBy(env, k, p.value, l, Leaves(env, l.rows, |l.rows|), n, r.attestedSize)
            && (p.value.signerKey != [] && l.rows != [] ==> r.signerKey == Expected(p))
  {
    hide *;
    var s := AttestedCheckpoint(k, p, l);
    var a := AttestationOf(k, p, order, l.declared, s);
    var from := if mode.Attested? && s.Found? && a.0.Verified? then s.checkpoint.size else 0;
    var w := WalkFrom(env, l.rows, from, Expected(p), 0, START);
    VerifyIs(env, k, p, order, l, mode);
    FoundIsRead(k, p, l);
    BeforeIs(k, p, l);
    FinishIs(env, k, p, l, s, a, w);
    VerifiedIsAcceptable(k, p, order, l.declared, s);
    FinishChecksRoot(env, k, p, l, s, a, w);
    WalkMeaning(env, l.rows, from, Expected(p));
    ExpectedIs(p);
    AttestedIs(env, k, p.value, l, w.leaves, s);
    n := s.note;
  }

  lemma AttestedIs(env: Env, k: PN.Keys, p: WitnessPolicy, l: Ledger, leaves: seq<Bytes>, s: Stored)
    requires s.Found? && s.note in l.checkpoints && CF.Parse(s.note.text) == CF.Ok(s.checkpoint)
    requires VerifyRootAt(env.sha, leaves, s.checkpoint.size, s.checkpoint.root).None?
    requires var pol := OpeningPolicy(p, l.declared, s.checkpoint.origin);
             pol.Some? && PN.Acceptable(k, pol.value, s.note)
    ensures AttestedBy(env, k, p, l, leaves, s.note, s.checkpoint.size)
  {
    hide CF.Parse, OpeningPolicy, PN.Acceptable, Merkle.Root;
  }

  lemma BeforeIs(k: PN.Keys, p: Option<WitnessPolicy>, l: Ledger)
    requires Before(k, p, l).None?
    ensures (p.Some? ==> PolicyUsable(p.value)) && LogKeyAgrees(p, l.declared)
  {
    hide PolicyUsable, LogKeyAgrees, AttestedCheckpoint;
  }

  lemma ExpectedIs(p: Option<WitnessPolicy>)
    ensures p.Some? && p.value.signerKey != [] ==> Expected(p) != []
  {
  }

  lemma FinishIs(env: Env, k: PN.Keys, p: Option<WitnessPolicy>, l: Ledger, s: Stored, a: (Attestation, PN.Verdict),
                 w: Pass)
    requires AfterWalk(env, k, p, l, s, a, w).Opened?
    ensures var r := AfterWalk(env, k, p, l, s, a, w).result;
            && w.Pass? && r.treeSize == |w.leaves| && r.attestation == a.0 && r.signerKey == w.signer
            && (s.Found? ==> r.attestedSize == s.checkpoint.size)
            && (w.leaves != [] && Expected(p) != [] ==> w.signer == Expected(p))
  {
    hide RootsAgree, Expected;
  }
}
