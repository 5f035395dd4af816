/** Any interleaving of changes of passphrase, reads torn between other changes, crashes at any
    point and writes to other rows: the vault always opens with the last passphrase committed. */
module VaultRun {
  import opened Bytes
  import opened Vault

  /** Where a change of passphrase is: after each of its reads, or prepared. */
  datatype Proc = GotParams(oldKEK: Bytes, pass: Bytes, encoded: Value)
                | GotId(oldKEK: Bytes, pass: Bytes, encoded: Value, rawId: Value)
                | Ready(pass: Bytes, rekey: Rekey)

  datatype Commit = Commit(expected: Rows, updates: Rows)

  /** The rows, the changes in flight, the salts drawn so far, the passphrase last committed and the
      changes committed, in order. */
  datatype World = World(rows: Rows, procs: map<nat, Proc>, salts: set<Bytes>, passphrase: Bytes, commits: seq<Commit>)

  datatype Event = ReadParams(pid: nat, oldKEK: Bytes, pass: Bytes)
                 | ReadId(pid: nat)
                 | ReadDek(pid: nat, salt: Bytes, nonce: Bytes)
                 | Commits(pid: nat, driverFails: bool)
                 | Crash(pid: nat)
                 | WriteOther(key: Bytes, value: Value)

  /** Salts are random: none is drawn twice. Nothing else writes the vault's own rows. */
  predicate Legal(w: World, e: Event) {
    match e
    case ReadDek(_, salt, _) => salt !in w.salts && |salt| == SALT_SIZE
    case WriteOther(key, _) => key != PARAMS_KEY && key != ID_KEY && key != DEK_KEY
    case _ => true
  }

  function Step(derive: Derive, w: World, e: Event): World {
    match e
    case ReadParams(pid, oldKEK, pass) =>
      if PARAMS_KEY in w.rows && pid !in w.procs then
        w.(procs := w.procs[pid := GotParams(oldKEK, pass, w.rows[PARAMS_KEY])]) else w
    case ReadId(pid) =>
      if ID_KEY in w.rows && pid in w.procs && w.procs[pid].GotParams? then
        var p := w.procs[pid];
        w.(procs := w.procs[pid := GotId(p.oldKEK, p.pass, p.encoded, w.rows[ID_KEY])])
      else w
    case ReadDek(pid, salt, nonce) =>
      if DEK_KEY in w.rows && pid in w.procs && w.procs[pid].GotId? then
        var p := w.procs[pid];
        var drawn := w.(salts := w.salts + {salt});
        match Prepare(derive, Request(p.oldKEK, p.pass, salt, nonce), p.encoded, p.rawId, w.rows[DEK_KEY])
        case None => drawn.(procs := w.procs - {pid})
        case Some(r) => drawn.(procs := w.procs[pid := Ready(p.pass, r)])
      else w
    case Commits(pid, driverFails) =>
      if pid in w.procs && w.procs[pid].Ready? then
        var p := w.procs[pid];
        if Unchanged(w.rows, p.rekey.expected) && !driverFails then
          w.(rows := w.rows + p.rekey.updates, passphrase := p.pass,
             commits := w.commits + [Commit(p.rekey.expected, p.rekey.updates)])
        else w
      else w
    case Crash(pid) => w.(procs := w.procs - {pid})
    case WriteOther(key, value) => w.(rows := w.rows[key := value])
  }

  // ----------------------------------------------------------------- the invariant

  predicate IsParams(v: Value, salts: set<Bytes>) {
    v.ParamsRow? && v.params.salt in salts
  }

  /** These parameters and this wrapped DEK belong together under the passphrase. */
  predicate Together(derive: Derive, pass: Bytes, params: Value, wrapped: Value, id: Bytes, dek: Bytes) {
    && params.ParamsRow? && |dek| == KEY_SIZE
    && var kek := DeriveKEK(derive, pass, params.params);
       kek.Some? && UnwrapDEK(kek.value, wrapped, id) == Some(dek)
  }

  function SaltOf(v: Value): Bytes {
    if v.ParamsRow? then v.params.salt else []
  }

  /** The salts of the parameters that commits have replaced. */
  function Spent(commits: seq<Commit>): set<Bytes> {
    set i | 0 <= i < |commits| && PARAMS_KEY in commits[i].expected :: SaltOf(commits[i].expected[PARAMS_KEY])
  }

  predicate Pair(rows: Rows) {
    rows.Keys == {PARAMS_KEY, DEK_KEY}
  }

  /** A prepared change is whole in itself, and its salt is its own. */
  predicate ReadyGood(derive: Derive, w: World, id: Bytes, dek: Bytes, p: Proc)
    requires p.Ready?
  {
    && Pair(p.rekey.expected) && Pair(p.rekey.updates)
    && IsParams(p.rekey.expected[PARAMS_KEY], w.salts) && IsParams(p.rekey.updates[PARAMS_KEY], w.salts)
    && SaltOf(p.rekey.expected[PARAMS_KEY]) != SaltOf(p.rekey.updates[PARAMS_KEY])
    && Together(derive, p.pass, p.rekey.updates[PARAMS_KEY], p.rekey.updates[DEK_KEY], id, dek)
  }

  predicate ProcGood(derive: Derive, w: World, id: Bytes, dek: Bytes, p: Proc) {
    match p
    case GotParams(_, _, encoded) => IsParams(encoded, w.salts)
    case GotId(_, _, encoded, rawId) => IsParams(encoded, w.salts) && rawId == Plain(id)
    case Ready(_, _) => ReadyGood(derive, w, id, dek, p)
  }

  /** The rows of the vault: salt and wrapped DEK belong together under the last passphrase. */
  predicate RowsGood(derive: Derive, w: World, id: Bytes, dek: Bytes) {
    && PARAMS_KEY in w.rows && ID_KEY in w.rows && DEK_KEY in w.rows
    && w.rows[ID_KEY] == Plain(id) && IsParams(w.rows[PARAMS_KEY], w.salts)
    && Together(derive, w.passphrase, w.rows[PARAMS_KEY], w.rows[DEK_KEY], id, dek)
  }

  ghost predicate ProcsGood(derive: Derive, w: World, id: Bytes, dek: Bytes) {
    forall pid :: pid in w.procs ==> ProcGood(derive, w, id, dek, w.procs[pid])
  }

  function NewSalt(p: Proc): Bytes
    requires p.Ready? && Pair(p.rekey.updates)
  {
    SaltOf(p.rekey.updates[PARAMS_KEY])
  }

  function OldSalt(p: Proc): Bytes
    requires p.Ready? && Pair(p.rekey.expected)
  {
    SaltOf(p.rekey.expected[PARAMS_KEY])
  }

  /** No two prepared changes have the same salt, and one whose salt has been stored has replaced
      what it expected. */
  ghost predicate SaltsOwned(derive: Derive, w: World, id: Bytes, dek: Bytes) {
    && (forall x, y :: x in w.procs && y in w.procs && x != y && w.procs[x].Ready? && w.procs[y].Ready?
                       && Pair(w.procs[x].rekey.updates) && Pair(w.procs[y].rekey.updates)
                       ==> NewSalt(w.procs[x]) != NewSalt(w.procs[y]))
    && (forall x :: x in w.procs && w.procs[x].Ready? && Pair(w.procs[x].rekey.updates)
                    && Pair(w.procs[x].rekey.expected)
                    && (NewSalt(w.procs[x]) in Spent(w.commits)
                        || (PARAMS_KEY in w.rows && NewSalt(w.procs[x]) == SaltOf(w.rows[PARAMS_KEY])))
                    ==> OldSalt(w.procs[x]) in Spent(w.commits))
  }

  /** What was replaced stays replaced. */
  ghost predicate History(w: World) {
    && (forall i :: 0 <= i < |w.commits| ==> Pair(w.commits[i].expected))
    && (forall i, j :: 0 <= i < j < |w.commits| && Pair(w.commits[i].expected) && Pair(w.commits[j].expected)
                       ==> SaltOf(w.commits[i].expected[PARAMS_KEY]) != SaltOf(w.commits[j].expected[PARAMS_KEY]))
    && Spent(w.commits) <= w.salts
    && (PARAMS_KEY in w.rows ==> SaltOf(w.rows[PARAMS_KEY]) !in Spent(w.commits))
  }

  ghost predicate Invariant(derive: Derive, w: World, id: Bytes, dek: Bytes) {
    RowsGood(derive, w, id, dek) && ProcsGood(derive, w, id, dek) && SaltsOwned(derive, w, id, dek) && History(w)
  }

  // ------------------------------------------------------------------- the steps

  lemma PrepareIsWhole(derive: Derive, q: Request, encoded: Value, id: Bytes, wrapped: Value, dek: Bytes, pass: Bytes,
                       params: Value)
    requires encoded.ParamsRow? && Together(derive, pass, params, wrapped, id, dek)
    requires Prepare(derive, q, encoded, Plain(id), wrapped).Some?
    ensures var r := Prepare(derive, q, encoded, Plain(id), wrapped).value;
            && Pair(r.expected) && Pair(r.updates)
            && r.expected[PARAMS_KEY] == encoded
            && r.updates[PARAMS_KEY] == ParamsRow(encoded.params.(salt := q.salt))
            && Together(derive, q.passphrase, r.updates[PARAMS_KEY], r.updates[DEK_KEY], id, dek)
  {
    KeysDiffer();
  }

  lemma KeysDiffer()
    ensures PARAMS_KEY != DEK_KEY && PARAMS_KEY != ID_KEY && DEK_KEY != ID_KEY
  {
    assert |PARAMS_KEY| == 15 && |DEK_KEY| == 12 && |ID_KEY| == 11;
  }

  /** A change in flight that is not prepared yet touches nothing the others rely on. */
  lemma ProcAdds(derive: Derive, w: World, pid: nat, p: Proc, id: Bytes, dek: Bytes)
    requires Invariant(derive, w, id, dek) && !p.Ready? && ProcGood(derive, w, id, dek, p)
    ensures Invariant(derive, w.(procs := w.procs[pid := p]), id, dek)
  {
    hide Together, Spent, Pair, IsParams;
  }

  lemma CrashKeeps(derive: Derive, w: World, pid: nat, id: Bytes, dek: Bytes)
    requires Invariant(derive, w, id, dek)
    ensures Invariant(derive, w.(procs := w.procs - {pid}), id, dek)
  {
    hide Together, Spent, Pair, IsParams;
  }

  lemma ReadsKeep(derive: Derive, w: World, e: Event, id: Bytes, dek: Bytes)
    requires Invariant(derive, w, id, dek) && (e.ReadParams? || e.ReadId? || e.Crash?)
    ensures Invariant(derive, Step(derive, w, e), id, dek)
  {
    hide Together, Spent, Pair, SaltsOwned, History;
    match e
    case ReadParams(pid, oldKEK, pass) =>
      ProcAdds(derive, w, pid, GotParams(oldKEK, pass, w.rows[PARAMS_KEY]), id, dek);
    case ReadId(pid) =>
      if pid in w.procs && w.procs[pid].GotParams? {
        var p := w.procs[pid];
        assert ProcGood(derive, w, id, dek, p);
        ProcAdds(derive, w, pid, GotId(p.oldKEK, p.pass, p.encoded, w.rows[ID_KEY]), id, dek);
      }
    case Crash(pid) => CrashKeeps(derive, w, pid, id, dek);
  }

  lemma OtherKeeps(derive: Derive, w: World, e: Event, id: Bytes, dek: Bytes)
    requires Invariant(derive, w, id, dek) && e.WriteOther? && Legal(w, e)
    ensures Invariant(derive, Step(derive, w, e), id, dek)
  {
    hide Together, UnwrapDEK, DeriveKEK, Spent, Pair;
  }

  /** A prepared change is made whole from whatever rows its reads saw, and its salt is new. */
  lemma PreparedIsGood(derive: Derive, w: World, pid: nat, salt: Bytes, nonce: Bytes, id: Bytes, dek: Bytes)
    requires Invariant(derive, w, id, dek) && pid in w.procs && w.procs[pid].GotId? && salt !in w.salts
    requires var p := w.procs[pid];
             Prepare(derive, Request(p.oldKEK, p.pass, salt, nonce), p.encoded, p.rawId, w.rows[DEK_KEY]).Some?
    ensures var p := w.procs[pid];
            var r := Prepare(derive, Request(p.oldKEK, p.pass, salt, nonce), p.encoded, p.rawId, w.rows[DEK_KEY]).value;
            && ReadyGood(derive, w.(salts := w.salts + {salt}), id, dek, Ready(p.pass, r))
            && NewSalt(Ready(p.pass, r)) == salt
  {
    var p := w.procs[pid];
    assert ProcGood(derive, w, id, dek, p);
    hide Prepare, Together, ProcsGood, SaltsOwned, History;
    PrepareIsWhole(derive, Request(p.oldKEK, p.pass, salt, nonce), p.encoded, id, w.rows[DEK_KEY], dek,
                   w.passphrase, w.rows[PARAMS_KEY]);
  }

  lemma MoreSalts(derive: Derive, w: World, salt: Bytes, id: Bytes, dek: Bytes, p: Proc)
    requires ProcGood(derive, w, id, dek, p)
    ensures ProcGood(derive, w.(salts := w.salts + {salt}), id, dek, p)
    ensures p.Ready? && salt !in w.salts ==> NewSalt(p) != salt
  {
    hide Together, Pair;
  }

  lemma DrawKeeps(derive: Derive, w: World, salt: Bytes, id: Bytes, dek: Bytes)
    requires Invariant(derive, w, id, dek)
    ensures Invariant(derive, w.(salts := w.salts + {salt}), id, dek)
  {
    var d := w.(salts := w.salts + {salt});
    forall pid | pid in d.procs ensures ProcGood(derive, d, id, dek, d.procs[pid]) {
      MoreSalts(derive, w, salt, id, dek, w.procs[pid]);
    }
    hide Together, Spent, Pair, ProcGood, NewSalt, OldSalt;
  }

  lemma ReadyAdds(derive: Derive, d: World, pid: nat, p: Proc, salt: Bytes, id: Bytes, dek: Bytes)
    requires Invariant(derive, d, id, dek) && p.Ready? && ReadyGood(derive, d, id, dek, p) && NewSalt(p) == salt
    requires salt !in Spent(d.commits) && salt != SaltOf(d.rows[PARAMS_KEY])
    requires forall x :: x in d.procs && d.procs[x].Ready? && Pair(d.procs[x].rekey.updates) ==>
               NewSalt(d.procs[x]) != salt
    ensures Invariant(derive, d.(procs := d.procs[pid := p]), id, dek)
  {
    hide Together, Spent, Pair;
  }

  lemma ReadDekKeeps(derive: Derive, w: World, pid: nat, salt: Bytes, nonce: Bytes, id: Bytes, dek: Bytes)
    requires Invariant(derive, w, id, dek) && Legal(w, ReadDek(pid, salt, nonce))
    ensures Invariant(derive, Step(derive, w, ReadDek(pid, salt, nonce)), id, dek)
  {
    DrawKeeps(derive, w, salt, id, dek);
    var d := w.(salts := w.salts + {salt});
    FreshSalt(derive, w, salt, id, dek);
    if pid in w.procs && w.procs[pid].GotId? {
      var p := w.procs[pid];
      var r := Prepare(derive, Request(p.oldKEK, p.pass, salt, nonce), p.encoded, p.rawId, w.rows[DEK_KEY]);
      if r.Some? {
        PreparedIsGood(derive, w, pid, salt, nonce, id, dek);
        ReadyAdds(derive, d, pid, Ready(p.pass, r.value), salt, id, dek);
      } else {
        CrashKeeps(derive, d, pid, id, dek);
      }
    }
    hide Invariant, Prepare, RowsGood;
  }

  lemma FreshSalt(derive: Derive, w: World, salt: Bytes, id: Bytes, dek: Bytes)
    requires Invariant(derive, w, id, dek) && salt !in w.salts
    ensures salt !in Spent(w.commits) && salt != SaltOf(w.rows[PARAMS_KEY])
    ensures forall x :: x in w.procs && w.procs[x].Ready? && Pair(w.procs[x].rekey.updates) ==>
              NewSalt(w.procs[x]) != salt
  {
    hide Together, Spent, Pair;
    forall x | x in w.procs && w.procs[x].Ready? && Pair(w.procs[x].rekey.updates) ensures NewSalt(w.procs[x]) != salt {
      assert ProcGood(derive, w, id, dek, w.procs[x]);
    }
  }

  lemma SpentOneMore(commits: seq<Commit>, c: Commit)
    requires Pair(c.expected)
    ensures Spent(commits + [c]) == Spent(commits) + {SaltOf(c.expected[PARAMS_KEY])}
  {
    hide SaltOf;
    assert forall i :: 0 <= i < |commits| ==> (commits + [c])[i] == commits[i];
    assert (commits + [c])[|commits|] == c;
  }

  /** A commit takes effect only on the rows it expected, and puts a whole pair in their place. */
  lemma CommitKeeps(derive: Derive, w: World, pid: nat, id: Bytes, dek: Bytes)
    requires Invariant(derive, w, id, dek) && pid in w.procs && w.procs[pid].Ready?
    requires Unchanged(w.rows, w.procs[pid].rekey.expected)
    ensures Invariant(derive, Step(derive, w, Commits(pid, false)), id, dek)
  {
    var p := w.procs[pid];
    var d := Step(derive, w, Commits(pid, false));
    assert ProcGood(derive, w, id, dek, p);
    CommitRows(derive, w, pid, id, dek);
    SpentOneMore(w.commits, Commit(p.rekey.expected, p.rekey.updates));
    hide Together, Spent, Pair, Unchanged, SaltOf, History, SaltsOwned;
    CommitHistory(derive, w, d, pid, id, dek);
    CommitOwned(derive, w, d, pid, id, dek);
  }

  lemma CommitRows(derive: Derive, w: World, pid: nat, id: Bytes, dek: Bytes)
    requires RowsGood(derive, w, id, dek) && pid in w.procs && w.procs[pid].Ready?
    requires ReadyGood(derive, w, id, dek, w.procs[pid]) && Unchanged(w.rows, w.procs[pid].rekey.expected)
    ensures var p, d := w.procs[pid], Step(derive, w, Commits(pid, false));
            && w.rows[PARAMS_KEY] == p.rekey.expected[PARAMS_KEY]
            && PARAMS_KEY in d.rows && d.rows[PARAMS_KEY] == p.rekey.updates[PARAMS_KEY]
            && RowsGood(derive, d, id, dek)
  {
    KeysDiffer();
    hide Together;
  }

  /** The salt a commit stores was never stored before. */
  lemma CommitSalt(derive: Derive, w: World, pid: nat, id: Bytes, dek: Bytes)
    requires Invariant(derive, w, id, dek) && pid in w.procs && w.procs[pid].Ready?
    requires ReadyGood(derive, w, id, dek, w.procs[pid])
    requires w.rows[PARAMS_KEY] == w.procs[pid].rekey.expected[PARAMS_KEY]
    ensures var p := w.procs[pid];
            NewSalt(p) !in Spent(w.commits) && NewSalt(p) != OldSalt(p) && OldSalt(p) !in Spent(w.commits)
  {
    hide Together, SaltOf, ProcsGood, Spent;
  }

  lemma ExpectedSpent(commits: seq<Commit>, i: nat)
    requires i < |commits| && Pair(commits[i].expected)
    ensures SaltOf(commits[i].expected[PARAMS_KEY]) in Spent(commits)
  {
  }

  lemma HistoryOneMore(w: World, d: World, c: Commit)
    requires History(w) && d.commits == w.commits + [c] && d.salts == w.salts
    requires Pair(c.expected) && PARAMS_KEY in d.rows
    requires var s := SaltOf(c.expected[PARAMS_KEY]);
             && s in w.salts && s !in Spent(w.commits) && Spent(d.commits) == Spent(w.commits) + {s}
             && SaltOf(d.rows[PARAMS_KEY]) !in Spent(w.commits) && SaltOf(d.rows[PARAMS_KEY]) != s
    ensures History(d)
  {
    assert c == d.commits[|w.commits|] && forall i :: 0 <= i < |w.commits| ==> d.commits[i] == w.commits[i];
    forall i | 0 <= i < |w.commits| && Pair(w.commits[i].expected)
      ensures SaltOf(w.commits[i].expected[PARAMS_KEY]) in Spent(w.commits)
    {
      ExpectedSpent(w.commits, i);
    }
    hide Spent, Pair, SaltOf;
  }

  lemma CommitHistory(derive: Derive, w: World, d: World, pid: nat, id: Bytes, dek: Bytes)
    requires Invariant(derive, w, id, dek) && pid in w.procs && w.procs[pid].Ready?
    requires var p := w.procs[pid];
             && ReadyGood(derive, w, id, dek, p) && w.rows[PARAMS_KEY] == p.rekey.expected[PARAMS_KEY]
             && PARAMS_KEY in d.rows && d.rows[PARAMS_KEY] == p.rekey.updates[PARAMS_KEY]
             && d.commits == w.commits + [Commit(p.rekey.expected, p.rekey.updates)] && d.salts == w.salts
             && Spent(d.commits) == Spent(w.commits) + {SaltOf(p.rekey.expected[PARAMS_KEY])}
    ensures History(d)
  {
    CommitSalt(derive, w, pid, id, dek);
    var p := w.procs[pid];
    OldSaltDrawn(derive, w, p, id, dek);
    hide Together, ProcsGood, SaltsOwned, Spent, Pair, SaltOf, History;
    HistoryOneMore(w, d, Commit(p.rekey.expected, p.rekey.updates));
  }

  lemma OldSaltDrawn(derive: Derive, w: World, p: Proc, id: Bytes, dek: Bytes)
    requires p.Ready? && ReadyGood(derive, w, id, dek, p)
    ensures SaltOf(p.rekey.expected[PARAMS_KEY]) in w.salts
  {
    hide Together;
  }

  lemma CommitOwned(derive: Derive, w: World, d: World, pid: nat, id: Bytes, dek: Bytes)
    requires Invariant(derive, w, id, dek) && pid in w.procs && w.procs[pid].Ready?
    requires var p := w.procs[pid];
             && ReadyGood(derive, w, id, dek, p) && w.rows[PARAMS_KEY] == p.rekey.expected[PARAMS_KEY]
             && PARAMS_KEY in d.rows && d.rows[PARAMS_KEY] == p.rekey.updates[PARAMS_KEY]
             && Spent(d.commits) == Spent(w.commits) + {SaltOf(p.rekey.expected[PARAMS_KEY])}
    requires d.procs == w.procs
    ensures SaltsOwned(derive, d, id, dek)
  {
    assert PARAMS_KEY in w.rows;
    hide Together, Spent, Pair, SaltOf, ProcsGood, RowsGood, History;
    var p := w.procs[pid];
    assert NewSalt(p) == SaltOf(d.rows[PARAMS_KEY]) && OldSalt(p) == SaltOf(w.rows[PARAMS_KEY]);
    forall x | x in d.procs && d.procs[x].Ready? && Pair(d.procs[x].rekey.updates) && Pair(d.procs[x].rekey.expected)
               && (NewSalt(d.procs[x]) in Spent(d.commits) || NewSalt(d.procs[x]) == SaltOf(d.rows[PARAMS_KEY]))
      ensures OldSalt(d.procs[x]) in Spent(d.commits)
    {
      if x != pid { assert NewSalt(w.procs[x]) != NewSalt(p); }
    }
  }

  lemma StepKeeps(derive: Derive, w: World, e: Event, id: Bytes, dek: Bytes)
    requires Invariant(derive, w, id, dek) && Legal(w, e)
    ensures Invariant(derive, Step(derive, w, e), id, dek)
  {
    match e
    case ReadDek(pid, salt, nonce) => ReadDekKeeps(derive, w, pid, salt, nonce, id, dek);
    case Commits(pid, driverFails) =>
      if pid in w.procs && w.procs[pid].Ready? && Unchanged(w.rows, w.procs[pid].rekey.expected) && !driverFails {
        CommitKeeps(derive, w, pid, id, dek);
      }
    case WriteOther(_, _) => OtherKeeps(derive, w, e, id, dek);
    case _ => ReadsKeep(derive, w, e, id, dek);
  }

  // --------------------------------------------------------------------- whole runs

  function Run(derive: Derive, w: World, events: seq<Event>): World
    decreases |events|
  {
    if events == [] then w else Run(derive, Step(derive, w, events[0]), events[1..])
  }

  predicate LegalRun(derive: Derive, w: World, events: seq<Event>)
    decreases |events|
  {
    events == [] || (Legal(w, events[0]) && LegalRun(derive, Step(derive, w, events[0]), events[1..]))
  }

  lemma {:induction false} RunKeeps(derive: Derive, w: World, events: seq<Event>, id: Bytes, dek: Bytes)
    requires Invariant(derive, w, id, dek) && LegalRun(derive, w, events)
    ensures Invariant(derive, Run(derive, w, events), id, dek)
    decreases |events|
  {
    hide Invariant, Step, Legal;
    if events != [] {
      StepKeeps(derive, w, events[0], id, dek);
      RunKeeps(derive, Step(derive, w, events[0]), events[1..], id, dek);
    }
  }

  /** A vault as CreateWithProfile leaves it. */
  function Created(derive: Derive, rows: Rows, passphrase: Bytes, salt: Bytes): World {
    World(rows, map[], {salt}, passphrase, [])
  }

  /** After any run from a created vault, the last passphrase committed opens it and gives the
      original DEK; any other opens it only if it derives the same key; and of the changes prepared
      from the same stored parameters at most one was committed. */
  lemma AlwaysOpens(derive: Derive, rows: Rows, passphrase: Bytes, events: seq<Event>, id: Bytes, dek: Bytes,
                    salt: Bytes)
    requires Unlock(derive, rows, passphrase) == Some(dek)
    requires rows[ID_KEY] == Plain(id) && rows[PARAMS_KEY].params.salt == salt
    requires LegalRun(derive, Created(derive, rows, passphrase, salt), events)
    ensures var w := Run(derive, Created(derive, rows, passphrase, salt), events);
            && Unlock(derive, w.rows, w.passphrase) == Some(dek)
            && (forall q :: Unlock(derive, w.rows, q).Some?
                  ==> derive(q, w.rows[PARAMS_KEY].params) == derive(w.passphrase, w.rows[PARAMS_KEY].params))
            && (forall i, j :: 0 <= i < j < |w.commits| ==> w.commits[i].expected != w.commits[j].expected)
  {
    CreatedIsGood(derive, rows, passphrase, id, dek, salt);
    hide LegalRun;
    RunKeeps(derive, Created(derive, rows, passphrase, salt), events, id, dek);
    hide Run;
    var w := Run(derive, Created(derive, rows, passphrase, salt), events);
    GoodOpens(derive, w, id, dek);
    hide Unlock, RowsGood, ProcsGood, SaltsOwned, SaltOf;
    assert History(w);
  }

  lemma CreatedIsGood(derive: Derive, rows: Rows, passphrase: Bytes, id: Bytes, dek: Bytes, salt: Bytes)
    requires Unlock(derive, rows, passphrase) == Some(dek)
    requires rows[ID_KEY] == Plain(id) && rows[PARAMS_KEY].params.salt == salt
    ensures Invariant(derive, Created(derive, rows, passphrase, salt), id, dek)
  {
  }

  lemma GoodOpens(derive: Derive, w: World, id: Bytes, dek: Bytes)
    requires RowsGood(derive, w, id, dek)
    ensures Unlock(derive, w.rows, w.passphrase) == Some(dek)
    ensures forall q :: Unlock(derive, w.rows, q).Some?
              ==> derive(q, w.rows[PARAMS_KEY].params) == derive(w.passphrase, w.rows[PARAMS_KEY].params)
  {
  }
}
