/** The vault's keys and the change of passphrase: internal/vault/keys.go and rekey.go, and
    ReplaceMeta of internal/store/blobs.go. Encryption is symbolic: a sealed value opens only
    under the key and the associated data it was sealed with. Argon2id is a parameter. */
module Vault {
  import opened Bytes
  import opened Text

  datatype Params = Params(time: nat, memory: nat, threads: nat, keyLen: nat, salt: Bytes)

  /** A row of vault_meta: encoded parameters, a sealed value, or plain bytes. */
  datatype Value =
    ParamsRow(params: Params) | Sealed(kek: Bytes, aad: Bytes, nonce: Bytes, plain: Bytes) | Plain(bytes: Bytes)

  type Rows = map<Bytes, Value>

  type Derive = (Bytes, Params) -> Bytes

  const PARAMS_KEY := Ascii("vault/params/v1")
  const DEK_KEY := Ascii("vault/dek/v1")
  const ID_KEY := Ascii("vault/id/v1")
  const AAD_PREFIX := Ascii("nucleo/dek/v1")

  const KEY_SIZE: nat := 32
  const SALT_SIZE: nat := 16

  // ---------------------------------------------------------------------- keys

  predicate ValidParams(p: Params) {
    p.time != 0 && p.memory >= 8 && p.threads != 0 && p.keyLen >= 16 && |p.salt| >= 8
  }

  /** DeriveKEK. */
  function DeriveKEK(derive: Derive, passphrase: Bytes, p: Params): Option<Bytes> {
    if ValidParams(p) then Some(derive(passphrase, p)) else None
  }

  function DekAAD(vaultId: Bytes): Bytes {
    AAD_PREFIX + vaultId
  }

  /** WrapDEK, with the nonce as a parameter. */
  function WrapDEK(kek: Bytes, dek: Bytes, vaultId: Bytes, nonce: Bytes): Option<Value> {
    if |dek| != KEY_SIZE || |kek| != KEY_SIZE then None else Some(Sealed(kek, DekAAD(vaultId), nonce, dek))
  }

  /** UnwrapDEK: authenticated, so it fails on any other key, vault or material. */
  function UnwrapDEK(kek: Bytes, wrapped: Value, vaultId: Bytes): Option<Bytes> {
    match wrapped
    case Sealed(k, aad, _, plain) =>
      if |kek| == KEY_SIZE && k == kek && aad == DekAAD(vaultId) && |plain| == KEY_SIZE then Some(plain) else None
    case _ => None
  }

  /** A DEK wrapped for one vault opens in no other. */
  lemma WrapUnwrap(kek: Bytes, dek: Bytes, vaultId: Bytes, nonce: Bytes, kek': Bytes, vaultId': Bytes)
    requires WrapDEK(kek, dek, vaultId, nonce).Some?
    ensures UnwrapDEK(kek', WrapDEK(kek, dek, vaultId, nonce).value, vaultId')
         == if kek' == kek && vaultId' == vaultId then Some(dek) else None
  {
    hide Ascii;
    if DekAAD(vaultId) == DekAAD(vaultId') {
      assert DekAAD(vaultId)[|AAD_PREFIX|..] == vaultId && DekAAD(vaultId')[|AAD_PREFIX|..] == vaultId';
    }
  }

  /** Unlock: the DEK a passphrase opens, if it opens. */
  function Unlock(derive: Derive, rows: Rows, passphrase: Bytes): Option<Bytes> {
    if PARAMS_KEY !in rows || !rows[PARAMS_KEY].ParamsRow? then None
    else if ID_KEY !in rows || !rows[ID_KEY].Plain? || DEK_KEY !in rows then None
    else match DeriveKEK(derive, passphrase, rows[PARAMS_KEY].params)
      case None => None
      case Some(kek) => UnwrapDEK(kek, rows[DEK_KEY], rows[ID_KEY].bytes)
  }

  // -------------------------------------------------------------- compare and swap

  predicate Unchanged(rows: Rows, expected: Rows) {
    forall k :: k in expected ==> k in rows && rows[k] == expected[k]
  }

  /** vault_meta, as ReplaceMeta and GetMeta use it. */
  class MetaStore {
    var rows: Rows

    constructor (initial: Rows)
      ensures rows == initial
    {
      rows := initial;
    }

    method GetMeta(key: Bytes) returns (v: Option<Value>)
      ensures v == if key in rows then Some(rows[key]) else None
    {
      if key in rows { return Some(rows[key]); }
      return None;
    }

    /** ReplaceMeta: all the updates, or none; `driverFails` stands for an error of the driver, or a
        crash, anywhere before the commit returns. */
    method ReplaceMeta(expected: Rows, updates: Rows, driverFails: bool) returns (ok: bool)
      modifies this
      ensures ok == (Unchanged(old(rows), expected) && !driverFails)
      ensures rows == if ok then old(rows) + updates else old(rows)
    {
      var left := expected.Keys;
      while left != {}
        invariant left <= expected.Keys
        invariant forall k :: k in expected && k !in left ==> k in rows && rows[k] == expected[k]
      {
        var k :| k in left;
        if k !in rows || rows[k] != expected[k] { return false; }
        left := left - {k};
      }
      var tx := rows;
      var todo := updates.Keys;
      while todo != {}
        invariant todo <= updates.Keys
        invariant tx == rows + (updates - todo)
      {
        var k :| k in todo;
        tx := tx[k := updates[k]];
        todo := todo - {k};
      }
      if driverFails { return false; }
      assert updates - {} == updates;
      rows := tx;
      return true;
    }
  }

  // -------------------------------------------------------------------- the rekey

  datatype Rekey = Rekey(vaultId: Bytes, newKEK: Bytes, expected: Rows, updates: Rows)

  /** What a caller of PrepareRekey brings, and the randomness it draws. */
  datatype Request = Request(oldKEK: Bytes, passphrase: Bytes, salt: Bytes, nonce: Bytes)

  /** PrepareRekey after its three reads. */
  function Prepare(derive: Derive, q: Request, encoded: Value, rawId: Value, wrapped: Value): Option<Rekey> {
    if q.passphrase == [] || !encoded.ParamsRow? || !rawId.Plain? then None
    else
      var id := rawId.bytes;
      match UnwrapDEK(q.oldKEK, wrapped, id)
      case None => None
      case Some(dek) =>
        var params := encoded.params.(salt := q.salt);
        match DeriveKEK(derive, q.passphrase, params)
        case None => None
        case Some(kek) =>
          match WrapDEK(kek, dek, id, q.nonce)
          case None => None
          case Some(sealed) =>
            if UnwrapDEK(kek, sealed, id) != Some(dek) then None
            else Some(Rekey(id, kek,
                            map[PARAMS_KEY := encoded, DEK_KEY := wrapped],
                            map[PARAMS_KEY := ParamsRow(params), DEK_KEY := sealed]))
  }

  /** PrepareRekey over a store nobody else writes meanwhile; nothing is written. */
  method PrepareRekey(derive: Derive, ms: MetaStore, q: Request) returns (r: Option<Rekey>)
    ensures r == if PARAMS_KEY in ms.rows && ID_KEY in ms.rows && DEK_KEY in ms.rows
                 then Prepare(derive, q, ms.rows[PARAMS_KEY], ms.rows[ID_KEY], ms.rows[DEK_KEY]) else None
  {
    hide Ascii;
    if q.passphrase == [] { return None; }
    var encoded := ms.GetMeta(PARAMS_KEY);
    if encoded.None? || !encoded.value.ParamsRow? { return None; }
    var rawId := ms.GetMeta(ID_KEY);
    if rawId.None? || !rawId.value.Plain? { return None; }
    var wrapped := ms.GetMeta(DEK_KEY);
    if wrapped.None? { return None; }
    var id := rawId.value.bytes;
    var dek := UnwrapDEK(q.oldKEK, wrapped.value, id);
    if dek.None? { return None; }
    var params := encoded.value.params.(salt := q.salt);
    var kek := DeriveKEK(derive, q.passphrase, params);
    if kek.None? { return None; }
    var sealed := WrapDEK(kek.value, dek.value, id, q.nonce);
    if sealed.None? { return None; }
    var check := UnwrapDEK(kek.value, sealed.value, id);
    if check != dek { return None; }
    return Some(Rekey(id, kek.value, map[PARAMS_KEY := encoded.value, DEK_KEY := wrapped.value],
                      map[PARAMS_KEY := ParamsRow(params), DEK_KEY := sealed.value]));
  }

  /** A prepared change, held until the new cards are confirmed. */
  class PreparedRekey {
    const vaultId: Bytes
    const expected: Rows
    const updates: Rows
    var newKEK: Bytes

    constructor (r: Rekey)
      ensures vaultId == r.vaultId && expected == r.expected && updates == r.updates && newKEK == r.newKEK
    {
      vaultId, expected, updates, newKEK := r.vaultId, r.expected, r.updates, r.newKEK;
    }

    method Commit(ms: MetaStore, driverFails: bool) returns (ok: bool)
      modifies ms
      ensures ok == (Unchanged(old(ms.rows), expected) && !driverFails)
      ensures ms.rows == if ok then old(ms.rows) + updates else old(ms.rows)
    {
      ok := ms.ReplaceMeta(expected, updates, driverFails);
    }

    /** Close: the key is gone from memory; the change can still be committed. */
    method Close()
      modifies this`newKEK
      ensures newKEK == []
    {
      newKEK := [];
    }
  }

  /** A change is prepared exactly when there is a new passphrase, the old key opens this vault's DEK,
      and the parameters with the new salt derive a key of the right size. */
  lemma PrepareExact(derive: Derive, q: Request, encoded: Value, rawId: Value, wrapped: Value)
    ensures Prepare(derive, q, encoded, rawId, wrapped).Some?
            <==> && q.passphrase != [] && encoded.ParamsRow? && rawId.Plain?
                 && UnwrapDEK(q.oldKEK, wrapped, rawId.bytes).Some?
                 && encoded.params.time != 0 && encoded.params.memory >= 8 && encoded.params.threads != 0
                 && encoded.params.keyLen >= 16 && |q.salt| >= 8
                 && |derive(q.passphrase, encoded.params.(salt := q.salt))| == KEY_SIZE
  {
  }

  /** A change prepared and committed with nobody in between: the new passphrase opens the vault and
      gives the DEK the old key gave. */
  lemma RekeyOpens(derive: Derive, rows: Rows, q: Request)
    requires PARAMS_KEY in rows && ID_KEY in rows && DEK_KEY in rows
    requires Prepare(derive, q, rows[PARAMS_KEY], rows[ID_KEY], rows[DEK_KEY]).Some?
    ensures var r := Prepare(derive, q, rows[PARAMS_KEY], rows[ID_KEY], rows[DEK_KEY]).value;
            && Unchanged(rows, r.expected)
            && Unlock(derive, rows + r.updates, q.passphrase) == UnwrapDEK(q.oldKEK, rows[DEK_KEY], rows[ID_KEY].bytes)
            && Unlock(derive, rows + r.updates, q.passphrase).Some?
  {
    assert |PARAMS_KEY| == 15 && |DEK_KEY| == 12 && |ID_KEY| == 11;
    hide Ascii, DekAAD;
  }

  // ---------------------------------------------------------------------- creation

  datatype Profile = Default | Constrained | Unknown

  /** ParamsFor. */
  function ParamsFor(profile: Profile, salt: Bytes): Option<Params> {
    match profile
    case Default => Some(Params(3, 65536, 4, 32, salt))
    case Constrained => Some(Params(2, 19456, 1, 32, salt))
    case Unknown => None
  }

  /** What a creation asks for: an identifier, a passphrase, a known profile, a salt of eight bytes or
      more, and keys of the right size. */
  predicate CanCreate(derive: Derive, vaultId: Bytes, passphrase: Bytes, profile: Profile, salt: Bytes, dek: Bytes) {
    && vaultId != [] && passphrase != [] && profile != Unknown && |salt| >= 8 && |dek| == 32
    && |derive(passphrase, ParamsFor(profile, salt).value)| == 32
  }

  /** Row `k` is as it was, or holds `v` once `done`. */
  predicate Written(before: Rows, after: Rows, k: Bytes, v: Value, done: bool) {
    if done then k in after && after[k] == v
    else (k in after <==> k in before) && (k in before ==> after[k] == before[k])
  }

  /** CreateWithProfile: three writes, one after another, and a crash may come before any of them.
      Only a creation that ran to its end reports success, and then the passphrase opens the vault. */
  method CreateWithProfile(derive: Derive, ms: MetaStore, vaultId: Bytes, passphrase: Bytes, profile: Profile,
                           salt: Bytes, dek: Bytes, nonce: Bytes, writes: nat)
    returns (ok: bool)
    modifies ms
    ensures var can := CanCreate(derive, vaultId, passphrase, profile, salt, dek);
            && (ok <==> can && writes >= 3)
            && (ok ==> Unlock(derive, ms.rows, passphrase) == Some(dek))
            && (!can ==> ms.rows == old(ms.rows))
            && (can ==>
                  var params := ParamsFor(profile, salt).value;
                  var wrapped := Sealed(derive(passphrase, params), DekAAD(vaultId), nonce, dek);
                  && Written(old(ms.rows), ms.rows, PARAMS_KEY, ParamsRow(params), writes >= 1)
                  && Written(old(ms.rows), ms.rows, ID_KEY, Plain(vaultId), writes >= 2)
                  && Written(old(ms.rows), ms.rows, DEK_KEY, wrapped, writes >= 3))
    ensures forall k :: k != PARAMS_KEY && k != ID_KEY && k != DEK_KEY ==>
              (k in ms.rows <==> k in old(ms.rows)) && (k in ms.rows ==> ms.rows[k] == old(ms.rows)[k])
  {
    assert |PARAMS_KEY| == 15 && |DEK_KEY| == 12 && |ID_KEY| == 11;
    hide Ascii;
    if vaultId == [] || passphrase == [] { return false; }
    var params := ParamsFor(profile, salt);
    if params.None? { return false; }
    var kek := DeriveKEK(derive, passphrase, params.value);
    if kek.None? { return false; }
    var wrapped := WrapDEK(kek.value, dek, vaultId, nonce);
    if wrapped.None? { return false; }
    if writes < 1 { return false; }
    ms.rows := ms.rows[PARAMS_KEY := ParamsRow(params.value)];
    if writes < 2 { return false; }
    ms.rows := ms.rows[ID_KEY := Plain(vaultId)];
    if writes < 3 { return false; }
    ms.rows := ms.rows[DEK_KEY := wrapped.value];
    return true;
  }
}
