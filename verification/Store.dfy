/** The ledger's tables and the transactional append of internal/store/record.go. Tables are
    sequences and maps; a transaction builds its result aside and commits it whole. */
module Store {
  import opened Bytes
  import opened Hashing
  import Hex
  import opened Blocks

  datatype Row = Row(idx: int, hash: Bytes, headerJson: Bytes, signature: Bytes)

  datatype Blob = Blob(payloadHash: Bytes, ciphertext: Bytes, nonce: Bytes, createdAt: Bytes)

  datatype Record = Record(
    block: Option<Block>,
    blob: Option<Blob>,
    meta: map<Bytes, Bytes>,
    state: map<Bytes, Bytes>,
    eraseBlob: Bytes,
    deleteMeta: seq<Bytes>)

  /** `blocks` is in order of its primary key. */
  datatype Tables = Tables(
    blocks: seq<Row>,
    blobs: map<Bytes, Blob>,
    meta: map<Bytes, Bytes>,
    state: map<Bytes, Bytes>)

  const EMPTY := Tables([], map[], map[], map[])

  datatype Rejection = NoBlock | BadBlock(problem: Problem) | BadBlob | NotLinked(problem: Problem)
                     | DuplicateBlob | AppendOnly | Unreadable | StoreFailed

  datatype Outcome = Appended(tables: Tables) | Rejected(why: Rejection)

  // -------------------------------------------------------------- single rows

  /** decodeHash. */
  predicate IsHash(s: Bytes) {
    Hex.Decode(s).Some? && |Hex.Decode(s).value| == 32
  }

  predicate BlobIsValid(b: Blob) {
    IsHash(b.payloadHash) && b.ciphertext != [] && b.nonce != [] && b.createdAt != []
  }

  /** scanBlock: the block a row stands for. */
  function BlockOf(env: Env, row: Row): Option<Block> {
    match env.decode(row.headerJson)
    case None => None
    case Some(h) => Some(Block(h, row.hash, row.signature))
  }

  function RowOf(b: Block): Row
    requires b.header.index <= MAX_SAFE_INDEX
  {
    Row(b.header.index, b.hash, Canonical(b.header), b.signature)
  }

  /** checkLink, against the last row. */
  function CheckLink(env: Env, rows: seq<Row>, b: Block): Option<Rejection> {
    if rows == [] then
      if b.header.index != 0 then Some(NotLinked(IndexSequence)) else None
    else
      var last := BlockOf(env, Last(rows));
      if last.None? then Some(Unreadable)
      else if VerifyLink(env, last.value, b).Some? then Some(NotLinked(VerifyLink(env, last.value, b).value))
      else None
  }

  /** The primary key and the unique hash. */
  predicate Clashes(rows: seq<Row>, row: Row) {
    exists i :: 0 <= i < |rows| && (rows[i].idx == row.idx || rows[i].hash == row.hash)
  }

  /** Where a row goes in the order of the primary key. */
  function Insert(rows: seq<Row>, row: Row): (r: seq<Row>)
    ensures rows == [] || Last(rows).idx < row.idx ==> r == rows + [row]
  {
    if rows == [] || Last(rows).idx < row.idx then rows + [row] else Insert(Init(rows), row) + [Last(rows)]
  }

  // ---------------------------------------------------------- the transaction

  /** AppendRecord up to the commit. */
  function AppendSpec(env: Env, t: Tables, r: Record): Outcome {
    if r.block.None? then Rejected(NoBlock)
    else
      var b := r.block.value;
      var v := Verify(env, b);
      if v.Some? then Rejected(BadBlock(v.value))
      else if r.blob.Some? && !BlobIsValid(r.blob.value) then Rejected(BadBlob)
      else if CheckLink(env, t.blocks, b).Some? then Rejected(CheckLink(env, t.blocks, b).value)
      else if r.blob.Some? && r.blob.value.payloadHash in t.blobs then Rejected(DuplicateBlob)
      else if Clashes(t.blocks, RowOf(b)) then Rejected(AppendOnly)
      else Appended(Committed(t, r, RowOf(b)))
  }

  /** The tables after the transaction. */
  function Committed(t: Tables, r: Record, row: Row): Tables {
    var blobs := if r.blob.Some? then t.blobs[r.blob.value.payloadHash := r.blob.value] else t.blobs;
    Tables(Insert(t.blocks, row),
           if r.eraseBlob != [] then blobs - {r.eraseBlob} else blobs,
           (t.meta - KeysOf(r.deleteMeta)) + r.meta,
           t.state + r.state)
  }

  function KeysOf(keys: seq<Bytes>): set<Bytes> {
    set i | 0 <= i < |keys| :: keys[i]
  }

  class Store {
    var tables: Tables

    constructor ()
      ensures tables == EMPTY
    {
      tables := EMPTY;
    }

    /** AppendRecord: everything or nothing. `driverFails` stands for an error of the driver at
        any point of the transaction, the commit included. */
    method AppendRecord(env: Env, r: Record, driverFails: bool) returns (out: Outcome)
      modifies this
      ensures out == if AppendSpec(env, old(tables), r).Appended? && driverFails then Rejected(StoreFailed)
                     else AppendSpec(env, old(tables), r)
      ensures tables == if out.Appended? then out.tables else old(tables)
    {
      if r.block.None? { return Rejected(NoBlock); }
      var b := r.block.value;
      var v := Verify(env, b);
      if v.Some? { return Rejected(BadBlock(v.value)); }
      if r.blob.Some? && !BlobIsValid(r.blob.value) { return Rejected(BadBlob); }
      VerifiedForm(env, b);
      hide Verify, Canonical, BlobIsValid, Insert;

      var tx := tables;
      var link := CheckLink(env, tx.blocks, b);
      if link.Some? { return Rejected(link.value); }
      if r.blob.Some? {
        if r.blob.value.payloadHash in tx.blobs { return Rejected(DuplicateBlob); }
        tx := tx.(blobs := tx.blobs[r.blob.value.payloadHash := r.blob.value]);
      }
      if Clashes(tx.blocks, RowOf(b)) { return Rejected(AppendOnly); }
      tx := tx.(blocks := Insert(tx.blocks, RowOf(b)));
      if r.eraseBlob != [] { tx := tx.(blobs := tx.blobs - {r.eraseBlob}); }
      var kept := DeleteKeys(tx.meta, r.deleteMeta);
      var meta := PutAll(kept, r.meta);
      var state := PutAll(tx.state, r.state);
      tx := tx.(meta := meta, state := state);
      if driverFails { return Rejected(StoreFailed); }
      tables := tx;
      return Appended(tx);
    }
  }

  method DeleteKeys(m: map<Bytes, Bytes>, keys: seq<Bytes>) returns (r: map<Bytes, Bytes>)
    ensures r == m - KeysOf(keys)
  {
    r := m;
    for i := 0 to |keys|
      invariant r == m - KeysOf(keys[..i])
    {
      r := r - {keys[i]};
      KeysStep(keys, i);
    }
    assert keys[..|keys|] == keys;
  }

  lemma KeysStep(keys: seq<Bytes>, i: nat)
    requires i < |keys|
    ensures KeysOf(keys[..i + 1]) == KeysOf(keys[..i]) + {keys[i]}
  {
    assert keys[..i + 1] == keys[..i] + [keys[i]];
    assert forall j :: 0 <= j < i ==> keys[..i + 1][j] == keys[..i][j];
    assert keys[..i + 1][i] == keys[i];
  }

  /** The upserts of one table, in some order of the keys. */
  method PutAll(m: map<Bytes, Bytes>, entries: map<Bytes, Bytes>) returns (r: map<Bytes, Bytes>)
    ensures r == m + entries
  {
    r := m;
    var todo := entries.Keys;
    while todo != {}
      invariant todo <= entries.Keys
      invariant r == m + (entries - todo)
    {
      var k :| k in todo;
      r := r[k := entries[k]];
      todo := todo - {k};
    }
    assert entries - {} == entries;
  }
}
