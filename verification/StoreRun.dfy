/** What any sequence of AppendRecord calls leaves in the ledger: a chain. */
module StoreRun {
  import opened Bytes
  import opened Hashing
  import opened Blocks
  import opened Store

  ghost predicate Decodes(env: Env, rows: seq<Row>) {
    forall i :: 0 <= i < |rows| ==> BlockOf(env, rows[i]).Some?
  }

  ghost function BlocksOf(env: Env, rows: seq<Row>): (bs: seq<Block>)
    requires Decodes(env, rows)
    ensures |bs| == |rows|
    ensures forall i :: 0 <= i < |rows| ==> BlockOf(env, rows[i]) == Some(bs[i])
  {
    seq(|rows|, i requires 0 <= i < |rows| => BlockOf(env, rows[i]).value)
  }

  /** Every row is where its index says and keeps the canonical bytes of its header, and the
      blocks they stand for are a chain from genesis. */
  ghost predicate Sound(env: Env, rows: seq<Row>) {
    && Decodes(env, rows)
    && Chain(env, BlocksOf(env, rows))
    && InPlace(env, rows)
  }

  ghost predicate InPlace(env: Env, rows: seq<Row>) {
    forall i :: 0 <= i < |rows| ==> rows[i].idx == i && IsCanonical(env, rows[i])
  }

  ghost predicate IsCanonical(env: Env, row: Row) {
    && BlockOf(env, row).Some?
    && BlockOf(env, row).value.header.index <= MAX_SAFE_INDEX
    && row.headerJson == Canonical(BlockOf(env, row).value.header)
  }

  /** A row written by AppendRecord, read back: the header as encoding/json left it. */
  lemma RowReadBack(env: Env, b: Block)
    requires Faithful(env) && Verify(env, b) == None
    ensures b.header.index <= MAX_SAFE_INDEX
    ensures BlockOf(env, RowOf(b)) == Some(ReadBack(b))
    ensures IsCanonical(env, RowOf(b))
  {
    VerifiedForm(env, b);
    hide Verify, Canonical, Coerced;
    assert env.decode(Canonical(b.header)) == Some(Coerced(b.header));
    CoercedIndex(b.header);
    CoercedTwice(b.header);
    CanonicalExact(b.header, Coerced(b.header));
  }

  lemma ChainExtends(env: Env, bs: seq<Block>, b: Block)
    requires Chain(env, bs) && Verify(env, b) == None
    requires if bs == [] then b.header.index == 0 else VerifyLink(env, Last(bs), b) == None
    ensures Chain(env, bs + [b])
  {
    hide Verify, VerifyLink;
  }

  lemma SoundLast(env: Env, rows: seq<Row>)
    requires Sound(env, rows) && rows != []
    ensures Last(rows).idx == |rows| - 1
    ensures var last := BlockOf(env, Last(rows));
            last == Some(Last(BlocksOf(env, rows))) && last.value.header.index == |rows| - 1
  {
    hide Canonical, IsCanonical, BlockOf, Chain;
    var k := |rows| - 1;
    IndexIsPosition(env, BlocksOf(env, rows), k);
    assert BlockOf(env, rows[k]) == Some(BlocksOf(env, rows)[k]);
  }

  /** The row goes to the end: its index follows the last one. */
  lemma GoesLast(env: Env, rows: seq<Row>, b: Block)
    requires Sound(env, rows) && CheckLink(env, rows, b) == None && b.header.index <= MAX_SAFE_INDEX
    ensures b.header.index == |rows| && Insert(rows, RowOf(b)) == rows + [RowOf(b)]
    ensures rows != [] ==> VerifyLink(env, Last(BlocksOf(env, rows)), b) == None
  {
    hide Canonical, Sound, BlockOf, Last, Insert, Verify;
    if rows != [] {
      SoundLast(env, rows);
      LinkIndex(env, BlockOf(env, Last(rows)).value, b);
    }
  }

  lemma LinkIndex(env: Env, prev: Block, b: Block)
    requires VerifyLink(env, prev, b) == None
    ensures b.header.index == prev.header.index + 1
  {
  }

  lemma AppendedIs(env: Env, t: Tables, r: Record)
    requires AppendSpec(env, t, r).Appended?
    ensures r.block.Some? && r.block.value.header.index <= MAX_SAFE_INDEX
    ensures Verify(env, r.block.value) == None && CheckLink(env, t.blocks, r.block.value) == None
    ensures AppendSpec(env, t, r).tables == Committed(t, r, RowOf(r.block.value))
    ensures AppendSpec(env, t, r).tables.blocks == Insert(t.blocks, RowOf(r.block.value))
  {
    hide Verify, CheckLink, Insert, Canonical, Clashes, RowOf, BlobIsValid;
    VerifiedForm(env, r.block.value);
  }

  /** The checks of AppendRecord, all at once. */
  lemma AppendChecks(env: Env, t: Tables, r: Record)
    requires r.block.Some? && r.block.value.header.index <= MAX_SAFE_INDEX
    ensures AppendSpec(env, t, r).Appended?
            <==> && Verify(env, r.block.value) == None && BlobFits(t, r)
                 && CheckLink(env, t.blocks, r.block.value) == None && !Clashes(t.blocks, RowOf(r.block.value))
  {
    hide Verify, CheckLink, Canonical, Clashes, RowOf, BlobIsValid, Committed;
  }

  /** One call keeps the ledger sound and every row it had. */
  lemma AppendKeeps(env: Env, t: Tables, r: Record)
    requires Faithful(env) && Sound(env, t.blocks)
    requires AppendSpec(env, t, r).Appended?
    ensures var rows := AppendSpec(env, t, r).tables.blocks;
            Sound(env, rows) && t.blocks <= rows && |rows| == |t.blocks| + 1
  {
    AppendedIs(env, t, r);
    hide *;
    GoesLast(env, t.blocks, r.block.value);
    SoundExtends(env, t.blocks, r.block.value);
  }

  /** The block as the next reader sees it. */
  function ReadBack(b: Block): Block {
    b.(header := Coerced(b.header))
  }

  lemma ChainReadBack(env: Env, bs: seq<Block>, b: Block)
    requires Faithful(env) && Chain(env, bs) && Verify(env, b) == None
    requires b.header.index == |bs|
    requires bs != [] ==> VerifyLink(env, Last(bs), b) == None
    ensures Chain(env, bs + [ReadBack(b)])
  {
    VerifyCoerced(env, b);
    CoercedIndex(b.header);
    VerifiedIsValid(env, b);
    hide Verify, VerifyLink, Coerced, Validate, Faithful, Chain, Last;
    if bs != [] { LinkCoerced(env, Last(bs), b); }
    ChainExtends(env, bs, ReadBack(b));
  }

  lemma SoundExtends(env: Env, rows: seq<Row>, b: Block)
    requires Faithful(env) && Sound(env, rows) && Verify(env, b) == None
    requires b.header.index == |rows| && b.header.index <= MAX_SAFE_INDEX
    requires rows != [] ==> VerifyLink(env, Last(BlocksOf(env, rows)), b) == None
    ensures Sound(env, rows + [RowOf(b)])
  {
    RowReadBack(env, b);
    RowIndex(b);
    ChainReadBack(env, BlocksOf(env, rows), b);
    hide *;
    OneMore(env, rows, RowOf(b), ReadBack(b));
  }

  lemma OneMore(env: Env, rows: seq<Row>, row: Row, c: Block)
    requires Sound(env, rows) && BlockOf(env, row) == Some(c) && Chain(env, BlocksOf(env, rows) + [c])
    requires row.idx == |rows| && IsCanonical(env, row)
    ensures Sound(env, rows + [row])
  {
    hide Chain, IsCanonical, BlockOf;
    DecodesOneMore(env, rows, row, c);
  }

  lemma DecodesOneMore(env: Env, rows: seq<Row>, row: Row, c: Block)
    requires Decodes(env, rows) && BlockOf(env, row) == Some(c)
    ensures Decodes(env, rows + [row]) && BlocksOf(env, rows + [row]) == BlocksOf(env, rows) + [c]
  {
    hide BlockOf;
  }

  lemma RowIndex(b: Block)
    requires b.header.index <= MAX_SAFE_INDEX
    ensures RowOf(b).idx == b.header.index
  {
  }

  lemma VerifiedIsValid(env: Env, b: Block)
    requires Verify(env, b) == None
    ensures Validate(env, b.header) == None
  {
  }

  // ------------------------------------------------------------------- runs

  datatype Call = Call(record: Record, driverFails: bool)

  /** The tables after one call: the new ones, or the same. */
  function After(env: Env, t: Tables, c: Call): Tables {
    var out := AppendSpec(env, t, c.record);
    if out.Appended? && !c.driverFails then out.tables else t
  }

  function Run(env: Env, t: Tables, calls: seq<Call>): Tables
    decreases |calls|
  {
    if calls == [] then t else Run(env, After(env, t, calls[0]), calls[1..])
  }

  lemma AfterKeeps(env: Env, t: Tables, c: Call)
    requires Faithful(env) && Sound(env, t.blocks)
    ensures Sound(env, After(env, t, c).blocks) && t.blocks <= After(env, t, c).blocks
  {
    hide AppendSpec, Sound, Faithful;
    if AppendSpec(env, t, c.record).Appended? { AppendKeeps(env, t, c.record); }
  }

  lemma {:induction false} RunKeeps(env: Env, t: Tables, calls: seq<Call>)
    requires Faithful(env) && Sound(env, t.blocks)
    ensures Sound(env, Run(env, t, calls).blocks) && t.blocks <= Run(env, t, calls).blocks
    decreases |calls|
  {
    hide AppendSpec, After, Sound, Faithful;
    if calls != [] {
      AfterKeeps(env, t, calls[0]);
      RunKeeps(env, After(env, t, calls[0]), calls[1..]);
    }
  }

  /** From an empty store, any sequence of calls, rejected and failed ones included, leaves rows
      whose column idx is their position and the index in their header, and whose blocks
      VerifyChain accepts. */
  lemma RunsAreChains(env: Env, calls: seq<Call>)
    requires Faithful(env)
    ensures var rows := Run(env, EMPTY, calls).blocks;
            && Decodes(env, rows)
            && (forall i :: 0 <= i < |rows| ==> rows[i].idx == i && BlocksOf(env, rows)[i].header.index == i)
            && (rows != [] ==> VerifyChain(env, BlocksOf(env, rows), []) == None)
  {
    hide Run, VerifyChain, Faithful, Verify, VerifyLink, Canonical;
    EmptyIsSound(env);
    RunKeeps(env, EMPTY, calls);
    var rows := Run(env, EMPTY, calls).blocks;
    var bs := BlocksOf(env, rows);
    forall i | 0 <= i < |rows| ensures bs[i].header.index == i {
      IndexIsPosition(env, bs, i);
    }
    VerifyChainMeaning(env, bs, []);
  }

  lemma EmptyIsSound(env: Env)
    ensures Sound(env, EMPTY.blocks)
  {
  }

  // ----------------------------------------------------- what is accepted, and its effects

  /** A block that may come next. */
  ghost predicate Fits(env: Env, rows: seq<Row>, b: Block)
    requires Decodes(env, rows)
  {
    && Verify(env, b) == None
    && (if rows == [] then b.header.index == 0 else VerifyLink(env, Last(BlocksOf(env, rows)), b) == None)
  }

  predicate BlobFits(t: Tables, r: Record) {
    r.blob.Some? ==> BlobIsValid(r.blob.value) && r.blob.value.payloadHash !in t.blobs
  }

  lemma LinkIsFit(env: Env, rows: seq<Row>, b: Block)
    requires Sound(env, rows)
    ensures CheckLink(env, rows, b) == None
            <==> if rows == [] then b.header.index == 0 else VerifyLink(env, Last(BlocksOf(env, rows)), b) == None
  {
    if rows != [] { SoundLast(env, rows); }
    hide Sound, VerifyLink, BlockOf, Last;
  }

  /** Only a collision could make a block that fits clash with a row of the ledger. */
  lemma NoClash(env: Env, rows: seq<Row>, b: Block)
    requires Sound(env, rows) && Verify(env, b) == None && b.header.index == |rows| && b.header.index <= MAX_SAFE_INDEX
    requires Clashes(rows, RowOf(b))
    ensures CollisionIn(env.sha, ChainInputs(env, BlocksOf(env, rows)) + {Canonical(b.header)})
  {
    RowIndex(b);
    var i :| 0 <= i < |rows| && (rows[i].idx == RowOf(b).idx || rows[i].hash == RowOf(b).hash);
    var c := BlocksOf(env, rows)[i];
    assert BlockOf(env, rows[i]) == Some(c) && rows[i].idx == i && rows[i].hash == b.hash;
    BlockHash(env, rows[i], c);
    ChainFacts(env, BlocksOf(env, rows), i);
    IndexIsPosition(env, BlocksOf(env, rows), i);
    var inputs := ChainInputs(env, BlocksOf(env, rows)) + {Canonical(b.header)};
    hide *;
    SameHashSameHeader(env, c, b, inputs);
    CoercedIndex(c.header);
    CoercedIndex(b.header);
  }

  lemma BlockHash(env: Env, row: Row, c: Block)
    requires BlockOf(env, row) == Some(c)
    ensures c.hash == row.hash
  {
  }

  /** On a sound ledger a record is accepted exactly when it has a good block that follows the last
      one and, if it has a blob, a good and new one; only a collision makes it otherwise. */
  lemma AppendExact(env: Env, t: Tables, r: Record)
    requires Sound(env, t.blocks)
    ensures AppendSpec(env, t, r).Appended? ==> r.block.Some? && Fits(env, t.blocks, r.block.value) && BlobFits(t, r)
    ensures r.block.Some? && Fits(env, t.blocks, r.block.value) && BlobFits(t, r) ==>
              || AppendSpec(env, t, r).Appended?
              || (r.block.value.header.index <= MAX_SAFE_INDEX
                  && CollisionIn(env.sha, ChainInputs(env, BlocksOf(env, t.blocks))
                                 + {Canonical(r.block.value.header)}))
  {
    if AppendSpec(env, t, r).Appended? { AppendedIs(env, t, r); }
    if r.block.Some? {
      var b := r.block.value;
      LinkIsFit(env, t.blocks, b);
      if Verify(env, b) == None { VerifiedForm(env, b); }
      hide Sound, Verify, VerifyLink, CheckLink, Insert, Canonical, Last, CollisionIn, Clashes, ChainInputs, AppendSpec,
           RowOf, BlobFits;
      if b.header.index <= MAX_SAFE_INDEX {
        AppendChecks(env, t, r);
        if Fits(env, t.blocks, b) && Clashes(t.blocks, RowOf(b)) {
          GoesLast(env, t.blocks, b);
          NoClash(env, t.blocks, b);
        }
      }
    } else {
      NoBlockNoRow(env, t, r);
      hide AppendSpec;
    }
  }

  lemma NoBlockNoRow(env: Env, t: Tables, r: Record)
    requires r.block.None?
    ensures !AppendSpec(env, t, r).Appended?
  {
  }

  /** An accepted record adds its row and its blob, takes away what it erases, and touches no other
      blob, meta or state entry. */
  lemma AppendEffects(env: Env, t: Tables, r: Record)
    requires Sound(env, t.blocks) && AppendSpec(env, t, r).Appended?
    ensures var u := AppendSpec(env, t, r).tables;
            && r.block.Some? && r.block.value.header.index <= MAX_SAFE_INDEX
            && u.blocks == t.blocks + [RowOf(r.block.value)]
            && (r.eraseBlob != [] ==> r.eraseBlob !in u.blobs)
            && (forall k :: k != r.eraseBlob || k == [] ==>
                  (k in u.blobs <==> k in t.blobs || (r.blob.Some? && k == r.blob.value.payloadHash)))
            && (r.blob.Some? ==> r.blob.value.payloadHash !in t.blobs)
            && (forall k :: k in u.blobs ==>
                  u.blobs[k] == if r.blob.Some? && k == r.blob.value.payloadHash then r.blob.value else t.blobs[k])
            && (forall k :: k in u.meta <==> k in r.meta || (k in t.meta && k !in r.deleteMeta))
            && (forall k :: k in u.meta ==> u.meta[k] == if k in r.meta then r.meta[k] else t.meta[k])
            && u.state == t.state + r.state
  {
    AppendedIs(env, t, r);
    GoesLast(env, t.blocks, r.block.value);
    CommittedEffects(t, r, RowOf(r.block.value));
    if r.blob.Some? { NewBlob(env, t, r); }
    hide *;
  }

  lemma NewBlob(env: Env, t: Tables, r: Record)
    requires AppendSpec(env, t, r).Appended? && r.blob.Some?
    ensures r.blob.value.payloadHash !in t.blobs
  {
    hide Verify, CheckLink, Canonical, Clashes, RowOf, BlobIsValid, Committed;
  }

  lemma CommittedEffects(t: Tables, r: Record, row: Row)
    ensures var u := Committed(t, r, row);
            && (r.eraseBlob != [] ==> r.eraseBlob !in u.blobs)
            && (forall k :: k != r.eraseBlob || k == [] ==>
                  (k in u.blobs <==> k in t.blobs || (r.blob.Some? && k == r.blob.value.payloadHash)))
            && (forall k :: k in u.blobs ==>
                  u.blobs[k] == if r.blob.Some? && k == r.blob.value.payloadHash then r.blob.value else t.blobs[k])
            && (forall k :: k in u.meta <==> k in r.meta || (k in t.meta && k !in r.deleteMeta))
            && (forall k :: k in u.meta ==> u.meta[k] == if k in r.meta then r.meta[k] else t.meta[k])
            && u.state == t.state + r.state
  {
    hide Insert;
    forall k ensures k in KeysOf(r.deleteMeta) <==> k in r.deleteMeta {}
  }
}
