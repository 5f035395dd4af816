/** Blocks and chains of internal/ledger/block.go. Text fields are byte strings; the clock's
    text form, Ed25519 and encoding/json's reader are parameters of the environment. */
module Blocks {
  import opened Bytes
  import opened Hashing
  import opened Text
  import Decimal
  import Hex
  import J = Jcs
  import O = JcsOrder
  import S = JcsSearch
  import Utf8

  const MAX_SAFE_INDEX: nat := 0x1F_FFFF_FFFF_FFFF

  /** 64 times the digit zero. */
  const GENESIS := Repeat(48, 64)

  function Repeat(b: byte, n: nat): (r: Bytes)
    ensures |r| == n && forall i :: 0 <= i < n ==> r[i] == b
  {
    if n == 0 then [] else [b] + Repeat(b, n - 1)
  }

  datatype Header = Header(
    index: uint64,
    prevHash: Bytes,
    timestamp: Bytes,
    tenant: Bytes,
    typ: Bytes,
    payloadHash: Bytes,
    payloadCID: Bytes,
    signer: Bytes)

  datatype Block = Block(header: Header, hash: Bytes, signature: Bytes)

  // ------------------------------------------------------------ canonical bytes

  const INDEX := Ascii("index")
  const PAYLOAD_CID := Ascii("payload_cid")
  const PAYLOAD_HASH := Ascii("payload_hash")
  const PREV_HASH := Ascii("prev_hash")
  const SIGNER := Ascii("signer_pubkey")
  const TENANT := Ascii("tenant")
  const TIMESTAMP := Ascii("timestamp")
  const TYPE := Ascii("type")

  function Field(name: Bytes, s: Bytes): J.Member {
    J.Member(name, J.String(Utf8.Coerce(s)))
  }

  /** The members of a header, in the order encode sorts them. */
  function Members(h: Header): seq<J.Member> {
    [J.Member(INDEX, J.Number(h.index)),
     Field(PAYLOAD_CID, h.payloadCID),
     Field(PAYLOAD_HASH, h.payloadHash),
     Field(PREV_HASH, h.prevHash),
     Field(SIGNER, h.signer),
     Field(TENANT, h.tenant),
     Field(TIMESTAMP, h.timestamp),
     Field(TYPE, h.typ)]
  }

  /** Header.Canonical. The index is printed exactly because no caller gets here with an index
      above 2^53-1. */
  function Canonical(h: Header): Bytes
    requires h.index <= MAX_SAFE_INDEX
  {
    J.EncodeObject(Members(h))
  }

  /** The header encoding/json leaves in the canonical bytes: invalid UTF-8 is replaced. */
  function Coerced(h: Header): Header {
    Header(h.index, Utf8.Coerce(h.prevHash), Utf8.Coerce(h.timestamp), Utf8.Coerce(h.tenant),
           Utf8.Coerce(h.typ), Utf8.Coerce(h.payloadHash), Utf8.Coerce(h.payloadCID), Utf8.Coerce(h.signer))
  }

  predicate WellEncoded(h: Header) {
    Utf8.Valid(h.prevHash) && Utf8.Valid(h.timestamp) && Utf8.Valid(h.tenant) && Utf8.Valid(h.typ)
    && Utf8.Valid(h.payloadHash) && Utf8.Valid(h.payloadCID) && Utf8.Valid(h.signer)
  }

  lemma WellEncodedIsKept(h: Header)
    requires WellEncoded(h)
    ensures Coerced(h) == h
  {
    hide Utf8.Valid, Utf8.Coerce;
    Utf8.ValidIsKept(h.prevHash);
    Utf8.ValidIsKept(h.timestamp);
    Utf8.ValidIsKept(h.tenant);
    Utf8.ValidIsKept(h.typ);
    Utf8.ValidIsKept(h.payloadHash);
    Utf8.ValidIsKept(h.payloadCID);
    Utf8.ValidIsKept(h.signer);
  }

  lemma MembersInjective(g: Header, h: Header)
    ensures Members(g) == Members(h) <==> Coerced(g) == Coerced(h)
  {
    hide Utf8.Coerce, Ascii;
    var a, b := Members(g), Members(h);
    if a == b {
      assert a[0] == b[0] && a[1] == b[1] && a[2] == b[2] && a[3] == b[3];
      assert a[4] == b[4] && a[5] == b[5] && a[6] == b[6] && a[7] == b[7];
    }
  }

  /** Two headers have the same canonical bytes exactly when they are the same after the
      replacement of invalid UTF-8: whatever quotes, backslashes or controls the fields hold. */
  lemma CanonicalExact(g: Header, h: Header)
    requires g.index <= MAX_SAFE_INDEX && h.index <= MAX_SAFE_INDEX
    ensures Canonical(g) == Canonical(h) <==> Coerced(g) == Coerced(h)
  {
    hide J.EncodeObject, Utf8.Coerce;
    MembersInjective(g, h);
    if Canonical(g) == Canonical(h) { J.ObjectUnique(Members(g), Members(h)); }
  }

  lemma CanonicalInjective(g: Header, h: Header)
    requires g.index <= MAX_SAFE_INDEX && h.index <= MAX_SAFE_INDEX
    requires WellEncoded(g) && WellEncoded(h)
    requires Canonical(g) == Canonical(h)
    ensures g == h
  {
    hide Canonical, Coerced, WellEncoded;
    CanonicalExact(g, h);
    WellEncodedIsKept(g);
    WellEncodedIsKept(h);
  }

  // ------------------------------------------------------------------ the signer

  /** signerOf (internal/store/integrity.go): signer_pubkey by search, without decoding. */
  function SignerOf(headerJson: Bytes): Option<Bytes> {
    S.HexMember(SIGNER, headerJson)
  }

  lemma NamesAreIdentifiers()
    ensures S.Identifier(INDEX) && S.Identifier(PAYLOAD_CID) && S.Identifier(PAYLOAD_HASH) && S.Identifier(PREV_HASH)
    ensures S.Identifier(SIGNER) && S.Identifier(TENANT) && S.Identifier(TIMESTAMP) && S.Identifier(TYPE)
  {
    FirstNames();
    LastNames();
    hide *;
  }

  lemma FirstNames()
    ensures S.Identifier(INDEX) && S.Identifier(PAYLOAD_CID) && S.Identifier(PAYLOAD_HASH) && S.Identifier(PREV_HASH)
  {
  }

  lemma LastNames()
    ensures S.Identifier(SIGNER) && S.Identifier(TENANT) && S.Identifier(TIMESTAMP) && S.Identifier(TYPE)
  {
  }

  lemma NameLengths()
    ensures |INDEX| == 5 && |PAYLOAD_CID| == 11 && |PAYLOAD_HASH| == 12 && |PREV_HASH| == 9
    ensures |SIGNER| == 13 && |TENANT| == 6 && |TIMESTAMP| == 9 && |TYPE| == 4
  {
  }

  lemma SignerIsMemberFour(h: Header)
    ensures S.Identifiers(Members(h)) && S.OnlyAt(Members(h), SIGNER, 4) && S.Identifier(SIGNER)
    ensures Members(h)[4].value == J.String(Utf8.Coerce(h.signer))
  {
    NamesAreIdentifiers();
    NameLengths();
    hide Utf8.Coerce, Ascii, S.Identifier;
  }

  /** On the canonical bytes of any header the search reads exactly signer_pubkey, and reads it
      exactly when it is 64 lower-case hexadecimal digits. */
  lemma SignerOfExact(h: Header, x: Bytes)
    requires h.index <= MAX_SAFE_INDEX
    ensures SignerOf(Canonical(h)) == Some(x) <==> h.signer == x && Hex.Lower(x, 64)
  {
    SignerIsMemberFour(h);
    hide S.Identifier, S.Identifiers, S.OnlyAt, S.HexMember, Members, Utf8.Coerce, Utf8.Valid, Ascii, J.EncodeObject;
    S.HexMemberExact(SIGNER, Members(h), 4, x);
    if Hex.Lower(x, 64) {
      if h.signer == x {
        Utf8.AsciiIsValid(x);
        Utf8.ValidIsKept(x);
      } else if Utf8.Coerce(h.signer) == x {
        Utf8.AsciiIsKept(h.signer);
      }
    }
  }

  lemma LessNames()
    ensures O.Less(INDEX, PAYLOAD_CID) && O.Less(PAYLOAD_CID, PAYLOAD_HASH) && O.Less(PAYLOAD_HASH, PREV_HASH)
    ensures O.Less(PREV_HASH, SIGNER) && O.Less(SIGNER, TENANT) && O.Less(TENANT, TIMESTAMP) && O.Less(TIMESTAMP, TYPE)
  {
    FirstLess();
    LastLess();
    hide *;
  }

  lemma FirstLess()
    ensures O.Less(INDEX, PAYLOAD_CID) && O.Less(PAYLOAD_CID, PAYLOAD_HASH) && O.Less(PAYLOAD_HASH, PREV_HASH)
  {
    hide O.Less;
    O.AsciiLess(INDEX, PAYLOAD_CID, 0);
    O.AsciiLess(PAYLOAD_CID, PAYLOAD_HASH, 8);
    O.AsciiLess(PAYLOAD_HASH, PREV_HASH, 1);
  }

  lemma LastLess()
    ensures O.Less(PREV_HASH, SIGNER) && O.Less(SIGNER, TENANT) && O.Less(TENANT, TIMESTAMP) && O.Less(TIMESTAMP, TYPE)
  {
    hide O.Less;
    O.AsciiLess(PREV_HASH, SIGNER, 0);
    O.AsciiLess(SIGNER, TENANT, 0);
    O.AsciiLess(TENANT, TIMESTAMP, 1);
    O.AsciiLess(TIMESTAMP, TYPE, 1);
  }

  /** The order written is lessUTF16's. */
  lemma MembersAreSorted(h: Header, i: nat)
    requires i < 7
    ensures O.Less(Members(h)[i].name, Members(h)[i + 1].name)
  {
    LessNames();
    hide O.Less, Utf8.Coerce, Ascii;
  }
  // ------------------------------------------------------------- form of a header

  /** What the module calls but does not define: SHA-256, Ed25519, time.Parse on a UTC text
      and json.Unmarshal into a Header. */
  datatype Env = Env(
    sha: HashFn,
    verifies: (Bytes, Bytes, Bytes) -> bool,
    sign: (Bytes, Bytes) -> Bytes,
    publicOf: Bytes -> Bytes,
    instant: Bytes -> Option<int>,
    decode: Bytes -> Option<Header>)

  /** What is taken from Go's library: an owner's signatures verify, RFC 3339 texts are ASCII,
      and reading canonical bytes gives back what was written. */
  ghost predicate Faithful(env: Env) {
    && (forall k, m ::
          |env.publicOf(k)| == 32 && |env.sign(k, m)| == 64 && env.verifies(env.publicOf(k), m, env.sign(k, m)))
    && (forall s :: env.instant(s).Some? ==> IsAscii(s))
    && (forall h: Header :: h.index <= MAX_SAFE_INDEX ==> env.decode(Canonical(h)) == Some(Coerced(h)))
  }

  predicate IsAscii(s: Bytes) {
    forall i :: 0 <= i < |s| ==> s[i] < 0x80
  }

  datatype Problem = InvalidHeader | InvalidKey | SignerMismatch | HashMismatch | BadSignature
                   | IndexSequence | PrevHashMismatch | TimestampOrder | GenesisPrev | EmptyChain
                   | UnexpectedSigner | LeafProblem

  /** unicode.IsSpace of the first code point. */
  predicate SpaceFirst(s: Bytes)
    requires s != []
  {
    var w := Utf8.Width(s);
    || (w == 1 && (9 <= s[0] <= 13 || s[0] == 32))
    || (w == 2 && s[0] == 0xC2 && (s[1] == 0x85 || s[1] == 0xA0))
    || (w == 3 && s[..3] == [0xE1, 0x9A, 0x80])
    || (w == 3 && s[0] == 0xE2 && s[1] == 0x80 && (s[2] <= 0x8A || s[2] == 0xA8 || s[2] == 0xA9 || s[2] == 0xAF))
    || (w == 3 && (s[..3] == [0xE2, 0x81, 0x9F] || s[..3] == [0xE3, 0x80, 0x80]))
  }

  /** strings.TrimSpace(s) == "". */
  predicate Blank(s: Bytes) {
    s == [] || (SpaceFirst(s) && Blank(s[Utf8.Width(s)..]))
  }

  /** unicode.IsControl of some code point: C0, U+007F or C1. The byte 0xC2 only starts one. */
  predicate ControlAt(s: Bytes, i: nat)
    requires i < |s|
  {
    s[i] < 32 || s[i] == 127 || (s[i] == 0xC2 && i + 1 < |s| && 0x80 <= s[i + 1] <= 0x9F)
  }

  /** esUnaLinea. */
  predicate NoControls(s: Bytes) {
    forall i :: 0 <= i < |s| ==> !ControlAt(s, i)
  }

  /** Header.Time. */
  function Time(env: Env, h: Header): Option<int> {
    if h.timestamp == [] || Last(h.timestamp) != 90 then None else env.instant(h.timestamp)
  }

  function Validate(env: Env, h: Header): Option<Problem> {
    if h.index > MAX_SAFE_INDEX then Some(InvalidHeader)
    else if !Hex.IsHex(h.prevHash, 64) then Some(InvalidHeader)
    else if !Hex.IsHex(h.payloadHash, 64) then Some(InvalidHeader)
    else if !Hex.IsHex(h.signer, 64) then Some(InvalidHeader)
    else if Blank(h.tenant) then Some(InvalidHeader)
    else if !NoControls(h.tenant) then Some(InvalidHeader)
    else if Blank(h.typ) then Some(InvalidHeader)
    else if h.index == 0 && h.prevHash != GENESIS then Some(GenesisPrev)
    else if h.index > 0 && h.prevHash == GENESIS then Some(InvalidHeader)
    else if Time(env, h).None? then Some(InvalidHeader)
    else None
  }

  // ----------------------------------------------------------------- one block

  function Digest(env: Env, h: Header): Hashing.Digest
    requires h.index <= MAX_SAFE_INDEX
  {
    env.sha(Canonical(h))
  }

  /** Block.Verify. */
  function Verify(env: Env, b: Block): Option<Problem> {
    var p := Validate(env, b.header);
    if p.Some? then p
    else
      var digest := Digest(env, b.header);
      if Hex.Encode(digest) != b.hash then Some(HashMismatch)
      else
        var pub, sig := Hex.Decode(b.header.signer), Hex.Decode(b.signature);
        if pub.None? || |pub.value| != 32 then Some(InvalidHeader)
        else if sig.None? || |sig.value| != 64 then Some(BadSignature)
        else if !env.verifies(pub.value, digest, sig.value) then Some(BadSignature)
        else None
  }

  datatype Sealed = Issued(block: Block) | Refused(problem: Problem)

  const DOT: byte := 46

  /** fraccion. */
  predicate HasFraction(timestamp: Bytes) {
    exists i :: 0 <= i < |timestamp| && timestamp[i] == DOT
  }

  /** Seal, with the private key named by its seed. */
  function Seal(env: Env, h: Header, priv: Bytes): Sealed {
    if |priv| != 64 then Refused(InvalidKey)
    else
      var p := Validate(env, h);
      if p.Some? then Refused(p.value)
      else if HasFraction(h.timestamp) then Refused(InvalidHeader)
      else if Hex.Encode(env.publicOf(priv)) != h.signer then Refused(SignerMismatch)
      else
        var digest := Digest(env, h);
        Issued(Block(h, Hex.Encode(digest), Hex.Encode(env.sign(priv, digest))))
  }

  lemma ValidIsSafe(env: Env, h: Header)
    ensures Validate(env, h) == None ==> h.index <= MAX_SAFE_INDEX
  {
  }

  lemma OwnSignature(env: Env, priv: Bytes, m: Bytes)
    requires Faithful(env)
    ensures |env.publicOf(priv)| == 32 && |env.sign(priv, m)| == 64
    ensures env.verifies(env.publicOf(priv), m, env.sign(priv, m))
  {
  }

  /** What Seal issues, Verify accepts. */
  lemma SealVerifies(env: Env, h: Header, priv: Bytes)
    requires Faithful(env)
    requires Seal(env, h, priv).Issued?
    ensures Verify(env, Seal(env, h, priv).block) == None && Seal(env, h, priv).block.header == h
  {
    ValidIsSafe(env, h);
    hide Canonical, Hex.Encode, Hex.Decode, Validate, HasFraction;
    var digest := Digest(env, h);
    OwnSignature(env, priv, digest);
    hide Faithful;
    Hex.DecodeOfEncode(env.publicOf(priv));
    Hex.DecodeOfEncode(env.sign(priv, digest));
  }

  /** NewHeader: `now` is the clock's text, already truncated to the second. */
  function NewHeader(env: Env, prev: Option<Block>, tenant: Bytes, typ: Bytes, payload: Bytes, payloadCID: Bytes,
                     signer: Bytes, now: Bytes): Option<Header>
  {
    if |signer| != 32 then None
    else if prev.Some? && prev.value.header.index >= MAX_SAFE_INDEX then None
    else
      var h := Header(if prev.Some? then prev.value.header.index + 1 else 0,
                      if prev.Some? then prev.value.hash else GENESIS,
                      now, tenant, typ, Hex.Encode(env.sha(payload)), payloadCID, Hex.Encode(signer));
      if Validate(env, h).Some? then None else Some(h)
  }

  /** VerifyLink. */
  function VerifyLink(env: Env, prev: Block, cur: Block): Option<Problem> {
    if cur.header.index != prev.header.index + 1 then Some(IndexSequence)
    else if cur.header.prevHash != prev.hash then Some(PrevHashMismatch)
    else
      var pt, ct := Time(env, prev.header), Time(env, cur.header);
      if pt.None? || ct.None? then Some(InvalidHeader)
      else if ct.value < pt.value then Some(TimestampOrder)
      else None
  }

  /** The header NewHeader makes follows the block it was made from, unless the clock went back. */
  lemma NewHeaderLinks(env: Env, prev: Block, tenant: Bytes, typ: Bytes, payload: Bytes, cid: Bytes,
                       signer: Bytes, now: Bytes, cur: Block)
    requires Verify(env, prev) == None
    requires NewHeader(env, Some(prev), tenant, typ, payload, cid, signer, now) == Some(cur.header)
    ensures VerifyLink(env, prev, cur) == None <==> Time(env, prev.header).value <= Time(env, cur.header).value
    ensures VerifyLink(env, prev, cur) in {None, Some(TimestampOrder)}
  {
    hide Canonical, Hex.Decode, Hex.Encode, Blank, NoControls;
  }

  // ------------------------------------------------------------------- the leaf

  /** Block.LeafData: the raw hash and the raw signature. */
  function LeafData(b: Block): Option<Bytes> {
    var hash, sig := Hex.Decode(b.hash), Hex.Decode(b.signature);
    if hash.None? || sig.None? || |hash.value| != 32 || |sig.value| != 64 then None
    else Some(hash.value + sig.value)
  }

  /** A leaf says which hash and which signature it holds: both parts have a fixed length. */
  lemma LeafDataInjective(a: Block, b: Block)
    requires LeafData(a).Some? && LeafData(a) == LeafData(b)
    ensures Hex.Decode(a.hash) == Hex.Decode(b.hash) && Hex.Decode(a.signature) == Hex.Decode(b.signature)
  {
    hide Hex.Decode;
    var l := LeafData(a).value;
    assert l[..32] == Hex.Decode(a.hash).value && l[..32] == Hex.Decode(b.hash).value;
    assert l[32..] == Hex.Decode(a.signature).value && l[32..] == Hex.Decode(b.signature).value;
  }

  // ------------------------------------------------------------------- the chain

  /** The first block at or after `i` that does not belong, as VerifyChain's loop finds it. */
  function ChainProblem(env: Env, blocks: seq<Block>, expected: Bytes, i: nat): Option<(nat, Problem)>
    requires i <= |blocks|
    decreases |blocks| - i
  {
    if i == |blocks| then None
    else
      var v := Verify(env, blocks[i]);
      if v.Some? then Some((i, v.value))
      else if expected != [] && blocks[i].header.signer != expected then Some((i, UnexpectedSigner))
      else if i > 0 && VerifyLink(env, blocks[i - 1], blocks[i]).Some? then
        Some((i, VerifyLink(env, blocks[i - 1], blocks[i]).value))
      else ChainProblem(env, blocks, expected, i + 1)
  }

  /** VerifyChain; `expected` is the signer in hexadecimal, or empty. */
  function VerifyChain(env: Env, blocks: seq<Block>, expected: Bytes): Option<(nat, Problem)> {
    if blocks == [] then Some((0, EmptyChain))
    else if blocks[0].header.index != 0 then Some((0, IndexSequence))
    else ChainProblem(env, blocks, expected, 0)
  }

  /** A chain from genesis, every block good and linked to the one before it. */
  ghost predicate Chain(env: Env, blocks: seq<Block>) {
    && (forall i :: 0 <= i < |blocks| ==> Verify(env, blocks[i]) == None)
    && (|blocks| > 0 ==> blocks[0].header.index == 0)
    && (forall i, j :: 0 <= i < |blocks| && j == i + 1 < |blocks| ==> VerifyLink(env, blocks[i], blocks[j]) == None)
  }

  ghost predicate SignedBy(blocks: seq<Block>, expected: Bytes) {
    expected != [] ==> forall i :: 0 <= i < |blocks| ==> blocks[i].header.signer == expected
  }

  ghost predicate GoodFrom(env: Env, blocks: seq<Block>, expected: Bytes, i: nat) {
    && (forall k :: i <= k < |blocks| ==> Verify(env, blocks[k]) == None)
    && (forall k :: i <= k < |blocks| ==> expected == [] || blocks[k].header.signer == expected)
    && (forall j, k :: 0 <= j && i <= k < |blocks| && k == j + 1 ==> VerifyLink(env, blocks[j], blocks[k]) == None)
  }

  lemma {:induction false} ChainProblemMeaning(env: Env, blocks: seq<Block>, expected: Bytes, i: nat)
    requires i <= |blocks|
    ensures ChainProblem(env, blocks, expected, i) == None <==> GoodFrom(env, blocks, expected, i)
    decreases |blocks| - i
  {
    hide Verify, VerifyLink;
    if i < |blocks| { ChainProblemMeaning(env, blocks, expected, i + 1); }
  }

  lemma VerifyChainMeaning(env: Env, blocks: seq<Block>, expected: Bytes)
    ensures VerifyChain(env, blocks, expected) == None
            <==> blocks != [] && Chain(env, blocks) && SignedBy(blocks, expected)
  {
    hide Verify, VerifyLink, ChainProblem;
    ChainProblemMeaning(env, blocks, expected, 0);
  }

  lemma {:induction false} IndexIsPosition(env: Env, blocks: seq<Block>, i: nat)
    requires Chain(env, blocks) && i < |blocks|
    ensures blocks[i].header.index == i
  {
    hide Verify;
    if i > 0 {
      IndexIsPosition(env, blocks, i - 1);
      assert VerifyLink(env, blocks[i - 1], blocks[i]) == None;
    }
  }

  lemma VerifiedForm(env: Env, b: Block)
    requires Verify(env, b) == None
    ensures b.header.index <= MAX_SAFE_INDEX && Hex.Encode(Digest(env, b.header)) == b.hash
    ensures IsAscii(b.header.prevHash) && Utf8.Coerce(b.header.prevHash) == b.header.prevHash
  {
    hide Canonical, Hex.Decode, Hex.Encode, Blank, NoControls, Utf8.Coerce, Utf8.Valid;
    Utf8.AsciiIsValid(b.header.prevHash);
    Utf8.ValidIsKept(b.header.prevHash);
  }


  /** The canonical bytes that were hashed along a chain. */
  function ChainInputs(env: Env, blocks: seq<Block>): set<Bytes> {
    set i | 0 <= i < |blocks| && blocks[i].header.index <= MAX_SAFE_INDEX :: Canonical(blocks[i].header)
  }

  ghost predicate SameHeaders(a: seq<Block>, b: seq<Block>, n: nat)
    requires n <= |a| && n <= |b|
  {
    forall i :: 0 <= i < n ==> Coerced(a[i].header) == Coerced(b[i].header) && a[i].hash == b[i].hash
  }

  /** Equal hashes come from equal headers. */
  lemma SameHashSameHeader(env: Env, a: Block, b: Block, inputs: set<Bytes>)
    requires Verify(env, a) == None && Verify(env, b) == None && a.hash == b.hash
    requires a.header.index <= MAX_SAFE_INDEX && b.header.index <= MAX_SAFE_INDEX
    requires Canonical(a.header) in inputs && Canonical(b.header) in inputs
    ensures CollisionIn(env.sha, inputs)
            || (Coerced(a.header) == Coerced(b.header) && a.header.prevHash == b.header.prevHash)
  {
    VerifiedForm(env, a);
    VerifiedForm(env, b);
    hide Canonical, Verify, Hex.Encode, Utf8.Coerce;
    Hex.EncodeInjective(Digest(env, a.header), Digest(env, b.header));
    if Canonical(a.header) == Canonical(b.header) {
      CanonicalExact(a.header, b.header);
    }
  }

  lemma ChainFacts(env: Env, a: seq<Block>, n: nat)
    requires Chain(env, a) && n < |a|
    ensures Verify(env, a[n]) == None && a[n].header.index <= MAX_SAFE_INDEX
    ensures Canonical(a[n].header) in ChainInputs(env, a)
    ensures n > 0 ==> a[n].header.prevHash == a[n - 1].hash
  {
    VerifiedForm(env, a[n]);
    hide Canonical, Verify;
    if n > 0 { assert VerifyLink(env, a[n - 1], a[n]) == None; }
  }

  lemma {:induction false} SameBelow(env: Env, a: seq<Block>, b: seq<Block>, n: nat)
    requires Chain(env, a) && Chain(env, b) && n < |a| && n < |b|
    requires a[n].hash == b[n].hash
    ensures SameHeaders(a, b, n + 1) || CollisionIn(env.sha, ChainInputs(env, a) + ChainInputs(env, b))
  {
    hide Chain, ChainInputs, Canonical, Verify, CollisionIn, Coerced;
    ChainFacts(env, a, n);
    ChainFacts(env, b, n);
    SameHashSameHeader(env, a[n], b[n], ChainInputs(env, a) + ChainInputs(env, b));
    if n > 0 && a[n].header.prevHash == b[n].header.prevHash { SameBelow(env, a, b, n - 1); }
  }

  /** The last hash determines the chain: two chains that VerifyChain accepts and that end in the
      same hash have the same headers throughout, or the hash collided on two of them. */
  lemma SameLastSameChain(env: Env, a: seq<Block>, b: seq<Block>, e: Bytes, f: Bytes)
    requires VerifyChain(env, a, e) == None && VerifyChain(env, b, f) == None
    requires Last(a).hash == Last(b).hash
    ensures CollisionIn(env.sha, ChainInputs(env, a) + ChainInputs(env, b))
            || (|a| == |b| && SameHeaders(a, b, |a|))
  {
    VerifyChainMeaning(env, a, e);
    VerifyChainMeaning(env, b, f);
    hide *;
    ChainFacts(env, a, |a| - 1);
    ChainFacts(env, b, |b| - 1);
    IndexIsPosition(env, a, |a| - 1);
    IndexIsPosition(env, b, |b| - 1);
    LastIsLast(a);
    LastIsLast(b);
    SameHashSameHeader(env, Last(a), Last(b), ChainInputs(env, a) + ChainInputs(env, b));
    CoercedIndex(Last(a).header);
    CoercedIndex(Last(b).header);
    if |a| == |b| { SameBelow(env, a, b, |a| - 1); }
  }

  lemma CoercedIndex(h: Header)
    ensures Coerced(h).index == h.index
  {
  }

  lemma LastIsLast<T>(s: seq<T>)
    requires s != []
    ensures Last(s) == s[|s| - 1]
  {
  }

  /** With well-encoded fields, the very same headers. */
  lemma SameHeadersExactly(a: seq<Block>, b: seq<Block>, n: nat, i: nat)
    requires i < n <= |a| && n <= |b| && SameHeaders(a, b, n)
    requires WellEncoded(a[i].header) && WellEncoded(b[i].header)
    ensures a[i].header == b[i].header
  {
    hide WellEncoded, Coerced;
    WellEncodedIsKept(a[i].header);
    WellEncodedIsKept(b[i].header);
  }
  // ------------------------------------------------- a header once read back

  /** The finding behind Coerced: two valid headers that differ in a tenant that is not UTF-8
      have the same canonical bytes, so the same hash. */
  lemma InvalidTextIsLost(env: Env, h: Header)
    requires Validate(env, h) == None
    ensures var g, k := h.(tenant := [0xFF]), h.(tenant := [0xFE]);
            && g != k && Validate(env, g) == None && Validate(env, k) == None
            && Canonical(g) == Canonical(k)
  {
    var g, k := h.(tenant := [0xFF]), h.(tenant := [0xFE]);
    hide *;
    BadBytesReplaced();
    OneByteTenant(0xFF);
    OneByteTenant(0xFE);
    TenantIsFree(env, h, [0xFF]);
    TenantIsFree(env, h, [0xFE]);
    SameButTenant(h, [0xFF], [0xFE]);
    CanonicalExact(g, k);
  }

  lemma OneByteTenant(b: byte)
    requires b > 0xF0
    ensures !Blank([b]) && NoControls([b])
  {
  }

  /** Validate asks of a tenant only that it is not blank and has no controls. */
  lemma TenantIsFree(env: Env, h: Header, t: Bytes)
    requires Validate(env, h) == None && !Blank(t) && NoControls(t)
    ensures Validate(env, h.(tenant := t)) == None && h.index <= MAX_SAFE_INDEX
  {
    hide Blank, NoControls, Hex.IsHex;
  }

  lemma SameButTenant(h: Header, t: Bytes, u: Bytes)
    requires Utf8.Coerce(t) == Utf8.Coerce(u)
    ensures Coerced(h.(tenant := t)) == Coerced(h.(tenant := u))
  {
    hide Utf8.Coerce;
  }

  lemma BadBytesReplaced()
    ensures Utf8.Coerce([0xFF]) == Utf8.REPLACEMENT == Utf8.Coerce([0xFE])
  {
    assert [0xFF as byte][1..] == [] && [0xFE as byte][1..] == [];
    assert Utf8.Coerce([]) == [];
    assert Utf8.Coerce([0xFF]) == Utf8.REPLACEMENT + Utf8.Coerce([]) == Utf8.Coerce([0xFE]);
  }

  lemma CoercedTwice(h: Header)
    ensures WellEncoded(Coerced(h)) && Coerced(Coerced(h)) == Coerced(h)
  {
    hide Utf8.Valid, Utf8.Coerce;
    Utf8.CoercedIsValid(h.prevHash);
    Utf8.CoercedIsValid(h.timestamp);
    Utf8.CoercedIsValid(h.tenant);
    Utf8.CoercedIsValid(h.typ);
    Utf8.CoercedIsValid(h.payloadHash);
    Utf8.CoercedIsValid(h.payloadCID);
    Utf8.CoercedIsValid(h.signer);
    WellEncodedIsKept(Coerced(h));
  }

  lemma AsciiKept(s: Bytes)
    requires IsAscii(s)
    ensures Utf8.Coerce(s) == s
  {
    hide Utf8.Valid, Utf8.Coerce;
    Utf8.AsciiIsValid(s);
    Utf8.ValidIsKept(s);
  }

  lemma HexKept(s: Bytes, n: nat)
    requires Hex.IsHex(s, n)
    ensures Utf8.Coerce(s) == s
  {
    hide Utf8.Coerce;
    AsciiKept(s);
  }

  lemma {:induction false} BlankBefore(s: Bytes)
    requires Blank(Utf8.Coerce(s))
    ensures Blank(s)
  {
    if s != [] {
      var w := Utf8.Width(s);
      var c := Utf8.Coerce(s);
      if w > 0 {
        var rest := Utf8.Coerce(s[w..]);
        CoerceStep(s);
        assert c == s[..w] + rest && c[w..] == rest;
        SameFirst(s, c, w);
        BlankBefore(s[w..]);
      }
    }
  }

  lemma CoerceStep(s: Bytes)
    requires s != [] && Utf8.Width(s) > 0
    ensures var w := Utf8.Width(s);
            Utf8.Coerce(s) == s[..w] + Utf8.Coerce(s[w..]) && Utf8.Width(Utf8.Coerce(s)) == w
  {
    var w := Utf8.Width(s);
    Utf8.PrefixWidth(s, w);
    Utf8.WidthIsLocal(s[..w], Utf8.Coerce(s[w..]));
  }

  lemma SameFirst(s: Bytes, c: Bytes, w: nat)
    requires 0 < w == Utf8.Width(s) == Utf8.Width(c) && s[..w] == c[..w]
    ensures SpaceFirst(s) <==> SpaceFirst(c)
  {
    assert forall i :: 0 <= i < w ==> s[i] == s[..w][i] && c[i] == c[..w][i];
    if w >= 3 { assert s[..3] == s[..w][..3] && c[..3] == c[..w][..3]; }
  }

  lemma {:induction false} NoControlsAfter(s: Bytes)
    requires NoControls(s)
    ensures NoControls(Utf8.Coerce(s))
  {
    if s != [] {
      var w := Utf8.Width(s);
      var d := if w > 0 then w else 1;
      assert forall i :: 0 <= i < |s[d..]| ==> (ControlAt(s[d..], i) <==> ControlAt(s, d + i));
      NoControlsAfter(s[d..]);
      PieceHasNone(s);
      NoControlsConcat(if w > 0 then s[..w] else Utf8.REPLACEMENT, Utf8.Coerce(s[d..]));
    }
  }

  lemma PieceHasNone(s: Bytes)
    requires s != [] && NoControls(s)
    ensures var p := if Utf8.Width(s) > 0 then s[..Utf8.Width(s)] else Utf8.REPLACEMENT;
            p != [] && NoControls(p) && Last(p) != 0xC2
  {
    var w := Utf8.Width(s);
    if w > 0 {
      var p := s[..w];
      assert forall i :: 0 <= i < w ==> p[i] == s[i] && !ControlAt(s, i);
    }
  }

  lemma NoControlsConcat(p: Bytes, r: Bytes)
    requires p != [] && NoControls(p) && Last(p) != 0xC2 && NoControls(r)
    ensures NoControls(p + r)
  {
    forall i | 0 <= i < |p + r| ensures !ControlAt(p + r, i) {
      if i < |p| { assert !ControlAt(p, i); } else { assert !ControlAt(r, i - |p|); }
    }
  }

  lemma ValidateCoerced(env: Env, h: Header)
    requires Faithful(env) && Validate(env, h) == None
    ensures Validate(env, Coerced(h)) == None && Time(env, Coerced(h)) == Time(env, h)
    ensures Coerced(h).prevHash == h.prevHash && Coerced(h).signer == h.signer && Coerced(h).timestamp == h.timestamp
  {
    HexKept(h.prevHash, 64);
    HexKept(h.payloadHash, 64);
    HexKept(h.signer, 64);
    hide Blank, NoControls, Utf8.Coerce, Hex.IsHex, Canonical;
    AsciiKept(h.timestamp);
    hide Faithful;
    if Blank(Utf8.Coerce(h.tenant)) { BlankBefore(h.tenant); }
    if Blank(Utf8.Coerce(h.typ)) { BlankBefore(h.typ); }
    NoControlsAfter(h.tenant);
  }

  /** A verified block still verifies when its header comes back from its canonical bytes. */
  lemma VerifyCoerced(env: Env, b: Block)
    requires Faithful(env) && Verify(env, b) == None
    ensures Verify(env, b.(header := Coerced(b.header))) == None
  {
    ValidateCoerced(env, b.header);
    ValidIsSafe(env, b.header);
    CoercedTwice(b.header);
    hide Validate, Canonical, Hex.Encode, Hex.Decode, WellEncoded, Coerced, Faithful;
    CoercedIndex(b.header);
    CanonicalExact(b.header, Coerced(b.header));
  }

  lemma LinkCoerced(env: Env, prev: Block, b: Block)
    requires Faithful(env) && Validate(env, b.header) == None
    ensures VerifyLink(env, prev, b.(header := Coerced(b.header))) == VerifyLink(env, prev, b)
  {
    ValidateCoerced(env, b.header);
    CoercedIndex(b.header);
    hide Validate, Coerced, Faithful;
  }
}
