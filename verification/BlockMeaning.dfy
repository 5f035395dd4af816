/** What the decisions about a single block mean: which headers are well formed, which blocks
    verify, which follow another, and what NewHeader and Seal put in them. */
module BlockMeaning {
  import opened Bytes
  import opened Hashing
  import Hex
  import opened Blocks
  import Utf8

  // ----------------------------------------------------------------- headers

  predicate IsHexDigit(c: byte) {
    48 <= c <= 57 || 65 <= c <= 70 || 97 <= c <= 102
  }

  predicate HexText(s: Bytes, n: nat) {
    |s| == n && forall i :: 0 <= i < n ==> IsHexDigit(s[i])
  }

  /** Text decodes exactly when it is pairs of hexadecimal digits, of either case. */
  lemma {:induction false} DecodesExactly(s: Bytes)
    ensures Hex.Decode(s).Some? <==> |s| % 2 == 0 && HexText(s, |s|)
    ensures Hex.Decode(s).Some? ==> |Hex.Decode(s).value| == |s| / 2
  {
    if |s| >= 2 {
      DecodesExactly(s[2..]);
      assert forall i :: 0 <= i < |s[2..]| ==> s[2..][i] == s[i + 2];
      if HexText(s[2..], |s| - 2) && IsHexDigit(s[0]) && IsHexDigit(s[1]) {
        forall i | 0 <= i < |s| ensures IsHexDigit(s[i]) { assert i >= 2 ==> s[i] == s[2..][i - 2]; }
      }
    }
  }

  lemma IsHexExactly(s: Bytes)
    ensures Hex.IsHex(s, 64) <==> HexText(s, 64)
  {
    hide Hex.Decode;
    DecodesExactly(s);
  }

  predicate AsciiSpace(c: byte) {
    9 <= c <= 13 || c == 32
  }

  /** ASCII text is blank exactly when it is nothing but spaces. */
  lemma {:induction false} BlankAscii(s: Bytes)
    requires IsAscii(s)
    ensures Blank(s) <==> forall i :: 0 <= i < |s| ==> AsciiSpace(s[i])
  {
    if s != [] {
      assert forall i :: 0 <= i < |s[1..]| ==> s[1..][i] == s[i + 1];
      BlankAscii(s[1..]);
      if AsciiSpace(s[0]) && Blank(s[1..]) {
        forall i | 0 <= i < |s| ensures AsciiSpace(s[i]) { assert i >= 1 ==> s[i] == s[1..][i - 1]; }
      }
    }
  }

  /** No byte below a space, not U+007F, and none of the two-byte forms of U+0080 to U+009F. */
  predicate PrintableAt(s: Bytes, i: nat)
    requires i < |s|
  {
    32 <= s[i] && s[i] != 127 && (s[i] == 0xC2 && i + 1 < |s| ==> s[i + 1] < 0x80 || 0x9F < s[i + 1])
  }

  predicate FitsALine(s: Bytes) {
    forall i :: 0 <= i < |s| ==> PrintableAt(s, i)
  }

  lemma OneLineExact(s: Bytes)
    ensures NoControls(s) <==> FitsALine(s)
  {
    forall i | 0 <= i < |s| ensures PrintableAt(s, i) <==> !ControlAt(s, i) {}
  }

  predicate AllZeros(s: Bytes) {
    forall i :: 0 <= i < |s| ==> s[i] == 48
  }

  lemma GenesisIsZeros(s: Bytes)
    requires |s| == 64
    ensures s == GENESIS <==> AllZeros(s)
  {
  }

  /** A header of the right form: safe index, digests and key in hexadecimal, tenant and type that are
      not blank, a tenant on one line, only block 0 pointing at genesis, and a time in UTC. */
  ghost predicate HeaderForm(env: Env, h: Header) {
    && h.index < 0x20_0000_0000_0000
    && HexText(h.prevHash, 64) && HexText(h.payloadHash, 64) && HexText(h.signer, 64)
    && !Blank(h.tenant) && !Blank(h.typ)
    && FitsALine(h.tenant)
    && (h.index == 0 <==> AllZeros(h.prevHash))
    && h.timestamp != [] && Last(h.timestamp) == 90 && env.instant(h.timestamp).Some?
  }

  lemma ValidateExact(env: Env, h: Header)
    ensures Validate(env, h) == None <==> HeaderForm(env, h)
    ensures Validate(env, h) in {None, Some(InvalidHeader), Some(GenesisPrev)}
    ensures Validate(env, h) == Some(GenesisPrev) ==> h.index == 0 && h.prevHash != GENESIS
  {
    if |h.prevHash| == 64 { GenesisIsZeros(h.prevHash); }
    OneLineExact(h.tenant);
    hide Hex.IsHex, Blank, AllZeros, NoControls, FitsALine;
    IsHexExactly(h.prevHash);
    IsHexExactly(h.payloadHash);
    IsHexExactly(h.signer);
  }

  // ------------------------------------------------------------------ blocks

  /** The signature, in hexadecimal, verifies over the digest under the signer, in hexadecimal. */
  ghost predicate Signs(env: Env, signer: Bytes, digest: Bytes, signature: Bytes) {
    var pub, sig := Hex.Decode(signer), Hex.Decode(signature);
    && pub.Some? && |pub.value| == 32 && sig.Some? && |sig.value| == 64
    && env.verifies(pub.value, digest, sig.value)
  }

  lemma SignerDecodes(env: Env, h: Header)
    requires HeaderForm(env, h)
    ensures Hex.Decode(h.signer).Some? && |Hex.Decode(h.signer).value| == 32
  {
    hide Hex.Decode, Blank, FitsALine, AllZeros;
    DecodesExactly(h.signer);
  }

  /** A block verifies exactly when its header has the right form, its hash is that of the header's
      canonical bytes, and its signature verifies over that hash under the header's own signer. Of the
      three, the first that fails names the error. */
  lemma VerifyExact(env: Env, b: Block)
    ensures Verify(env, b) == None ==> b.header.index <= MAX_SAFE_INDEX
    ensures Verify(env, b) == None
            <==> && HeaderForm(env, b.header)
                 && b.hash == Hex.Encode(env.sha(Canonical(b.header)))
                 && Signs(env, b.header.signer, env.sha(Canonical(b.header)), b.signature)
    ensures HeaderForm(env, b.header) && b.hash != Hex.Encode(env.sha(Canonical(b.header)))
            ==> Verify(env, b) == Some(HashMismatch)
    ensures HeaderForm(env, b.header) && b.hash == Hex.Encode(env.sha(Canonical(b.header)))
            && !Signs(env, b.header.signer, env.sha(Canonical(b.header)), b.signature)
            ==> Verify(env, b) == Some(BadSignature)
    ensures !HeaderForm(env, b.header) ==> Verify(env, b) in {Some(InvalidHeader), Some(GenesisPrev)}
  {
    hide Hex.Decode, Hex.Encode, Canonical, Validate, HeaderForm;
    ValidateExact(env, b.header);
    if HeaderForm(env, b.header) {
      FormIsSafe(env, b.header);
      SignerDecodes(env, b.header);
    }
  }

  lemma FormIsSafe(env: Env, h: Header)
    requires HeaderForm(env, h) || Validate(env, h) == None
    ensures h.index <= MAX_SAFE_INDEX
  {
    hide Hex.IsHex, Blank, NoControls, FitsALine, AllZeros, HexText;
  }

  /** A block follows another exactly when its index is the next, it points at the other's hash, and
      both times can be read and do not go back. */
  lemma LinkExact(env: Env, prev: Block, cur: Block)
    ensures VerifyLink(env, prev, cur) == None
            <==> && cur.header.index == prev.header.index + 1 && cur.header.prevHash == prev.hash
                 && Time(env, prev.header).Some? && Time(env, cur.header).Some?
                 && Time(env, prev.header).value <= Time(env, cur.header).value
    ensures VerifyLink(env, prev, cur) == Some(IndexSequence) <==> cur.header.index != prev.header.index + 1
  {
  }

  /** NewHeader makes a header exactly when the key has its size, there is a next index and the header
      has the right form; and this is what it puts in each field. */
  lemma NewHeaderExact(env: Env, prev: Option<Block>, tenant: Bytes, typ: Bytes, payload: Bytes, payloadCID: Bytes,
                       signer: Bytes, now: Bytes, h: Header)
    ensures NewHeader(env, prev, tenant, typ, payload, payloadCID, signer, now) == Some(h)
            <==> && |signer| == 32 && HeaderForm(env, h)
                 && (prev.None? ==> h.index == 0 && h.prevHash == GENESIS)
                 && (prev.Some? ==> h.index == prev.value.header.index + 1 && h.prevHash == prev.value.hash)
                 && h.timestamp == now && h.tenant == tenant && h.typ == typ && h.payloadCID == payloadCID
                 && h.payloadHash == Hex.Encode(env.sha(payload)) && h.signer == Hex.Encode(signer)
  {
    hide Hex.Encode, Validate, HeaderForm;
    var index := if prev.Some? then prev.value.header.index + 1 else 0;
    if index <= MAX_SAFE_INDEX {
      ValidateExact(env, Header(index, if prev.Some? then prev.value.hash else GENESIS, now, tenant, typ,
                                Hex.Encode(env.sha(payload)), payloadCID, Hex.Encode(signer)));
    }
    if HeaderForm(env, h) { FormIsSafe(env, h); }
  }

  /** Seal issues a block exactly when the key has its size and is the signer's, the header has the
      right form and no fraction of a second; and the block is the header, its hash and the signature
      over that hash. */
  lemma SealExact(env: Env, h: Header, priv: Bytes, b: Block)
    ensures Seal(env, h, priv) == Issued(b)
            <==> && |priv| == 64 && HeaderForm(env, h) && DOT !in h.timestamp
                 && h.signer == Hex.Encode(env.publicOf(priv)) && b.header == h && h.index <= MAX_SAFE_INDEX
                 && b.hash == Hex.Encode(env.sha(Canonical(h)))
                 && b.signature == Hex.Encode(env.sign(priv, env.sha(Canonical(h))))
  {
    hide Hex.Encode, Canonical, Validate, HeaderForm;
    ValidateExact(env, h);
    if HeaderForm(env, h) || Validate(env, h) == None { FormIsSafe(env, h); }
  }
}
