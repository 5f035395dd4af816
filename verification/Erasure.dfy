/** Erasure events and their authorisation: internal/erasure/erasure.go and autorizacion.go. */
module Erasure {
  import opened Bytes
  import opened Hashing
  import opened Text
  import Decimal
  import Hex
  import J = Jcs
  import opened Blocks

  const EVENT_TYPE := Ascii("nucleo.erasure.v1")
  const AUTH_PREFIX := Ascii("nucleo-erasure-auth@v1:")
  const ERASED := Ascii("erased_payload_hash")

  const COLON: byte := 58

  // ----------------------------------------------------------- the event's content

  /** Payload: None when the argument is not a payload hash. */
  function Payload(payloadHash: Bytes): Option<Bytes> {
    if !Hex.Lower(payloadHash, 64) then None
    else Some(J.EncodeObject([J.Member(ERASED, J.String(payloadHash))]))
  }

  function EventPayloadHash(sha: HashFn, payloadHash: Bytes): Option<Bytes> {
    match Payload(payloadHash)
    case None => None
    case Some(p) => Some(Hex.Encode(sha(p)))
  }

  /** The payloads hashed for a set of contents. */
  function PayloadInputs(hashes: set<Bytes>): set<Bytes> {
    set x | x in hashes && Payload(x).Some? :: Payload(x).value
  }

  lemma PayloadInjective(x: Bytes, y: Bytes)
    requires Payload(x).Some? && Payload(x) == Payload(y)
    ensures x == y
  {
    hide J.EncodeObject;
    J.ObjectUnique([J.Member(ERASED, J.String(x))], [J.Member(ERASED, J.String(y))]);
    assert [J.Member(ERASED, J.String(x))][0] == [J.Member(ERASED, J.String(y))][0];
  }

  /** One event hash stands for one content. */
  lemma EventHashInjective(sha: HashFn, x: Bytes, y: Bytes, hashes: set<Bytes>)
    requires x in hashes && y in hashes
    requires EventPayloadHash(sha, x).Some? && EventPayloadHash(sha, x) == EventPayloadHash(sha, y)
    ensures x == y || CollisionIn(sha, PayloadInputs(hashes))
  {
    hide Payload, Hex.Encode;
    var p, q := Payload(x).value, Payload(y).value;
    Hex.EncodeInjective(sha(p), sha(q));
    assert p in PayloadInputs(hashes) && q in PayloadInputs(hashes);
    if p == q { PayloadInjective(x, y); }
  }

  // ----------------------------------------------------------- the text signed

  const HEAD := Ascii("nucleo.org/erasure-authorization@v1\norigin ")
  const BEFORE_HASH := Ascii("\nerased_payload_hash ")
  const BEFORE_THROUGH := Ascii("\nthrough ")

  /** AuthorizationText. */
  function AuthorizationText(origin: Bytes, payloadHash: Bytes, through: nat): Option<Bytes> {
    if !Hex.Lower(payloadHash, 64) || origin == [] || through > MAX_SAFE_INDEX then None
    else Some(HEAD + origin + BEFORE_HASH + payloadHash + BEFORE_THROUGH + Decimal.Format(through) + [LF])
  }

  lemma ThroughEnds(a: Bytes, m: nat, b: Bytes, n: nat)
    requires a != [] && b != [] && Last(a) == 32 && Last(b) == 32
    requires a + Decimal.Format(m) + [LF] == b + Decimal.Format(n) + [LF]
    ensures a == b && m == n
  {
    hide Decimal.Format, Decimal.Value;
    var d, e := Decimal.Format(m), Decimal.Format(n);
    var t := a + d + [LF];
    assert forall i :: |a| <= i < |a| + |d| ==> t[i] == d[i - |a|] && Decimal.IsDigit(t[i]);
    assert forall i :: |b| <= i < |b| + |e| ==> t[i] == e[i - |b|] && Decimal.IsDigit(t[i]);
    assert t[|a| - 1] == 32 && t[|b| - 1] == 32;
    assert !Decimal.IsDigit(32);
    assert |a| == |b|;
    assert a == t[..|a|] && b == t[..|a|];
    assert d == t[|a|..|t| - 1] && e == t[|a|..|t| - 1];
    assert Decimal.Value(d) == m && Decimal.Value(e) == n;
  }

  lemma EndsInSpace()
    ensures BEFORE_THROUGH != [] && Last(BEFORE_THROUGH) == 32
  {
  }

  /** An authorisation is about one log, one content and one limit, whatever bytes the origin has. */
  lemma AuthorizationTextInjective(o: Bytes, x: Bytes, m: nat, p: Bytes, y: Bytes, n: nat)
    requires AuthorizationText(o, x, m).Some? && AuthorizationText(o, x, m) == AuthorizationText(p, y, n)
    ensures o == p && x == y && m == n
  {
    hide Decimal.Format, Ascii;
    var a, b := HEAD + o + BEFORE_HASH + x + BEFORE_THROUGH, HEAD + p + BEFORE_HASH + y + BEFORE_THROUGH;
    EndsInSpace();
    ThroughEnds(a, m, b, n);
    SameTail(HEAD + o + BEFORE_HASH, x, HEAD + p + BEFORE_HASH, y, BEFORE_THROUGH);
    SameTail(HEAD, o, HEAD, p, BEFORE_HASH);
  }

  lemma SameTail(a: Bytes, x: Bytes, b: Bytes, y: Bytes, z: Bytes)
    requires a + x + z == b + y + z && (|x| == |y| || |a| == |b|)
    ensures a == b && x == y
  {
    var t := a + x + z;
    assert a == t[..|a|] && b == t[..|b|];
    assert x == t[|a|..|a| + |x|] && y == t[|b|..|b| + |y|];
  }

  // --------------------------------------------------------------- the payload_cid

  function FormatCID(through: nat, sig: Bytes): Bytes {
    AUTH_PREFIX + Decimal.Format(through) + [COLON] + Hex.Encode(sig)
  }

  /** strings.Cut at the first colon. */
  function CutColon(s: Bytes): Option<(Bytes, Bytes)> {
    if s == [] then None
    else if s[0] == COLON then Some(([], s[1..]))
    else match CutColon(s[1..])
      case None => None
      case Some((a, b)) => Some(([s[0]] + a, b))
  }

  lemma {:induction false} CutColonExact(s: Bytes, a: Bytes, b: Bytes)
    ensures CutColon(s) == Some((a, b)) <==> s == a + [COLON] + b && COLON !in a
  {
    if s == [] {
    } else if s[0] == COLON {
      if a == [] { assert a + [COLON] + b == [COLON] + b; assert s == [COLON] + s[1..]; }
      else if s == a + [COLON] + b { assert a[0] == s[0]; }
      assert s == [COLON] + b ==> s[1..] == b;
    } else {
      if a != [] {
        CutColonExact(s[1..], a[1..], b);
        assert a == [a[0]] + a[1..] && s == [s[0]] + s[1..];
        assert (a + [COLON] + b)[1..] == a[1..] + [COLON] + b;
        assert COLON !in a <==> a[0] != COLON && COLON !in a[1..];
      }
    }
  }

  /** ParseCID: through and the signature. */
  function ParseCID(cid: Bytes): Option<(nat, Bytes)> {
    if !(AUTH_PREFIX <= cid) then None
    else match CutColon(cid[|AUTH_PREFIX|..])
      case None => None
      case Some((num, firma)) =>
        if !Decimal.Canonical(num) || !Hex.Lower(firma, 128) then None
        else match Decimal.Parse(num)
          case None => None
          case Some(through) =>
            if through > MAX_SAFE_INDEX || Hex.Decode(firma).None? then None
            else Some((through, Hex.Decode(firma).value))
  }

  lemma DigitsHaveNoColon(n: nat)
    ensures COLON !in Decimal.Format(n)
  {
    hide Decimal.Format;
    var s := Decimal.Format(n);
    assert forall i :: 0 <= i < |s| ==> Decimal.IsDigit(s[i]);
  }

  lemma AfterPrefix(cid: Bytes, r: Bytes)
    ensures AUTH_PREFIX <= cid && cid[|AUTH_PREFIX|..] == r <==> cid == AUTH_PREFIX + r
  {
    hide Ascii;
  }

  lemma SignatureText(firma: Bytes, sig: Bytes)
    requires |sig| == 64
    ensures Hex.Lower(firma, 128) && Hex.Decode(firma) == Some(sig) <==> firma == Hex.Encode(sig)
  {
    hide Hex.Encode, Hex.Decode;
    Hex.DecodeOfEncode(sig);
    if Hex.Decode(firma) == Some(sig) { Hex.EncodeOfDecode(firma); }
  }

  lemma CanonicalNumber(num: Bytes, through: nat)
    requires through <= MAX_SAFE_INDEX
    ensures Decimal.Canonical(num) && Decimal.Parse(num) == Some(through) <==> num == Decimal.Format(through)
  {
    hide Decimal.Format, Decimal.Parse, Decimal.Value;
    Decimal.ParseExact(num, through);
  }

  /** An authorisation has one spelling. */
  lemma ParseCIDExact(cid: Bytes, through: nat, sig: Bytes)
    ensures ParseCID(cid) == Some((through, sig))
            <==> cid == FormatCID(through, sig) && through <= MAX_SAFE_INDEX && |sig| == 64
  {
    var num, firma := Decimal.Format(through), Hex.Encode(sig);
    DigitsHaveNoColon(through);
    hide Decimal.Format, Decimal.Parse, Decimal.Canonical, Hex.Encode, Hex.Decode, Ascii, CutColon;
    assert FormatCID(through, sig) == AUTH_PREFIX + (num + [COLON] + firma);
    AfterPrefix(cid, num + [COLON] + firma);
    if AUTH_PREFIX <= cid {
      var rest := cid[|AUTH_PREFIX|..];
      CutColonExact(rest, num, firma);
      if CutColon(rest).Some? {
        var (a, b) := CutColon(rest).value;
        CutColonExact(rest, a, b);
        if |sig| == 64 { SignatureText(b, sig); }
        if through <= MAX_SAFE_INDEX { CanonicalNumber(a, through); }
      }
    }
  }

  /** Authorize: the payload_cid an event will carry. */
  function Authorize(env: Env, key: Bytes, origin: Bytes, payloadHash: Bytes, through: nat): Option<Bytes> {
    match AuthorizationText(origin, payloadHash, through)
    case None => None
    case Some(txt) => Some(FormatCID(through, env.sign(key, env.sha(txt))))
  }

  /** VerifyCID: how far the authorisation goes. */
  function VerifyCID(env: Env, key: Bytes, origin: Bytes, payloadHash: Bytes, cid: Bytes): Option<nat> {
    if |key| != 32 then None
    else match ParseCID(cid)
      case None => None
      case Some((through, sig)) =>
        match AuthorizationText(origin, payloadHash, through)
        case None => None
        case Some(txt) => if env.verifies(key, env.sha(txt), sig) then Some(through) else None
  }

  /** The holder of the erasure key can issue an authorisation for any payload hash and any index of a
      named log, and what it issues is accepted up to that index. */
  lemma AuthorizeVerifies(env: Env, key: Bytes, origin: Bytes, payloadHash: Bytes, through: nat)
    requires Faithful(env)
    ensures var cid := Authorize(env, key, origin, payloadHash, through);
            && (cid.Some? <==> Hex.Lower(payloadHash, 64) && origin != [] && through <= MAX_SAFE_INDEX)
            && (cid.Some? ==> VerifyCID(env, env.publicOf(key), origin, payloadHash, cid.value) == Some(through))
  {
    hide FormatCID, ParseCID, Canonical;
    if Authorize(env, key, origin, payloadHash, through).Some? {
      var txt := AuthorizationText(origin, payloadHash, through).value;
      OwnSignature(env, key, env.sha(txt));
      hide Faithful;
      var sig := env.sign(key, env.sha(txt));
      ParseCIDExact(FormatCID(through, sig), through, sig);
    }
  }

  // --------------------------------------------------------------- the decision

  datatype Authority = Authority(origin: Bytes, key: Bytes)

  /** Authority.Check: how far an event that says it erases `payloadHash` reaches, if authorised. */
  function Check(env: Env, a: Authority, ev: Block, payloadHash: Bytes): Option<nat> {
    if ev.header.typ != EVENT_TYPE then None
    else if EventPayloadHash(env.sha, payloadHash) != Some(ev.header.payloadHash) then None
    else match VerifyCID(env, a.key, a.origin, payloadHash, ev.header.payloadCID)
      case None => None
      case Some(through) => if through >= ev.header.index then None else Some(through)
  }

  /** The erasure key signed this text, for some signature the event carries. */
  ghost predicate SignedBy(env: Env, key: Bytes, txt: Bytes, through: nat, cid: Bytes) {
    exists sig :: |sig| == 64 && cid == FormatCID(through, sig) && env.verifies(key, env.sha(txt), sig)
  }

  /** An event is authorised up to `through` exactly when it is an erasure event for that content,
      sealed after the blocks it covers, and carries the erasure key's signature over the log, the
      content and the limit. */
  lemma CheckExact(env: Env, a: Authority, ev: Block, payloadHash: Bytes, through: nat)
    ensures Check(env, a, ev, payloadHash) == Some(through)
            <==> && ev.header.typ == EVENT_TYPE
                 && EventPayloadHash(env.sha, payloadHash) == Some(ev.header.payloadHash)
                 && |a.key| == 32 && through < ev.header.index
                 && AuthorizationText(a.origin, payloadHash, through).Some?
                 && SignedBy(env, a.key, AuthorizationText(a.origin, payloadHash, through).value, through,
                             ev.header.payloadCID)
  {
    hide EventPayloadHash, AuthorizationText, FormatCID, ParseCID, Ascii;
    var cid := ev.header.payloadCID;
    forall t: nat, sig: Bytes
      ensures ParseCID(cid) == Some((t, sig)) <==> cid == FormatCID(t, sig) && t <= MAX_SAFE_INDEX && |sig| == 64
    {
      ParseCIDExact(cid, t, sig);
    }
    LimitIsSafe(a.origin, payloadHash, through);
  }

  lemma LimitIsSafe(origin: Bytes, payloadHash: Bytes, through: nat)
    ensures AuthorizationText(origin, payloadHash, through).Some? ==> through <= MAX_SAFE_INDEX
  {
  }
}
