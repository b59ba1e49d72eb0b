/** Capability tokens: issuing, delegating, and verifying a token that carries no delegation. */
module Tokens {
  import opened Common
  import opened Capabilities
  import opened Attenuation

  /** A did:key names a public key; a did:agent names an agent whose keys are looked up. */
  datatype Did = KeyDid(key: string) | AgentDid(agent: string) | OtherDid(text: string)

  /** `signer` is the DID part of the verification method. */
  datatype Proof = Proof(created: int, signer: Did, value: string)

  datatype DelegationProof = DelegationProof(
    parentTokenId: string, delegator: Did, delegatee: Did,
    parentCapabilities: seq<Capability>, parentExpiresAt: int, attenuated: seq<Capability>,
    dcVersion: Option<string>, proof: Proof)

  datatype Token = Token(
    id: string, specVersion: string, issuer: Did, principal: Did, issuedTo: Did,
    issuedAt: int, expiresAt: int, capabilities: seq<Capability>, revocationUrl: string,
    chain: Option<seq<DelegationProof>>, proof: Proof)

  const SPEC_VERSION := "0.1.0"
  const SPEC_VERSION_0_2_0 := "0.2.0"
  const MAX_DELEGATION_DEPTH := 5

  const UNSIGNED := Proof(0, OtherDid(""), "")

  function TokenPayload(t: Token): Token {
    t.(proof := UNSIGNED)
  }

  function ProofPayload(p: DelegationProof): DelegationProof {
    p.(proof := UNSIGNED)
  }

  /** The signature scheme, the canonical bytes that are signed, the token schema and the revocation
      address check, all left open. */
  datatype Env = Env(
    tokenBytes: Token -> string, proofBytes: DelegationProof -> string,
    sign: (string, string) -> string, verify: (string, string, string) -> bool, publicOf: string -> string,
    schemaOk: Token -> bool, revocationUrlOk: string -> bool)

  /** What is signed with a private key verifies under its public key. */
  ghost predicate Correct(e: Env) {
    forall bytes, key :: e.verify(bytes, e.sign(bytes, key), e.publicOf(key))
  }

  datatype ErrorCode = SignatureInvalid | IdentityNotFound | ScopeExceeded | TokenExpired | InternalError

  datatype Result = Ok(token: Token) | Err(code: ErrorCode)

  function SignToken(e: Env, t: Token, signer: Did, key: string): Token {
    t.(proof := Proof(t.issuedAt, signer, e.sign(e.tokenBytes(TokenPayload(t)), key)))
  }

  function IssueCapabilityToken(
    e: Env, id: string, issuer: Did, issuerKey: string, issuedTo: Did, capabilities: seq<Capability>,
    issuedAt: int, expiresAt: int, revocationUrl: string): Result
  {
    if !issuer.KeyDid? then Err(SignatureInvalid)
    else if !issuedTo.AgentDid? then Err(IdentityNotFound)
    else if capabilities == [] then Err(ErrorCode.ScopeExceeded)
    else if expiresAt <= issuedAt then Err(TokenExpired)
    else if !e.revocationUrlOk(revocationUrl) then Err(InternalError)
    else
      Ok(SignToken(e, Token(id, SPEC_VERSION, issuer, issuer, issuedTo, issuedAt, expiresAt, capabilities,
        revocationUrl, None, UNSIGNED), issuer, issuerKey))
  }

  /** What a holder asks for when it delegates. */
  datatype Grant = Grant(
    id: string, delegatee: Did, capabilities: seq<Capability>, issuedAt: int, expiresAt: int,
    revocationUrl: string, dcVersion: Option<string>)

  function ChainOf(t: Token): seq<DelegationProof> {
    if t.chain.Some? then t.chain.value else []
  }

  function SignProof(e: Env, p: DelegationProof, created: int, key: string): DelegationProof {
    p.(proof := Proof(created, p.delegator, e.sign(e.proofBytes(ProofPayload(p)), key)))
  }

  function NewProof(e: Env, parent: Token, key: string, g: Grant): DelegationProof {
    SignProof(e,
              DelegationProof(parent.id, parent.issuedTo, g.delegatee, parent.capabilities, parent.expiresAt,
                g.capabilities, g.dcVersion, UNSIGNED),
              g.issuedAt, key)
  }

  function DelegatedToken(e: Env, parent: Token, key: string, g: Grant): Token {
    SignToken(e,
              Token(g.id, SPEC_VERSION_0_2_0, parent.issuer, parent.principal, g.delegatee, g.issuedAt, g.expiresAt,
                    g.capabilities, g.revocationUrl, Some(ChainOf(parent) + [NewProof(e, parent, key, g)]), UNSIGNED),
              parent.issuedTo, key)
  }

  function DelegateCapabilityToken(e: Env, parent: Token, key: string, g: Grant): Result {
    if !g.delegatee.AgentDid? then Err(IdentityNotFound)
    else if g.capabilities == [] then Err(ErrorCode.ScopeExceeded)
    else if g.expiresAt <= g.issuedAt then Err(TokenExpired)
    else if g.expiresAt > parent.expiresAt then Err(TokenExpired)
    else if !e.revocationUrlOk(g.revocationUrl) then Err(InternalError)
    else if !Attenuates(parent.capabilities, g.capabilities) then Err(ErrorCode.ScopeExceeded)
    else if |ChainOf(parent)| + 1 > MAX_DELEGATION_DEPTH then Err(ErrorCode.ScopeExceeded)
    else Ok(DelegatedToken(e, parent, key, g))
  }

  // ------------------------------------------------------------------ verification

  datatype ResolvedKeys = ResolvedKeys(
    current: string, previous: Option<string>, previousValidBefore: Option<int>, rotating: bool)

  /** The current key, or the previous one for what was made before its cut-off. */
  predicate VerifyDual(e: Env, bytes: string, signature: string, keys: ResolvedKeys, made: int) {
    || e.verify(bytes, signature, keys.current)
    || (keys.previous.Some? && keys.previousValidBefore.Some? && made <= keys.previousValidBefore.value &&
        e.verify(bytes, signature, keys.previous.value))
  }

  datatype Verdict = Valid | InvalidFormat | Expired | BadSignature

  predicate NoPhase2(caps: seq<Capability>) {
    forall c :: c in caps ==> !IsPhase2(c.scope)
  }

  function VerifyCapabilityToken(e: Env, t: Token, now: int, resolved: Option<ResolvedKeys>): Verdict {
    if !e.schemaOk(t) then InvalidFormat
    else if resolved.Some? && !t.issuer.KeyDid? && !t.issuer.AgentDid? then InvalidFormat
    else if resolved.None? && (!t.issuer.KeyDid? || t.proof.signer.AgentDid?) then InvalidFormat
    else if t.issuedAt > now then InvalidFormat
    else if t.expiresAt <= now then Expired
    else if ChainOf(t) != [] then InvalidFormat
    else if t.specVersion == SPEC_VERSION && !NoPhase2(t.capabilities) then InvalidFormat
    else
      var bytes := e.tokenBytes(TokenPayload(t));
      if resolved.Some? then
        if e.verify(bytes, t.proof.value, resolved.value.current) then Valid
        else if resolved.value.rotating && VerifyDual(e, bytes, t.proof.value, resolved.value, t.issuedAt) then Valid
        else BadSignature
      else if e.verify(bytes, t.proof.value, t.issuer.key) then Valid
      else BadSignature
  }

  /** The keys that may have signed something made at a given time: the current one, and the previous one up to its
      cut-off. */
  predicate MaySign(keys: ResolvedKeys, made: int, key: string) {
    || key == keys.current
    || (keys.previous == Some(key) && keys.previousValidBefore.Some? && made <= keys.previousValidBefore.value)
  }

  ghost predicate SignedUnder(e: Env, bytes: string, signature: string, keys: ResolvedKeys, made: int) {
    exists key :: MaySign(keys, made, key) && e.verify(bytes, signature, key)
  }

  lemma DualMeaning(e: Env, bytes: string, signature: string, keys: ResolvedKeys, made: int)
    ensures VerifyDual(e, bytes, signature, keys, made) <==> SignedUnder(e, bytes, signature, keys, made)
  {
    if e.verify(bytes, signature, keys.current) { assert MaySign(keys, made, keys.current); }
    if keys.previous.Some? && e.verify(bytes, signature, keys.previous.value) {
      assert MaySign(keys, made, keys.previous.value) ==> SignedUnder(e, bytes, signature, keys, made);
    }
  }

  /** The signer of a token without delegations: the key its did:key issuer names, or with resolved keys the current
      one, and the previous one within its cut-off while rotating. */
  ghost predicate SignerAccepted(e: Env, t: Token, resolved: Option<ResolvedKeys>) {
    var bytes := e.tokenBytes(t.(proof := UNSIGNED));
    match resolved
    case None => t.issuer.KeyDid? && !t.proof.signer.AgentDid? && e.verify(bytes, t.proof.value, t.issuer.key)
    case Some(keys) =>
      && !t.issuer.OtherDid?
      && (e.verify(bytes, t.proof.value, keys.current) ||
          (keys.rotating && SignedUnder(e, bytes, t.proof.value, keys, t.issuedAt)))
  }

  /** The issuer is of a kind whose key can be found. */
  predicate NamesIssuer(t: Token, resolved: Option<ResolvedKeys>) {
    if resolved.Some? then !t.issuer.OtherDid? else t.issuer.KeyDid? && !t.proof.signer.AgentDid?
  }

  /** A token is valid exactly when it has the schema, is live, carries no delegations and no scope that its version
      does not know, and is signed; what fails is named, expiry before signature. */
  lemma VerifyMeaning(e: Env, t: Token, now: int, resolved: Option<ResolvedKeys>)
    ensures VerifyCapabilityToken(e, t, now, resolved) == Valid <==>
      && e.schemaOk(t) && t.issuedAt <= now < t.expiresAt && (t.chain == None || t.chain == Some([]))
      && (t.specVersion == "0.1.0" ==> forall c :: c in t.capabilities ==> !c.scope.Temporal? && !c.scope.Cumulative?)
      && SignerAccepted(e, t, resolved)
    ensures VerifyCapabilityToken(e, t, now, resolved) == Expired <==>
      e.schemaOk(t) && NamesIssuer(t, resolved) && t.issuedAt <= now && t.expiresAt <= now
    ensures VerifyCapabilityToken(e, t, now, resolved) == BadSignature ==>
      t.issuedAt <= now < t.expiresAt && !SignerAccepted(e, t, resolved)
  {
    if resolved.Some? {
      DualMeaning(e, e.tokenBytes(t.(proof := UNSIGNED)), t.proof.value, resolved.value, t.issuedAt);
    }
  }

  predicate Issuable(issuer: Did, issuedTo: Did, capabilities: seq<Capability>, issuedAt: int, expiresAt: int) {
    issuer.KeyDid? && issuedTo.AgentDid? && |capabilities| > 0 && issuedAt < expiresAt
  }

  /** Issuing succeeds exactly for a did:key issuer, an agent, some capability, a positive life and an acceptable
      revocation address; the token then says what was asked for, at version 0.1.0, for the issuer as principal. */
  lemma IssueMeaning(
    e: Env, id: string, issuer: Did, key: string, issuedTo: Did, capabilities: seq<Capability>, issuedAt: int,
    expiresAt: int, url: string)
    ensures var r := IssueCapabilityToken(e, id, issuer, key, issuedTo, capabilities, issuedAt, expiresAt, url);
            && (r.Ok? <==> Issuable(issuer, issuedTo, capabilities, issuedAt, expiresAt) && e.revocationUrlOk(url))
            && (r.Ok? ==> (
                  var t := Token(id, "0.1.0", issuer, issuer, issuedTo, issuedAt, expiresAt, capabilities, url, None,
                    UNSIGNED);
                  r.token == t.(proof := Proof(issuedAt, issuer, e.sign(e.tokenBytes(t), key)))))
            && (r == Err(SignatureInvalid) <==> !issuer.KeyDid?)
            && (r == Err(TokenExpired) ==> expiresAt <= issuedAt)
            && (r == Err(IdentityNotFound) ==> !issuedTo.AgentDid?)
            && (r == Err(ErrorCode.ScopeExceeded) ==> capabilities == [])
  {
  }

  /** Delegating succeeds exactly for an agent, attenuated capabilities, a positive life within the parent's, an
      acceptable revocation address and a parent of depth at most four. */
  lemma DelegateMeaning(e: Env, parent: Token, key: string, g: Grant)
    ensures DelegateCapabilityToken(e, parent, key, g).Ok? <==>
      && g.delegatee.AgentDid? && |g.capabilities| > 0 && Attenuates(parent.capabilities, g.capabilities)
      && g.issuedAt < g.expiresAt <= parent.expiresAt && e.revocationUrlOk(g.revocationUrl)
      && |ChainOf(parent)| < 5
    ensures DelegateCapabilityToken(e, parent, key, g).Ok? ==> (
      var t, p := DelegateCapabilityToken(e, parent, key, g).token, ChainOf(parent);
      && t.chain.Some? && |t.chain.value| == |p| + 1 && t.chain.value[..|p|] == p
      && SaysDelegated(e, parent, key, g, t.chain.value[|p|])
      && (var u := Token(g.id, "0.2.0", parent.issuer, parent.principal, g.delegatee, g.issuedAt, g.expiresAt,
            g.capabilities, g.revocationUrl, t.chain, UNSIGNED);
          t == u.(proof := Proof(g.issuedAt, parent.issuedTo, e.sign(e.tokenBytes(u), key)))))
    ensures var r := DelegateCapabilityToken(e, parent, key, g);
            && (r == Err(IdentityNotFound) <==> !g.delegatee.AgentDid?)
            && (r == Err(TokenExpired) ==> g.expiresAt <= g.issuedAt || g.expiresAt > parent.expiresAt)
            && (r == Err(ErrorCode.ScopeExceeded) ==>
                g.capabilities == [] || !Attenuates(parent.capabilities, g.capabilities) || |ChainOf(parent)| >= 5)
  {
  }

  /** The proof added by a delegation: a snapshot of the parent, signed by its holder. */
  predicate SaysDelegated(e: Env, parent: Token, key: string, g: Grant, p: DelegationProof) {
    var u := DelegationProof(parent.id, parent.issuedTo, g.delegatee, parent.capabilities, parent.expiresAt,
      g.capabilities, g.dcVersion, UNSIGNED);
    p == u.(proof := Proof(g.issuedAt, parent.issuedTo, e.sign(e.proofBytes(u), key)))
  }

  /** The token is signed by the key that its did:key issuer names. */
  predicate SignedByIssuer(e: Env, t: Token) {
    t.issuer.KeyDid? && e.verify(e.tokenBytes(TokenPayload(t)), t.proof.value, t.issuer.key)
  }

  /** A freshly issued token verifies until it expires, exactly when it carries no scope that its
      version does not know. */
  lemma IssuedVerifies(
    e: Env, id: string, issuerKey: string, issuedTo: Did, capabilities: seq<Capability>,
    issuedAt: int, expiresAt: int, revocationUrl: string, now: int)
    requires Correct(e)
    requires IssueCapabilityToken(e, id, KeyDid(e.publicOf(issuerKey)), issuerKey, issuedTo, capabilities, issuedAt,
      expiresAt, revocationUrl).Ok?
    requires issuedAt <= now < expiresAt
    ensures var t := IssueCapabilityToken(e, id, KeyDid(e.publicOf(issuerKey)), issuerKey, issuedTo, capabilities,
      issuedAt, expiresAt, revocationUrl).token;
            e.schemaOk(t) ==> (VerifyCapabilityToken(e, t, now, None) == Valid <==> NoPhase2(capabilities))
  {
    var t := IssueCapabilityToken(e, id, KeyDid(e.publicOf(issuerKey)), issuerKey, issuedTo, capabilities, issuedAt,
      expiresAt, revocationUrl).token;
    assert TokenPayload(t) == TokenPayload(t.(proof := UNSIGNED));
  }
}
