/**
 Every statement the system signs, and the proof that a byte string a key has
 signed can be read as one statement only: contexts never overlap, and within a
 context the fields are determined by the bytes.
 */
module SignedStatements {
  import opened Bytes
  import opened Text
  import opened Encoding
  import Scope
  import opened Grants
  import KeyAgreement
  import opened DomainKey
  import opened RelayDirectory

  const IDENTITY_CONTEXT: Bytes := Tag("tnp-relay-identity-v1")
  const REGISTRY_PROOF_CONTEXT: Bytes := Tag("tnp-relay-registry-proof-v1")
  const BINDING_CONTEXT: Bytes := Tag("tnp-service-relay-binding-v1")
  const SERVICE_AUTH_CONTEXT: Bytes := Tag("tnp-relay-service-auth-v1")

  datatype ProofPurpose = Register | Heartbeat

  const REGISTER := Ascii("register")
  const HEARTBEAT := Ascii("heartbeat")

  function ProofPurposeName(p: ProofPurpose): (s: JsString)
    ensures IsAscii(s) && |s| <= 9
  {
    match p case Register => REGISTER case Heartbeat => HEARTBEAT
  }

  datatype Statement =
    | OfGrant(grant: Grant)
    | OfCertificate(certificate: KeyAgreement.Certificate)
    | OfRotation(rotation: Rotation)
    | OfDirectory(directory: Directory)
    | OfIdentity(endpoint: JsString, nonce: Key, relayKey: Key)
    | OfRegistryProof(purpose: ProofPurpose, endpoint: JsString, relayKey: Key, issuedAt: nat)
    | OfBinding(name: JsString, endpoint: JsString, relayKey: Key, issuedAt: nat)
    | OfServiceAuth(name: JsString, endpoint: JsString, challenge: Key, nodeKey: Key)

  /** What the encoders refuse is not signed. */
  predicate Signable(s: Statement)
  {
    match s
    case OfGrant(g) => Canonicalized(g)
    case OfCertificate(c) => KeyAgreement.CanonicalCertificate(c)
    case OfRotation(r) => CanonicalRotation(r)
    case OfDirectory(d) => Acceptable(d)
    case OfIdentity(endpoint, _, _) => IsEndpoint(endpoint)
    case OfRegistryProof(_, endpoint, _, issuedAt) => IsEndpoint(endpoint) && IsUint(issuedAt)
    case OfBinding(name, endpoint, _, issuedAt) => Scope.IsValidScope(name) && IsEndpoint(endpoint) && IsUint(issuedAt)
    case OfServiceAuth(name, endpoint, _, _) =>
      Scope.IsValidScope(name) && 0 < |endpoint| <= MAX_RELAY_ENDPOINT_LENGTH
  }

  /** Endpoints are the only free text that is signed; elsewhere text is ASCII. */
  predicate WellFormedText(s: Statement)
  {
    match s
    case OfDirectory(d) => WellFormedEndpoints(d)
    case OfIdentity(endpoint, _, _) => WellFormed(endpoint)
    case OfRegistryProof(_, endpoint, _, _) => WellFormed(endpoint)
    case OfBinding(_, endpoint, _, _) => WellFormed(endpoint)
    case OfServiceAuth(_, endpoint, _, _) => WellFormed(endpoint)
    case _ => true
  }

  function Context(s: Statement): Bytes
  {
    match s
    case OfGrant(_) => GRANT_CONTEXT
    case OfCertificate(_) => KeyAgreement.KEY_AGREEMENT_CONTEXT
    case OfRotation(_) => ROTATION_CONTEXT
    case OfDirectory(_) => DIRECTORY_CONTEXT
    case OfIdentity(_, _, _) => IDENTITY_CONTEXT
    case OfRegistryProof(_, _, _, _) => REGISTRY_PROOF_CONTEXT
    case OfBinding(_, _, _, _) => BINDING_CONTEXT
    case OfServiceAuth(_, _, _, _) => SERVICE_AUTH_CONTEXT
  }

  function IdentityFields(c: Bytes, endpoint: Bytes, nonce: Key, key: Key): seq<Field>
  {
    [Prefixed(c), Prefixed(endpoint), Fixed(nonce), Fixed(key)]
  }

  function DatedFields(c: Bytes, text: Bytes, endpoint: Bytes, key: Key, issuedAt: nat): seq<Field>
  {
    [Prefixed(c), Prefixed(text), Prefixed(endpoint), Fixed(key), Uint(issuedAt)]
  }

  function AuthFields(c: Bytes, name: Bytes, endpoint: Bytes, challenge: Key, key: Key): seq<Field>
  {
    [Prefixed(c), Prefixed(name), Prefixed(endpoint), Fixed(challenge), Fixed(key)]
  }

  function StatementFields(s: Statement): seq<Field>
  {
    match s
    case OfGrant(g) => Parts(g).Fields(GRANT_CONTEXT)
    case OfCertificate(c) => KeyAgreement.CertificatePartsOf(c).Fields(KeyAgreement.KEY_AGREEMENT_CONTEXT)
    case OfRotation(r) => RotationFields(ROTATION_CONTEXT, Utf8(r.name), r)
    case OfDirectory(d) => DirectoryFields(d)
    case OfIdentity(endpoint, nonce, key) => IdentityFields(IDENTITY_CONTEXT, Utf8(endpoint), nonce, key)
    case OfRegistryProof(p, endpoint, key, issuedAt) =>
      DatedFields(REGISTRY_PROOF_CONTEXT, Utf8(ProofPurposeName(p)), Utf8(endpoint), key, issuedAt)
    case OfBinding(name, endpoint, key, issuedAt) =>
      DatedFields(BINDING_CONTEXT, Utf8(name), Utf8(endpoint), key, issuedAt)
    case OfServiceAuth(name, endpoint, challenge, key) =>
      AuthFields(SERVICE_AUTH_CONTEXT, Utf8(name), Utf8(endpoint), challenge, key)
  }

  function SignedBytes(s: Statement): Bytes { Canonical(StatementFields(s)) }

  function Kind(s: Statement): nat
  {
    match s
    case OfGrant(_) => 0 case OfCertificate(_) => 1 case OfRotation(_) => 2 case OfDirectory(_) => 3
    case OfIdentity(_, _, _) => 4 case OfRegistryProof(_, _, _, _) => 5
    case OfBinding(_, _, _, _) => 6 case OfServiceAuth(_, _, _, _) => 7
  }

  lemma ContextFirst(s: Statement)
    ensures StatementFields(s) != [] && StatementFields(s)[0] == Prefixed(Context(s))
  {
    match s {
      case OfDirectory(d) =>
        assert HeaderFields(DIRECTORY_CONTEXT, d.serial, d.issuedAt, d.expiresAt, |d.relays|)[0]
          == Prefixed(DIRECTORY_CONTEXT);
      case _ =>
    }
  }

  /** The eight tags have eight different lengths. */
  lemma ContextLength(s: Statement)
    ensures |Context(s)| == [12, 20, 26, 22, 21, 27, 28, 25][Kind(s)] <= 28
  {
  }

  lemma ContextIdentifiesKind(a: Statement, b: Statement)
    requires Context(a) == Context(b)
    ensures Kind(a) == Kind(b)
  {
    ContextLength(a);
    ContextLength(b);
  }

  /** No signature made under one context can stand for a statement of another. */
  lemma KindsNeverCollide(a: Statement, b: Statement)
    requires SignedBytes(a) == SignedBytes(b)
    ensures Kind(a) == Kind(b)
  {
    hide Canonical, StatementFields, Context, Kind;
    ContextFirst(a);
    ContextFirst(b);
    ContextLength(a);
    ContextLength(b);
    var fs, gs := StatementFields(a), StatementFields(b);
    FirstFieldAgrees(fs, gs, Context(a), Context(b));
    ContextIdentifiesKind(a, b);
  }

  lemma FirstFieldAgrees(fs: seq<Field>, gs: seq<Field>, c: Bytes, d: Bytes)
    requires fs != [] && gs != [] && fs[0] == Prefixed(c) && gs[0] == Prefixed(d)
    requires |c| < 0x1_0000_0000 && |d| < 0x1_0000_0000 && Canonical(fs) == Canonical(gs)
    ensures c == d
  {
    FieldCancel(fs[0], Canonical(fs[1..]), gs[0], Canonical(gs[1..]));
  }

  lemma IdentityInjective(c: Bytes, e: Bytes, n: Key, k: Key, e': Bytes, n': Key, k': Key)
    requires |c| < 0x1_0000_0000 && |e| < 0x1_0000_0000 && |e'| < 0x1_0000_0000
    requires Canonical(IdentityFields(c, e, n, k)) == Canonical(IdentityFields(c, e', n', k'))
    ensures e == e' && n == n' && k == k'
  {
    var fs, gs := IdentityFields(c, e, n, k), IdentityFields(c, e', n', k');
    CanonicalInjective(fs, gs);
    assert fs[1] == gs[1] && fs[2] == gs[2] && fs[3] == gs[3];
  }

  lemma DatedInjective(c: Bytes, t: Bytes, e: Bytes, k: Key, i: nat, t': Bytes, e': Bytes, k': Key, i': nat)
    requires |c| < 0x1_0000_0000 && |t| < 0x1_0000_0000 && |t'| < 0x1_0000_0000
    requires |e| < 0x1_0000_0000 && |e'| < 0x1_0000_0000 && IsUint(i) && IsUint(i')
    requires Canonical(DatedFields(c, t, e, k, i)) == Canonical(DatedFields(c, t', e', k', i'))
    ensures t == t' && e == e' && k == k' && i == i'
  {
    var fs, gs := DatedFields(c, t, e, k, i), DatedFields(c, t', e', k', i');
    CanonicalInjective(fs, gs);
    assert fs[1] == gs[1] && fs[2] == gs[2] && fs[3] == gs[3] && fs[4] == gs[4];
  }

  lemma AuthInjective(c: Bytes, t: Bytes, e: Bytes, x: Key, k: Key, t': Bytes, e': Bytes, x': Key, k': Key)
    requires |c| < 0x1_0000_0000 && |t| < 0x1_0000_0000 && |t'| < 0x1_0000_0000
    requires |e| < 0x1_0000_0000 && |e'| < 0x1_0000_0000
    requires Canonical(AuthFields(c, t, e, x, k)) == Canonical(AuthFields(c, t', e', x', k'))
    ensures t == t' && e == e' && x == x' && k == k'
  {
    var fs, gs := AuthFields(c, t, e, x, k), AuthFields(c, t', e', x', k');
    CanonicalInjective(fs, gs);
    assert fs[1] == gs[1] && fs[2] == gs[2] && fs[3] == gs[3] && fs[4] == gs[4];
  }

  lemma ShortText(s: JsString)
    requires |s| <= MAX_RELAY_ENDPOINT_LENGTH
    ensures |Utf8(s)| < 0x1_0000_0000
  {
    Utf8Length(s);
  }

  /** The same text once its lone surrogates are replaced. */
  predicate SameText(s: JsString, t: JsString) { Scalars(s) == Scalars(t) }

  /**
   The same statement: the order a grant lists its purposes in does not matter,
   nor which lone surrogates an endpoint holds. All other text is ASCII.
   */
  ghost predicate SameStatement(a: Statement, b: Statement)
  {
    if a.OfGrant? && b.OfGrant? then SameGrant(a.grant, b.grant)
    else if a.OfDirectory? && b.OfDirectory? then SameDirectory(a.directory, b.directory)
    else if HasEndpoint(a) && HasEndpoint(b) then a == b.(endpoint := a.endpoint) && SameText(a.endpoint, b.endpoint)
    else a == b
  }

  predicate HasEndpoint(s: Statement) { s.OfIdentity? || s.OfRegistryProof? || s.OfBinding? || s.OfServiceAuth? }

  lemma CertificateEqualIff(a: Statement, b: Statement)
    requires a.OfCertificate? && b.OfCertificate? && Signable(a) && Signable(b)
    ensures SignedBytes(a) == SignedBytes(b) <==> a == b
  {
    if SignedBytes(a) == SignedBytes(b) {
      KeyAgreement.CertificateBytesInjective(a.certificate, b.certificate);
    }
  }

  lemma RotationEqualIff(a: Statement, b: Statement)
    requires a.OfRotation? && b.OfRotation? && Signable(a) && Signable(b)
    ensures SignedBytes(a) == SignedBytes(b) <==> a == b
  {
    if SignedBytes(a) == SignedBytes(b) {
      RotationBytesInjective(a.rotation, b.rotation);
    }
  }

  lemma IdentityEqualIff(a: Statement, b: Statement)
    requires a.OfIdentity? && b.OfIdentity? && Signable(a) && Signable(b)
    ensures SignedBytes(a) == SignedBytes(b) <==> SameStatement(a, b)
  {
    hide Canonical, Utf8, Scalars;
    Utf8Equal(a.endpoint, b.endpoint);
    if SignedBytes(a) == SignedBytes(b) {
      ShortText(a.endpoint);
      ShortText(b.endpoint);
      IdentityInjective(IDENTITY_CONTEXT, Utf8(a.endpoint), a.nonce, a.relayKey, Utf8(b.endpoint), b.nonce, b.relayKey);
    }
  }

  lemma ProofEqualIff(a: Statement, b: Statement)
    requires a.OfRegistryProof? && b.OfRegistryProof? && Signable(a) && Signable(b)
    ensures SignedBytes(a) == SignedBytes(b) <==> SameStatement(a, b)
  {
    hide Canonical, Utf8, Scalars;
    Utf8Equal(a.endpoint, b.endpoint);
    if SignedBytes(a) == SignedBytes(b) {
      var s, t := ProofPurposeName(a.purpose), ProofPurposeName(b.purpose);
      ShortText(a.endpoint);
      ShortText(b.endpoint);
      ShortText(s);
      ShortText(t);
      DatedInjective(REGISTRY_PROOF_CONTEXT, Utf8(s), Utf8(a.endpoint), a.relayKey, a.issuedAt,
                     Utf8(t), Utf8(b.endpoint), b.relayKey, b.issuedAt);
      ProofPurposeBytes(a.purpose, b.purpose);
    }
  }

  lemma ProofPurposeBytes(p: ProofPurpose, q: ProofPurpose)
    requires Utf8(ProofPurposeName(p)) == Utf8(ProofPurposeName(q))
    ensures p == q
  {
    AsciiBytesInjective(ProofPurposeName(p), ProofPurposeName(q));
    assert |REGISTER| == 8 && |HEARTBEAT| == 9;
  }

  lemma BindingEqualIff(a: Statement, b: Statement)
    requires a.OfBinding? && b.OfBinding? && Signable(a) && Signable(b)
    ensures SignedBytes(a) == SignedBytes(b) <==> SameStatement(a, b)
  {
    hide Canonical, Utf8, Scalars;
    Utf8Equal(a.endpoint, b.endpoint);
    if SignedBytes(a) == SignedBytes(b) {
      ShortText(a.endpoint);
      ShortText(b.endpoint);
      ShortText(a.name);
      ShortText(b.name);
      DatedInjective(BINDING_CONTEXT, Utf8(a.name), Utf8(a.endpoint), a.relayKey, a.issuedAt,
                     Utf8(b.name), Utf8(b.endpoint), b.relayKey, b.issuedAt);
      KeyAgreement.ScopeBytes(a.name, b.name);
    }
  }

  lemma AuthEqualIff(a: Statement, b: Statement)
    requires a.OfServiceAuth? && b.OfServiceAuth? && Signable(a) && Signable(b)
    ensures SignedBytes(a) == SignedBytes(b) <==> SameStatement(a, b)
  {
    hide Canonical, Utf8, Scalars;
    Utf8Equal(a.endpoint, b.endpoint);
    if SignedBytes(a) == SignedBytes(b) {
      ShortText(a.endpoint);
      ShortText(b.endpoint);
      ShortText(a.name);
      ShortText(b.name);
      AuthInjective(SERVICE_AUTH_CONTEXT, Utf8(a.name), Utf8(a.endpoint), a.challenge, a.nodeKey,
                    Utf8(b.name), Utf8(b.endpoint), b.challenge, b.nodeKey);
      KeyAgreement.ScopeBytes(a.name, b.name);
    }
  }

  lemma SameKindSameBytesIff(a: Statement, b: Statement)
    requires Signable(a) && Signable(b) && Kind(a) == Kind(b)
    ensures SignedBytes(a) == SignedBytes(b) <==> SameStatement(a, b)
  {
    hide Canonical, Acceptable, Canonicalized, KeyAgreement.CanonicalCertificate, CanonicalRotation, SameDirectory,
      SameGrant, SameText;
    match a {
      case OfGrant(_) => GrantBytesEqualIff(a.grant, b.grant);
      case OfCertificate(_) => CertificateEqualIff(a, b);
      case OfRotation(_) => RotationEqualIff(a, b);
      case OfDirectory(_) => DirectoryBytesEqualIff(a.directory, b.directory);
      case OfIdentity(_, _, _) => IdentityEqualIff(a, b);
      case OfRegistryProof(_, _, _, _) => ProofEqualIff(a, b);
      case OfBinding(_, _, _, _) => BindingEqualIff(a, b);
      case OfServiceAuth(_, _, _, _) => AuthEqualIff(a, b);
    }
  }

  /** Two statements are signed as the same bytes if and only if they are the same statement. */
  lemma SignedBytesEqualIff(a: Statement, b: Statement)
    requires Signable(a) && Signable(b)
    ensures SignedBytes(a) == SignedBytes(b) <==> SameStatement(a, b)
  {
    hide SignedBytes, Signable;
    if SignedBytes(a) == SignedBytes(b) {
      KindsNeverCollide(a, b);
      SameKindSameBytesIff(a, b);
    } else if Kind(a) == Kind(b) {
      SameKindSameBytesIff(a, b);
    }
  }

  /** Where all text is well-formed a signed byte string means one statement. */
  lemma SignedBytesUnambiguous(a: Statement, b: Statement)
    requires Signable(a) && Signable(b) && WellFormedText(a) && WellFormedText(b)
    requires SignedBytes(a) == SignedBytes(b)
    ensures if a.OfGrant? && b.OfGrant? then SameGrant(a.grant, b.grant) else a == b
  {
    hide SignedBytes, Signable;
    SignedBytesEqualIff(a, b);
    if a.OfDirectory? && b.OfDirectory? {
      WellFormedSame(a.directory, b.directory);
    } else if HasEndpoint(a) && HasEndpoint(b) {
      UnitsOfScalars(a.endpoint);
      UnitsOfScalars(b.endpoint);
    }
  }
}
