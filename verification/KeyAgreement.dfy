/**
 Key-agreement certificates (packages/crypto/src/key-agreement.ts): an X25519
 key certified by the key a grant chain authorizes.
 */
module KeyAgreement {
  import opened Wrappers
  import opened Bytes
  import opened Text
  import opened Encoding
  import Scope
  import opened Grants
  import opened GrantChains

  const MAX_KEY_AGREEMENT_LIFETIME := 7 * 24 * 60 * 60
  const KEY_AGREEMENT_CONTEXT: Bytes := Tag("tnp-key-agreement-v1")

  datatype Role = ForServiceNode | ForRelay

  function RolePurpose(r: Role): Purpose
  {
    match r case ForServiceNode => ServiceNode case ForRelay => Relay
  }

  datatype Certificate = Certificate(
    signer: Key, key: Key, role: Role, scope: JsString, notBefore: nat, notAfter: nat, serial: nat)

  /** What every parsed certificate satisfies (the X25519 point check is left uninterpreted). */
  predicate CanonicalCertificate(c: Certificate)
  {
    && Scope.IsValidScope(c.scope)
    && IsUint(c.notBefore) && IsUint(c.notAfter) && IsUint(c.serial)
    && c.notBefore < c.notAfter <= c.notBefore + MAX_KEY_AGREEMENT_LIFETIME
  }

  // ---------------------------------------------------------------------
  // Canonical bytes
  // ---------------------------------------------------------------------

  datatype CertificateParts = CertificateParts(
    signer: Key, key: Key, role: Bytes, scope: Bytes, notBefore: nat, notAfter: nat, serial: nat)
  {
    function Fields(context: Bytes): (fs: seq<Field>)
    {
      [Prefixed(context), Fixed(signer), Fixed(key), Prefixed(role), Prefixed(scope),
       Uint(notBefore), Uint(notAfter), Uint(serial)]
    }

    predicate Fit()
    {
      && |role| < 0x1_0000_0000 && |scope| < 0x1_0000_0000
      && IsUint(notBefore) && IsUint(notAfter) && IsUint(serial)
    }
  }

  lemma CertificatePartsInjective(c: Bytes, p: CertificateParts, q: CertificateParts)
    requires |c| < 0x1_0000_0000 && p.Fit() && q.Fit()
    requires Canonical(p.Fields(c)) == Canonical(q.Fields(c))
    ensures p == q
  {
    hide Canonical;
    var fs, gs := p.Fields(c), q.Fields(c);
    CanonicalInjective(fs, gs);
    assert fs[1] == gs[1] && fs[2] == gs[2] && fs[3] == gs[3] && fs[4] == gs[4];
    assert fs[5] == gs[5] && fs[6] == gs[6] && fs[7] == gs[7];
  }

  function CertificatePartsOf(c: Certificate): (p: CertificateParts)
  {
    CertificateParts(c.signer, c.key, Utf8(PurposeName(RolePurpose(c.role))), Utf8(c.scope),
                     c.notBefore, c.notAfter, c.serial)
  }

  function CertificateBytes(c: Certificate): Bytes
  {
    Canonical(CertificatePartsOf(c).Fields(KEY_AGREEMENT_CONTEXT))
  }

  lemma CertificateFits(c: Certificate)
    requires CanonicalCertificate(c)
    ensures CertificatePartsOf(c).Fit()
  {
    Utf8Length(c.scope);
    Utf8Length(PurposeName(RolePurpose(c.role)));
    NameShort(RolePurpose(c.role));
  }

  lemma SameCertificateParts(c: Certificate, d: Certificate)
    requires CanonicalCertificate(c) && CanonicalCertificate(d)
    requires CertificateBytes(c) == CertificateBytes(d)
    ensures CertificatePartsOf(c) == CertificatePartsOf(d)
  {
    CertificateFits(c);
    CertificateFits(d);
    CertificatePartsInjective(KEY_AGREEMENT_CONTEXT, CertificatePartsOf(c), CertificatePartsOf(d));
  }

  /** Equal signed bytes mean equal certificates. */
  lemma CertificateBytesInjective(c: Certificate, d: Certificate)
    requires CanonicalCertificate(c) && CanonicalCertificate(d)
    requires CertificateBytes(c) == CertificateBytes(d)
    ensures c == d
  {
    SameCertificateParts(c, d);
    CertificateFromParts(c, d);
  }

  lemma CertificateFromParts(c: Certificate, d: Certificate)
    requires Scope.IsValidScope(c.scope) && Scope.IsValidScope(d.scope)
    requires CertificatePartsOf(c) == CertificatePartsOf(d)
    ensures c == d
  {
    hide Utf8, PurposeName, Scope.IsValidScope;
    ScopeBytes(c.scope, d.scope);
    PurposeBytes(RolePurpose(c.role), RolePurpose(d.role));
  }

  lemma ScopeBytes(a: JsString, b: JsString)
    requires Scope.IsValidScope(a) && Scope.IsValidScope(b) && Utf8(a) == Utf8(b)
    ensures a == b
  {
    ScopeTextInjective(Some(a), Some(b));
  }

  lemma PurposeBytes(p: Purpose, q: Purpose)
    requires Utf8(PurposeName(p)) == Utf8(PurposeName(q))
    ensures p == q
  {
    AsciiUtf8(PurposeName(p));
    AsciiUtf8(PurposeName(q));
    Utf8Injective(PurposeName(p), PurposeName(q));
    PurposeNameInjective(p, q);
  }

  // ---------------------------------------------------------------------
  // Verification
  // ---------------------------------------------------------------------

  type GenuineCertificate = (Certificate, Bytes) -> bool

  /** The decision after parsing and chain verification, in the code's order. */
  function CertificateFailure(
    c: Certificate, sig: Bytes, chain: VerifyResult, o: Options, role: Role, name: JsString,
    genuine: GenuineCertificate): Option<VerifyFailure>
  {
    if !Scope.IsValidScope(name) then Some(ScopeRequired)
    else if chain.Rejected? then Some(chain.reason)
    else if chain.subject != c.signer then Some(ChainBroken)
    else if c.role != role then Some(PurposeNotGranted)
    else if c.scope != name then Some(ScopeMismatch)
    else if chain.scope.None? || !Scope.ScopeCovers(chain.scope.value, c.scope) then Some(ScopeMismatch)
    else if c.notBefore < chain.notBefore || c.notAfter > chain.notAfter then Some(WindowNotNested)
    else if o.now < c.notBefore then Some(NotYetValid)
    else if o.now >= c.notAfter then Some(Expired)
    else if c.key in o.revoked then Some(Revoked)
    else if (c.signer, c.key) in o.knownSerials && c.serial < o.knownSerials[(c.signer, c.key)] then Some(RolledBack)
    else if !genuine(c, sig) then Some(BadSignature)
    else None
  }

  /** The certificate `c` over the chain `gs` is accepted for `role` and `name`. */
  predicate CertificateAccepted(
    c: Certificate, sig: Bytes, gs: seq<Grant>, sigs: seq<Bytes>, o: Options, role: Role, name: JsString,
    genuine: Genuine, genuineCert: GenuineCertificate)
  {
    && CanonicalCertificate(c)
    && 1 <= |gs| == |sigs| && o.requirePurpose == RolePurpose(role)
    && CertificateFailure(c, sig, Verdict(gs, sigs, o, genuine), o, role, name, genuineCert).None?
  }

  /** What a certificate must be: for this role and name, from the leaf of an authorized chain, and current. */
  predicate Certified(
    c: Certificate, sig: Bytes, gs: seq<Grant>, sigs: seq<Bytes>, o: Options, role: Role, name: JsString,
    genuine: Genuine, genuineCert: GenuineCertificate)
  {
    && CanonicalCertificate(c) && 1 <= |gs| && Authorized(gs, sigs, o, genuine) && o.requirePurpose == RolePurpose(role)
    && c.signer == gs[0].subject && c.role == role && c.scope == name
    && gs[0].scope.Some? && LabelSuffix(gs[0].scope.value, name)
    && gs[0].notBefore <= c.notBefore <= o.now < c.notAfter <= gs[0].notAfter
    && c.key !in o.revoked && genuineCert(c, sig)
    && ((c.signer, c.key) in o.knownSerials ==> o.knownSerials[(c.signer, c.key)] <= c.serial)
  }

  /** A certificate is accepted if and only if it is that. */
  lemma CertificateAcceptedIff(
    c: Certificate, sig: Bytes, gs: seq<Grant>, sigs: seq<Bytes>, o: Options, role: Role, name: JsString,
    genuine: Genuine, genuineCert: GenuineCertificate)
    ensures CertificateAccepted(c, sig, gs, sigs, o, role, name, genuine, genuineCert)
       <==> Certified(c, sig, gs, sigs, o, role, name, genuine, genuineCert)
  {
    hide Authorized, Defective, LabelSuffix, Scope.ScopeCovers, Scope.IsValidScope, Verdict;
    AcceptedIff(gs, sigs, o, genuine);
    if 1 <= |gs| == |sigs| {
      VerdictExact(gs, sigs, o, genuine);
      if gs[0].scope.Some? {
        CoversIffLabels(gs[0].scope.value, c.scope);
      }
    } else {
      assert !Authorized(gs, sigs, o, genuine) by { AuthorizedSized(gs, sigs, o, genuine); }
    }
  }

  /** A refusal of a certificate whose chain is accepted names a defect it has. */
  predicate CertificateDefect(
    reason: VerifyFailure, c: Certificate, sig: Bytes, leaf: Grant, o: Options, role: Role, name: JsString,
    genuine: GenuineCertificate)
  {
    match reason
    case ScopeRequired => !Scope.IsValidScope(name)
    case ChainBroken => c.signer != leaf.subject
    case PurposeNotGranted => c.role != role
    case ScopeMismatch => c.scope != name || leaf.scope.None? || !LabelSuffix(leaf.scope.value, c.scope)
    case WindowNotNested => c.notBefore < leaf.notBefore || leaf.notAfter < c.notAfter
    case NotYetValid => o.now < c.notBefore
    case Expired => c.notAfter <= o.now
    case Revoked => c.key in o.revoked
    case RolledBack => (c.signer, c.key) in o.knownSerials && c.serial < o.knownSerials[(c.signer, c.key)]
    case BadSignature => !genuine(c, sig)
    case _ => false
  }

  lemma CertificateReason(
    c: Certificate, sig: Bytes, gs: seq<Grant>, sigs: seq<Bytes>, o: Options, role: Role, name: JsString,
    genuine: Genuine, genuineCert: GenuineCertificate)
    requires Authorized(gs, sigs, o, genuine)
    ensures var f := CertificateFailure(c, sig, Verdict(gs, sigs, o, genuine), o, role, name, genuineCert);
            f.Some? ==> CertificateDefect(f.value, c, sig, gs[0], o, role, name, genuineCert)
  {
    hide Authorized, Defective, LabelSuffix, Scope.ScopeCovers, Scope.IsValidScope, Verdict;
    AuthorizedSized(gs, sigs, o, genuine);
    VerdictExact(gs, sigs, o, genuine);
    if gs[0].scope.Some? {
      CoversIffLabels(gs[0].scope.value, c.scope);
    }
  }

  lemma AuthorizedSized(gs: seq<Grant>, sigs: seq<Bytes>, o: Options, genuine: Genuine)
    ensures Authorized(gs, sigs, o, genuine) ==> 1 <= |gs| == |sigs|
  {
  }

  /** An accepted certificate is contained in EVERY link of the chain beneath it. */
  lemma CertificateWithinChain(
    c: Certificate, sig: Bytes, gs: seq<Grant>, sigs: seq<Bytes>, o: Options, role: Role, name: JsString,
    genuine: Genuine, genuineCert: GenuineCertificate, j: nat)
    requires CertificateAccepted(c, sig, gs, sigs, o, role, name, genuine, genuineCert) && j < |gs|
    ensures Accepted(gs, sigs, o, genuine)
    ensures RolePurpose(c.role) in gs[j].purposes
    ensures gs[j].notBefore <= c.notBefore <= o.now < c.notAfter <= gs[j].notAfter
    ensures gs[j].scope.Some? ==> Scope.ScopeCovers(gs[j].scope.value, name)
    ensures gs[0].scope.Some? && c.scope == name && c.signer == gs[0].subject
    ensures gs[j].subject !in o.revoked && gs[j].issuer !in o.revoked && c.key !in o.revoked
  {
    ChainAuthority(gs, sigs, o, genuine, j);
    AcceptedLink(gs, sigs, o, genuine, j);
    if j > 0 {
      ChainNarrows(gs, sigs, o, genuine, 0, j);
      if gs[j].scope.Some? {
        Scope.CoversTransitive(gs[j].scope.value, gs[0].scope.value, c.scope);
      }
    }
  }

  /** With the other options fixed, acceptance over time is exactly the certificate's own window. */
  lemma CertificateWindow(
    c: Certificate, sig: Bytes, gs: seq<Grant>, sigs: seq<Bytes>, o: Options, role: Role, name: JsString,
    genuine: Genuine, genuineCert: GenuineCertificate, t: nat)
    requires CertificateAccepted(c, sig, gs, sigs, o, role, name, genuine, genuineCert)
    ensures CertificateAccepted(c, sig, gs, sigs, o.(now := t), role, name, genuine, genuineCert)
            <==> c.notBefore <= t < c.notAfter
  {
    CertificateWithinChain(c, sig, gs, sigs, o, role, name, genuine, genuineCert, 0);
    AcceptanceWindow(gs, sigs, o, genuine, t);
  }

  function CertificateBy(verify: Verifier): GenuineCertificate
  {
    (c: Certificate, sig: Bytes) => verify(CertificateBytes(c), sig, c.signer)
  }

  /** No grant of the chain and not the certificate itself is below its mark. */
  predicate NoneSuperseded(c: Certificate, gs: seq<Grant>, marks: map<(Key, Key), nat>)
  {
    && (forall g | g in gs :: Pair(g) in marks ==> marks[Pair(g)] <= g.serial)
    && ((c.signer, c.key) in marks ==> marks[(c.signer, c.key)] <= c.serial)
  }

  /** Serial marks add exactly that to everything else a certificate must pass. */
  lemma CertificateRollbackExact(
    c: Certificate, sig: Bytes, gs: seq<Grant>, sigs: seq<Bytes>, o: Options, role: Role, name: JsString,
    genuine: Genuine, genuineCert: GenuineCertificate, marks: map<(Key, Key), nat>)
    ensures CertificateAccepted(c, sig, gs, sigs, o.(knownSerials := marks), role, name, genuine, genuineCert)
       <==> && CertificateAccepted(c, sig, gs, sigs, o.(knownSerials := map[]), role, name, genuine, genuineCert)
            && NoneSuperseded(c, gs, marks)
  {
    hide ChainFailure, Scope.IsValidScope, Scope.ScopeCovers;
    var with, without := o.(knownSerials := marks), o.(knownSerials := map[]);
    if Accepted(gs, sigs, with, genuine) {
      RollbackExact(gs, sigs, with, genuine, marks);
      RollbackExact(gs, sigs, with, genuine, map[]);
    }
    if Accepted(gs, sigs, without, genuine) {
      RollbackExact(gs, sigs, without, genuine, marks);
    }
  }
}
