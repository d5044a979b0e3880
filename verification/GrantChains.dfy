/**
 Chain verification (packages/crypto/src/grants.ts, `verifyChainCore` and
 `verifyChain`). A chain is leaf first: each grant authorizes the issuer of the
 one before it, and the last is issued by a trusted root.
 */
module GrantChains {
  import opened Wrappers
  import Sequences
  import opened Bytes
  import Text
  import Encoding
  import Scope
  import opened Grants

  const MAX_CHAIN_DEPTH := 4

  datatype VerifyFailure =
    | BadSignature | NotYetValid | Expired | Revoked | PurposeNotGranted | ScopeMismatch
    | ScopeRequired | WindowNotNested | ChainBroken | ChainTooLong | UntrustedRoot | RolledBack | Malformed

  /** Roots and revoked keys are already parsed; serial marks are per issuer and subject. */
  datatype Options = Options(
    trustedRoots: set<Key>, now: nat, revoked: set<Key>,
    knownSerials: map<(Key, Key), nat>, requirePurpose: Purpose)

  datatype VerifyResult =
    | Verified(purposes: seq<Purpose>, subject: Key, scope: Option<Text.JsString>,
               notBefore: nat, notAfter: nat, serials: seq<((Key, Key), nat)>)
    | Rejected(reason: VerifyFailure)

  /** Whether a signature over a grant's canonical bytes is its issuer's. */
  type Genuine = (Grant, Bytes) -> bool

  function Pair(g: Grant): (Key, Key) { (g.issuer, g.subject) }

  /** The checks one grant must pass on its own, in the code's order. */
  function OwnFailure(g: Grant, sig: Bytes, o: Options, genuine: Genuine): Option<VerifyFailure>
  {
    if g.subject in o.revoked || g.issuer in o.revoked then Some(Revoked)
    else if o.now < g.notBefore then Some(NotYetValid)
    else if o.now >= g.notAfter then Some(Expired)
    else if Pair(g) in o.knownSerials && g.serial < o.knownSerials[Pair(g)] then Some(RolledBack)
    else if !genuine(g, sig) then Some(BadSignature)
    else None
  }

  /** The checks between a grant and the one below it. */
  function AdjacentFailure(g: Grant, child: Grant): Option<VerifyFailure>
  {
    if g.subject != child.issuer then Some(ChainBroken)
    else if Delegate !in g.purposes then Some(PurposeNotGranted)
    else if exists p | p in child.purposes :: p !in g.purposes then Some(PurposeNotGranted)
    else if g.scope.Some? && (child.scope.None? || !Scope.ScopeCovers(g.scope.value, child.scope.value)) then
      Some(ScopeMismatch)
    else if child.notBefore < g.notBefore || child.notAfter > g.notAfter then Some(WindowNotNested)
    else None
  }

  function LinkFailure(gs: seq<Grant>, sigs: seq<Bytes>, i: nat, o: Options, genuine: Genuine): Option<VerifyFailure>
    requires i < |gs| == |sigs|
  {
    var own := OwnFailure(gs[i], sigs[i], o, genuine);
    if own.Some? || i == 0 then own else AdjacentFailure(gs[i], gs[i - 1])
  }

  /** The first failing link at or after `i`. */
  function FirstFailure(gs: seq<Grant>, sigs: seq<Bytes>, i: nat, o: Options, genuine: Genuine)
    : (r: Option<VerifyFailure>)
    requires i <= |gs| == |sigs|
    ensures r.None? <==> forall k | i <= k < |gs| :: LinkFailure(gs, sigs, k, o, genuine).None?
    decreases |gs| - i
  {
    if i == |gs| then None
    else
      var f := LinkFailure(gs, sigs, i, o, genuine);
      if f.Some? then f else FirstFailure(gs, sigs, i + 1, o, genuine)
  }

  /** Every key of a connected chain: the leaf subject, then each issuer. */
  function ChainKeys(gs: seq<Grant>): (ks: seq<Key>)
    requires gs != []
    ensures |ks| == |gs| + 1
  {
    [gs[0].subject] + seq(|gs|, i requires 0 <= i < |gs| => gs[i].issuer)
  }

  function ChainFailure(gs: seq<Grant>, sigs: seq<Bytes>, o: Options, genuine: Genuine): Option<VerifyFailure>
    requires 1 <= |gs| == |sigs|
  {
    var f := FirstFailure(gs, sigs, 0, o, genuine);
    if f.Some? then f
    else if !Sequences.Distinct(ChainKeys(gs)) then Some(Malformed)
    else if gs[|gs| - 1].issuer !in o.trustedRoots then Some(UntrustedRoot)
    else if o.requirePurpose !in gs[0].purposes then Some(PurposeNotGranted)
    else None
  }

  predicate Accepted(gs: seq<Grant>, sigs: seq<Bytes>, o: Options, genuine: Genuine)
  {
    1 <= |gs| == |sigs| && ChainFailure(gs, sigs, o, genuine).None?
  }

  function Serials(gs: seq<Grant>): seq<((Key, Key), nat)>
  {
    seq(|gs|, i requires 0 <= i < |gs| => (Pair(gs[i]), gs[i].serial))
  }

  function Verdict(gs: seq<Grant>, sigs: seq<Bytes>, o: Options, genuine: Genuine): VerifyResult
    requires 1 <= |gs| == |sigs|
  {
    match ChainFailure(gs, sigs, o, genuine)
    case Some(reason) => Rejected(reason)
    case None =>
      var leaf := gs[0];
      Verified(leaf.purposes, leaf.subject, leaf.scope, leaf.notBefore, leaf.notAfter, Serials(gs))
  }

  predicate AdmittedAs(w: WireGrant, g: Grant, sig: Bytes)
  {
    Reads(w, g) && Encoding.Encodes(sig, w.signature) && |sig| == Encoding.SIGNATURE_LENGTH
  }

  function GenuineBy(verify: Verifier): Genuine
  {
    (g: Grant, sig: Bytes) => verify(GrantBytes(g), sig, g.issuer)
  }

  method ParseAdmitted(w: WireGrant) returns (r: Result<(Grant, Bytes)>)
    ensures r.Ok? ==> AdmittedAs(w, r.value.0, r.value.1)
    ensures r.Err? ==> forall g, sig :: !AdmittedAs(w, g, sig)
  {
    var g := ParseUnsigned(w);
    if g.Err? {
      return Err;
    }
    var sig := Encoding.DecodeBase64Strict(w.signature, Some(Encoding.SIGNATURE_LENGTH));
    if sig.Err? {
      return Err;
    }
    return Ok((g.value, sig.value));
  }

  /** Parses grant by grant; `parsed` stops at the first one without a reading. */
  method ParseChain(chain: seq<WireGrant>) returns (ok: bool, parsed: seq<Grant>, signatures: seq<Bytes>)
    ensures |parsed| == |signatures| <= |chain| && ok == (|parsed| == |chain|)
    ensures forall i | 0 <= i < |parsed| :: AdmittedAs(chain[i], parsed[i], signatures[i])
    ensures !ok ==> forall g, sig :: !AdmittedAs(chain[|parsed|], g, sig)
  {
    parsed, signatures := [], [];
    for i := 0 to |chain|
      invariant |parsed| == |signatures| == i
      invariant forall k | 0 <= k < i :: AdmittedAs(chain[k], parsed[k], signatures[k])
    {
      var r := ParseAdmitted(chain[i]);
      if r.Err? {
        return false, parsed, signatures;
      }
      parsed, signatures := parsed + [r.value.0], signatures + [r.value.1];
    }
    return true, parsed, signatures;
  }

  method CheckLinks(parsed: seq<Grant>, signatures: seq<Bytes>, o: Options, genuine: Genuine)
    returns (r: Option<VerifyFailure>)
    requires |parsed| == |signatures|
    ensures r == FirstFailure(parsed, signatures, 0, o, genuine)
  {
    for i := 0 to |parsed|
      invariant FirstFailure(parsed, signatures, 0, o, genuine) == FirstFailure(parsed, signatures, i, o, genuine)
    {
      var own := OwnFailure(parsed[i], signatures[i], o, genuine);
      if own.Some? {
        return own;
      }
      if i > 0 {
        var adjacent := AdjacentFailure(parsed[i], parsed[i - 1]);
        if adjacent.Some? {
          return adjacent;
        }
      }
    }
    return None;
  }

  /**
   `verifyChainCore`. The result is decided by the readings of the grants: the
   parsed prefix `gs` is everything up to the first unreadable grant.
   */
  method VerifyChainCore(chain: seq<WireGrant>, o: Options, verify: Verifier)
    returns (r: VerifyResult, ghost gs: seq<Grant>, ghost sigs: seq<Bytes>)
    ensures |gs| == |sigs| <= |chain|
    ensures forall i | 0 <= i < |gs| :: AdmittedAs(chain[i], gs[i], sigs[i])
    ensures chain == [] ==> r == Rejected(Malformed)
    ensures |chain| > MAX_CHAIN_DEPTH ==> r == Rejected(ChainTooLong)
    ensures 1 <= |chain| <= MAX_CHAIN_DEPTH && |gs| < |chain| ==>
              r == Rejected(Malformed) && forall g, sig :: !AdmittedAs(chain[|gs|], g, sig)
    ensures 1 <= |chain| <= MAX_CHAIN_DEPTH && |gs| == |chain| ==> r == Verdict(gs, sigs, o, GenuineBy(verify))
    ensures r.Verified? <==> |chain| <= MAX_CHAIN_DEPTH && |gs| == |chain| && Authorized(gs, sigs, o, GenuineBy(verify))
  {
    gs, sigs := [], [];
    if chain == [] {
      return Rejected(Malformed), gs, sigs;
    }
    if |chain| > MAX_CHAIN_DEPTH {
      return Rejected(ChainTooLong), gs, sigs;
    }
    var ok, parsed, signatures := ParseChain(chain);
    gs, sigs := parsed, signatures;
    if !ok {
      return Rejected(Malformed), gs, sigs;
    }
    var genuine := GenuineBy(verify);
    AcceptedIff(parsed, signatures, o, genuine);
    var failure := CheckLinks(parsed, signatures, o, genuine);
    if failure.Some? {
      return Rejected(failure.value), gs, sigs;
    }
    if !Sequences.Distinct(ChainKeys(parsed)) {
      return Rejected(Malformed), gs, sigs;
    }
    if parsed[|parsed| - 1].issuer !in o.trustedRoots {
      return Rejected(UntrustedRoot), gs, sigs;
    }
    var leaf := parsed[0];
    if o.requirePurpose !in leaf.purposes {
      return Rejected(PurposeNotGranted), gs, sigs;
    }
    r := Verified(leaf.purposes, leaf.subject, leaf.scope, leaf.notBefore, leaf.notAfter, Serials(parsed));
  }

  // ---------------------------------------------------------------------
  // What acceptance means for the whole chain
  // ---------------------------------------------------------------------

  /** `c` claims nothing that `p` does not hold. */
  predicate Within(c: Grant, p: Grant)
  {
    && (forall x | x in c.purposes :: x in p.purposes)
    && p.notBefore <= c.notBefore && c.notAfter <= p.notAfter
    && (p.scope.Some? ==> c.scope.Some? && Scope.ScopeCovers(p.scope.value, c.scope.value))
  }

  lemma WithinTransitive(a: Grant, b: Grant, c: Grant)
    requires Within(a, b) && Within(b, c)
    ensures Within(a, c)
  {
    if c.scope.Some? {
      Scope.CoversTransitive(c.scope.value, b.scope.value, a.scope.value);
    }
  }

  lemma AcceptedLink(gs: seq<Grant>, sigs: seq<Bytes>, o: Options, genuine: Genuine, i: nat)
    requires Accepted(gs, sigs, o, genuine) && i < |gs|
    ensures OwnFailure(gs[i], sigs[i], o, genuine).None?
    ensures i > 0 ==> AdjacentFailure(gs[i], gs[i - 1]).None?
  {
    assert LinkFailure(gs, sigs, i, o, genuine).None?;
  }

  /** Adjacent checks narrow globally: a lower grant is within every grant above it. */
  lemma {:induction false} ChainNarrows(gs: seq<Grant>, sigs: seq<Bytes>, o: Options, genuine: Genuine, i: nat, j: nat)
    requires Accepted(gs, sigs, o, genuine) && i < j < |gs|
    ensures Within(gs[i], gs[j])
    decreases j
  {
    AcceptedLink(gs, sigs, o, genuine, j);
    if i < j - 1 {
      ChainNarrows(gs, sigs, o, genuine, i, j - 1);
      WithinTransitive(gs[i], gs[j - 1], gs[j]);
    }
  }

  /**
   In an accepted chain every grant above the leaf delegates, every grant is
   signed by its issuer and holds the required purpose, the keys are pairwise
   distinct, and the chain hangs from a trusted root.
   */
  lemma ChainAuthority(gs: seq<Grant>, sigs: seq<Bytes>, o: Options, genuine: Genuine, i: nat)
    requires Accepted(gs, sigs, o, genuine) && i < |gs|
    ensures genuine(gs[i], sigs[i]) && o.requirePurpose in gs[i].purposes
    ensures i > 0 ==> Delegate in gs[i].purposes && gs[i].subject == gs[i - 1].issuer
    ensures Sequences.Distinct(ChainKeys(gs)) && ChainKeys(gs)[|gs|] in o.trustedRoots
  {
    AcceptedLink(gs, sigs, o, genuine, i);
    if i > 0 {
      ChainNarrows(gs, sigs, o, genuine, 0, i);
    }
  }

  /**
   With the other options fixed, an accepted chain is accepted at another time
   exactly when that time is in the LEAF's half-open window.
   */
  lemma AcceptanceWindow(gs: seq<Grant>, sigs: seq<Bytes>, o: Options, genuine: Genuine, t: nat)
    requires Accepted(gs, sigs, o, genuine)
    ensures Accepted(gs, sigs, o.(now := t), genuine) <==> gs[0].notBefore <= t < gs[0].notAfter
  {
    var o' := o.(now := t);
    if Accepted(gs, sigs, o', genuine) {
      AcceptedLink(gs, sigs, o', genuine, 0);
    }
    if gs[0].notBefore <= t < gs[0].notAfter {
      forall k | 0 <= k < |gs| ensures LinkFailure(gs, sigs, k, o', genuine).None? {
        AcceptedLink(gs, sigs, o, genuine, k);
        if k > 0 {
          ChainNarrows(gs, sigs, o, genuine, 0, k);
        }
      }
    }
  }

  /** Revoking further keys refuses an accepted chain exactly when one of them is in it. */
  lemma RevocationExact(gs: seq<Grant>, sigs: seq<Bytes>, o: Options, genuine: Genuine, extra: set<Key>)
    requires Accepted(gs, sigs, o, genuine)
    ensures Accepted(gs, sigs, o.(revoked := o.revoked + extra), genuine)
            <==> forall k | k in ChainKeys(gs) :: k !in extra
  {
    var o' := o.(revoked := o.revoked + extra);
    var ks := ChainKeys(gs);
    if Accepted(gs, sigs, o', genuine) {
      forall k | k in ks ensures k !in extra {
        var i :| 0 <= i < |ks| && ks[i] == k;
        AcceptedLink(gs, sigs, o', genuine, if i == 0 then 0 else i - 1);
      }
    }
    if forall k | k in ks :: k !in extra {
      forall k | 0 <= k < |gs| ensures LinkFailure(gs, sigs, k, o', genuine).None? {
        AcceptedLink(gs, sigs, o, genuine, k);
        assert ks[k + 1] == gs[k].issuer && ks[k + 1] in ks;
        assert ks[k] == gs[k].subject && ks[k] in ks;
      }
    }
  }

  /** Other serial marks refuse an accepted chain exactly when one of its grants is below its mark. */
  lemma RollbackExact(gs: seq<Grant>, sigs: seq<Bytes>, o: Options, genuine: Genuine, marks: map<(Key, Key), nat>)
    requires Accepted(gs, sigs, o, genuine)
    ensures Accepted(gs, sigs, o.(knownSerials := marks), genuine)
            <==> forall g | g in gs :: Pair(g) in marks ==> marks[Pair(g)] <= g.serial
  {
    var o' := o.(knownSerials := marks);
    if Accepted(gs, sigs, o', genuine) {
      forall g | g in gs ensures Pair(g) in marks ==> marks[Pair(g)] <= g.serial {
        var i :| 0 <= i < |gs| && gs[i] == g;
        AcceptedLink(gs, sigs, o', genuine, i);
      }
    }
    if forall g | g in gs :: Pair(g) in marks ==> marks[Pair(g)] <= g.serial {
      forall k | 0 <= k < |gs| ensures LinkFailure(gs, sigs, k, o', genuine).None? {
        AcceptedLink(gs, sigs, o, genuine, k);
        assert gs[k] in gs;
      }
    }
  }

  // ---------------------------------------------------------------------
  // Exactly which chains are accepted, and why others are not
  // ---------------------------------------------------------------------

  /** The grant stands on its own at the time of the check. */
  predicate Stands(g: Grant, sig: Bytes, o: Options, genuine: Genuine)
  {
    && genuine(g, sig) && g.notBefore <= o.now < g.notAfter
    && g.subject !in o.revoked && g.issuer !in o.revoked
    && (Pair(g) in o.knownSerials ==> o.knownSerials[Pair(g)] <= g.serial)
  }

  /** `p` is the name `c` or one above it, label by label from the right. */
  predicate LabelSuffix(p: Text.JsString, c: Text.JsString)
  {
    && Scope.IsValidScope(p) && Scope.IsValidScope(c)
    && var above, below := Scope.Labels(p), Scope.Labels(c);
       |above| <= |below| && forall i | 0 <= i < |above| :: below[|below| - |above| + i] == above[i]
  }

  /** `p` authorizes the issuer of `c` to grant what `c` grants. */
  predicate Authorizes(p: Grant, c: Grant)
  {
    && p.subject == c.issuer && Delegate in p.purposes
    && (forall x | x in c.purposes :: x in p.purposes)
    && p.notBefore <= c.notBefore && c.notAfter <= p.notAfter
    && (p.scope.Some? ==> c.scope.Some? && LabelSuffix(p.scope.value, c.scope.value))
  }

  /** No key comes twice: not the leaf's subject, not an issuer. */
  predicate KeysDiffer(gs: seq<Grant>)
    requires gs != []
  {
    && (forall i | 0 <= i < |gs| :: gs[i].issuer != gs[0].subject)
    && (forall i, j | 0 <= i < j < |gs| :: gs[i].issuer != gs[j].issuer)
  }

  /** What a chain must be. */
  predicate Authorized(gs: seq<Grant>, sigs: seq<Bytes>, o: Options, genuine: Genuine)
  {
    && 1 <= |gs| == |sigs|
    && (forall i | 0 <= i < |gs| :: Stands(gs[i], sigs[i], o, genuine))
    && (forall i | 0 < i < |gs| :: Authorizes(gs[i], gs[i - 1]))
    && KeysDiffer(gs) && gs[|gs| - 1].issuer in o.trustedRoots && o.requirePurpose in gs[0].purposes
  }

  lemma CoversIffLabels(p: Text.JsString, c: Text.JsString)
    ensures Scope.ScopeCovers(p, c) <==> LabelSuffix(p, c)
  {
    hide Scope.IsValidScope, Scope.ScopeCovers, Scope.Labels;
    CoversOnlyValid(p, c);
    if Scope.IsValidScope(p) && Scope.IsValidScope(c) {
      Scope.CoversIffLabelSuffix(p, c);
      var above, below := Scope.Labels(p), Scope.Labels(c);
      if |above| <= |below| {
        var tail := below[|below| - |above|..];
        assert forall i | 0 <= i < |above| :: tail[i] == below[|below| - |above| + i];
        assert (forall i | 0 <= i < |above| :: tail[i] == above[i]) ==> tail == above;
      }
    }
  }

  lemma CoversOnlyValid(p: Text.JsString, c: Text.JsString)
    ensures Scope.ScopeCovers(p, c) ==> Scope.IsValidScope(p) && Scope.IsValidScope(c)
  {
  }

  lemma OwnIff(g: Grant, sig: Bytes, o: Options, genuine: Genuine)
    ensures OwnFailure(g, sig, o, genuine).None? <==> Stands(g, sig, o, genuine)
  {
  }

  lemma AdjacentIff(g: Grant, child: Grant)
    ensures AdjacentFailure(g, child).None? <==> Authorizes(g, child)
  {
    hide LabelSuffix, Scope.ScopeCovers;
    if g.scope.Some? && child.scope.Some? {
      CoversIffLabels(g.scope.value, child.scope.value);
    }
  }

  lemma KeysIff(gs: seq<Grant>)
    requires gs != []
    ensures Sequences.Distinct(ChainKeys(gs)) <==> KeysDiffer(gs)
  {
    var ks := ChainKeys(gs);
    assert ks[0] == gs[0].subject && forall i | 0 <= i < |gs| :: ks[i + 1] == gs[i].issuer;
    if Sequences.Distinct(ks) {
      forall i | 0 <= i < |gs| ensures gs[i].issuer != gs[0].subject { assert ks[0] != ks[i + 1]; }
      forall i, j | 0 <= i < j < |gs| ensures gs[i].issuer != gs[j].issuer { assert ks[i + 1] != ks[j + 1]; }
    }
    if KeysDiffer(gs) {
      forall i, j | 0 <= i < j < |ks| ensures ks[i] != ks[j] {
        assert ks[j] == gs[j - 1].issuer;
        if i > 0 { assert ks[i] == gs[i - 1].issuer; }
      }
    }
  }

  lemma LinkIff(gs: seq<Grant>, sigs: seq<Bytes>, i: nat, o: Options, genuine: Genuine)
    requires i < |gs| == |sigs|
    ensures LinkFailure(gs, sigs, i, o, genuine).None?
       <==> Stands(gs[i], sigs[i], o, genuine) && (i > 0 ==> Authorizes(gs[i], gs[i - 1]))
  {
    hide OwnFailure, AdjacentFailure, Stands, Authorizes;
    OwnIff(gs[i], sigs[i], o, genuine);
    if i > 0 {
      AdjacentIff(gs[i], gs[i - 1]);
    }
  }

  /** A chain is accepted if and only if it is authorized. */
  lemma AcceptedIff(gs: seq<Grant>, sigs: seq<Bytes>, o: Options, genuine: Genuine)
    ensures Accepted(gs, sigs, o, genuine) <==> Authorized(gs, sigs, o, genuine)
  {
    hide LinkFailure, Stands, Authorizes, ChainKeys, KeysDiffer;
    if 1 <= |gs| == |sigs| {
      KeysIff(gs);
      if Authorized(gs, sigs, o, genuine) {
        forall i | 0 <= i < |gs| ensures LinkFailure(gs, sigs, i, o, genuine).None? {
          LinkIff(gs, sigs, i, o, genuine);
        }
      }
      if Accepted(gs, sigs, o, genuine) {
        forall i | 0 <= i < |gs|
          ensures Stands(gs[i], sigs[i], o, genuine) && (i > 0 ==> Authorizes(gs[i], gs[i - 1]))
        {
          LinkIff(gs, sigs, i, o, genuine);
        }
      }
    }
  }

  /** The defect a reason names, in link `i`. */
  predicate DefectAt(reason: VerifyFailure, gs: seq<Grant>, sigs: seq<Bytes>, o: Options, genuine: Genuine, i: nat)
    requires i < |gs| == |sigs|
  {
    var g := gs[i];
    match reason
    case Revoked => g.subject in o.revoked || g.issuer in o.revoked
    case NotYetValid => o.now < g.notBefore
    case Expired => g.notAfter <= o.now
    case RolledBack => Pair(g) in o.knownSerials && g.serial < o.knownSerials[Pair(g)]
    case BadSignature => !genuine(g, sigs[i])
    case ChainBroken => i > 0 && g.subject != gs[i - 1].issuer
    case PurposeNotGranted =>
      i > 0 && (Delegate !in g.purposes || exists p | p in gs[i - 1].purposes :: p !in g.purposes)
    case ScopeMismatch =>
      i > 0 && g.scope.Some? && (gs[i - 1].scope.None? || !LabelSuffix(g.scope.value, gs[i - 1].scope.value))
    case WindowNotNested => i > 0 && (gs[i - 1].notBefore < g.notBefore || g.notAfter < gs[i - 1].notAfter)
    case _ => false
  }

  /** The links below `i` are in order. */
  predicate GoodBelow(gs: seq<Grant>, sigs: seq<Bytes>, o: Options, genuine: Genuine, i: nat)
    requires i <= |gs| == |sigs|
  {
    forall k | 0 <= k < i :: Stands(gs[k], sigs[k], o, genuine) && (k > 0 ==> Authorizes(gs[k], gs[k - 1]))
  }

  /** A refusal names a defect of the first link that has one, or, if none has, of the whole chain. */
  ghost predicate Defective(reason: VerifyFailure, gs: seq<Grant>, sigs: seq<Bytes>, o: Options, genuine: Genuine)
    requires 1 <= |gs| == |sigs|
  {
    || (exists i: nat | i < |gs| :: GoodBelow(gs, sigs, o, genuine, i) && DefectAt(reason, gs, sigs, o, genuine, i))
    || (&& GoodBelow(gs, sigs, o, genuine, |gs|)
        && match reason
           case Malformed => !KeysDiffer(gs)
           case UntrustedRoot => gs[|gs| - 1].issuer !in o.trustedRoots
           case PurposeNotGranted => o.requirePurpose !in gs[0].purposes
           case _ => false)
  }

  lemma LinkDefect(gs: seq<Grant>, sigs: seq<Bytes>, i: nat, o: Options, genuine: Genuine)
    requires i < |gs| == |sigs| && LinkFailure(gs, sigs, i, o, genuine).Some?
    ensures DefectAt(LinkFailure(gs, sigs, i, o, genuine).value, gs, sigs, o, genuine, i)
  {
    hide LabelSuffix, Scope.ScopeCovers;
    if i > 0 && gs[i].scope.Some? && gs[i - 1].scope.Some? {
      CoversIffLabels(gs[i].scope.value, gs[i - 1].scope.value);
    }
  }

  lemma {:induction false} FirstDefect(gs: seq<Grant>, sigs: seq<Bytes>, i: nat, o: Options, genuine: Genuine)
    requires i <= |gs| == |sigs| && GoodBelow(gs, sigs, o, genuine, i) && FirstFailure(gs, sigs, i, o, genuine).Some?
    ensures exists j: nat | j < |gs| ::
              GoodBelow(gs, sigs, o, genuine, j)
              && DefectAt(FirstFailure(gs, sigs, i, o, genuine).value, gs, sigs, o, genuine, j)
    decreases |gs| - i
  {
    hide OwnFailure, AdjacentFailure, Stands, Authorizes, DefectAt;
    if LinkFailure(gs, sigs, i, o, genuine).Some? {
      LinkDefect(gs, sigs, i, o, genuine);
    } else {
      LinkIff(gs, sigs, i, o, genuine);
      FirstDefect(gs, sigs, i + 1, o, genuine);
    }
  }

  /** The verdict: the leaf's own data exactly for an authorized chain, otherwise a reason that is true. */
  lemma VerdictExact(gs: seq<Grant>, sigs: seq<Bytes>, o: Options, genuine: Genuine)
    requires 1 <= |gs| == |sigs|
    ensures var r := Verdict(gs, sigs, o, genuine);
            if Authorized(gs, sigs, o, genuine) then
              && r.Verified? && r.purposes == gs[0].purposes && r.subject == gs[0].subject && r.scope == gs[0].scope
              && r.notBefore == gs[0].notBefore && r.notAfter == gs[0].notAfter && |r.serials| == |gs|
              && forall i | 0 <= i < |gs| :: r.serials[i] == ((gs[i].issuer, gs[i].subject), gs[i].serial)
            else r.Rejected? && Defective(r.reason, gs, sigs, o, genuine)
  {
    hide Authorized, DefectAt, GoodBelow, FirstFailure, KeysDiffer, ChainKeys;
    AcceptedIff(gs, sigs, o, genuine);
    KeysIff(gs);
    if FirstFailure(gs, sigs, 0, o, genuine).Some? {
      assert GoodBelow(gs, sigs, o, genuine, 0) by { NothingBelow(gs, sigs, o, genuine); }
      FirstDefect(gs, sigs, 0, o, genuine);
    } else {
      AllGood(gs, sigs, o, genuine);
    }
  }

  lemma NothingBelow(gs: seq<Grant>, sigs: seq<Bytes>, o: Options, genuine: Genuine)
    requires |gs| == |sigs|
    ensures GoodBelow(gs, sigs, o, genuine, 0)
  {
  }

  lemma AllGood(gs: seq<Grant>, sigs: seq<Bytes>, o: Options, genuine: Genuine)
    requires |gs| == |sigs| && FirstFailure(gs, sigs, 0, o, genuine).None?
    ensures GoodBelow(gs, sigs, o, genuine, |gs|)
  {
    hide OwnFailure, AdjacentFailure, Stands, Authorizes;
    forall k | 0 <= k < |gs|
      ensures Stands(gs[k], sigs[k], o, genuine) && (k > 0 ==> Authorizes(gs[k], gs[k - 1]))
    {
      assert LinkFailure(gs, sigs, k, o, genuine).None?;
      LinkIff(gs, sigs, k, o, genuine);
    }
  }

  // ---------------------------------------------------------------------
  // verifyChain
  // ---------------------------------------------------------------------

  /** `verifyChain`: the leaf must be bound to exactly the requested name. */
  function ScopedVerdict(core: VerifyResult, purpose: Purpose, requireScope: Option<Text.JsString>): (r: VerifyResult)
    ensures r.Verified? <==>
              && core.Verified? && (IsScopedPurpose(purpose) ==> requireScope.Some?)
              && (requireScope.Some? ==> core.scope == requireScope && Scope.IsValidScope(requireScope.value))
    ensures r.Verified? ==> r == core
    ensures r.Rejected? ==>
              || r == core || (r.reason == ScopeMismatch && core.Verified? && core.scope != requireScope)
              || (r.reason == ScopeRequired && (requireScope.Some? ==> !Scope.IsValidScope(requireScope.value)))
  {
    if (requireScope.Some? || IsScopedPurpose(purpose))
      && (requireScope.None? || !Scope.IsValidScope(requireScope.value))
    then Rejected(ScopeRequired)
    else if core.Rejected? then core
    else if requireScope.Some? && core.scope != requireScope then Rejected(ScopeMismatch)
    else core
  }
}
