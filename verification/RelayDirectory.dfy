/**
 The signed relay directory's format and verifier
 (packages/crypto/src/relay-directory.ts).
 */
module RelayDirectory {
  import opened Wrappers
  import Sequences
  import opened Bytes
  import opened Text
  import opened Encoding
  import opened Grants

  const DIRECTORY_CONTEXT: Bytes := Tag("tnp-relay-directory-v1")
  const RELAY_DIRECTORY_VERSION := 1
  const MAX_DIRECTORY_RELAYS := 256
  const MAX_DIRECTORY_BYTES := 128 * 1024
  const MAX_DIRECTORY_LIFETIME_SECONDS := 7 * 86_400
  const MAX_DIRECTORY_CLOCK_SKEW_SECONDS := 600
  const MAX_RELAY_CAPABILITIES := 8
  const MAX_RELAY_ENDPOINT_LENGTH := 512
  const MAX_RELAY_REGION_LENGTH := 64

  datatype Operator = Oxy | Community

  const OXY := Ascii("oxy")
  const COMMUNITY := Ascii("community")
  const WSS := Ascii("wss://")
  const WS := Ascii("ws://")

  function OperatorName(o: Operator): (s: JsString)
    ensures IsAscii(s) && |s| <= 9
  {
    match o case Oxy => OXY case Community => COMMUNITY
  }

  datatype ListedRelay = ListedRelay(
    endpoint: JsString, key: Key, operator: Operator, capabilities: seq<JsString>, region: JsString)

  datatype Directory = Directory(serial: nat, issuedAt: nat, expiresAt: nat, relays: seq<ListedRelay>)

  predicate IsEndpoint(e: JsString)
  {
    0 < |e| <= MAX_RELAY_ENDPOINT_LENGTH && (WSS <= e || WS <= e)
  }

  predicate IsCapability(c: JsString)
  {
    && 1 <= |c| <= 32 && 97 <= c[0] <= 122
    && forall i | 0 < i < |c| :: 97 <= c[i] <= 122 || 48 <= c[i] <= 57 || c[i] == 45
  }

  predicate IsRegion(r: JsString)
  {
    |r| <= MAX_RELAY_REGION_LENGTH && forall i | 0 <= i < |r| :: 0x20 <= r[i] <= 0x7e
  }

  /** What `parseRelay` accepts. */
  predicate AcceptableRelay(r: ListedRelay)
  {
    && IsEndpoint(r.endpoint)
    && |r.capabilities| <= MAX_RELAY_CAPABILITIES && Sequences.Distinct(r.capabilities)
    && (forall i | 0 <= i < |r.capabilities| :: IsCapability(r.capabilities[i]))
    && IsRegion(r.region)
  }

  /** What `parseDirectory` accepts. */
  predicate Acceptable(d: Directory)
  {
    && IsUint(d.serial) && IsUint(d.issuedAt) && IsUint(d.expiresAt)
    && 1 <= d.serial <= d.issuedAt < d.expiresAt <= d.issuedAt + MAX_DIRECTORY_LIFETIME_SECONDS
    && |d.relays| <= MAX_DIRECTORY_RELAYS
    && (forall i | 0 <= i < |d.relays| :: AcceptableRelay(d.relays[i]))
    && (forall i, j | 0 <= i < j < |d.relays| :: d.relays[i].endpoint != d.relays[j].endpoint)
  }

  // ---------------------------------------------------------------------
  // Canonical bytes
  // ---------------------------------------------------------------------

  function PrefixedAll(bs: seq<Bytes>): (fs: seq<Field>)
    ensures |fs| == |bs| && forall i | 0 <= i < |bs| :: fs[i] == Prefixed(bs[i])
  {
    seq(|bs|, i requires 0 <= i < |bs| => Prefixed(bs[i]))
  }

  datatype RelayParts = RelayParts(endpoint: Bytes, key: Key, operator: Bytes, capabilities: seq<Bytes>, region: Bytes)
  {
    function Head(): seq<Field> { [Prefixed(endpoint), Fixed(key), Prefixed(operator), Uint(|capabilities|)] }
    function Tail(): seq<Field> { PrefixedAll(capabilities) + [Prefixed(region)] }
    function Fields(): seq<Field> { Head() + Tail() }

    predicate Fit()
    {
      && |endpoint| < 0x1_0000_0000 && |operator| < 0x1_0000_0000 && |region| < 0x1_0000_0000
      && IsUint(|capabilities|) && forall i | 0 <= i < |capabilities| :: |capabilities[i]| < 0x1_0000_0000
    }
  }

  function FieldsOfAll(ps: seq<RelayParts>): seq<Field>
  {
    if ps == [] then [] else ps[0].Fields() + FieldsOfAll(ps[1..])
  }

  lemma {:induction false} FieldsOfAllSnoc(ps: seq<RelayParts>, p: RelayParts)
    ensures FieldsOfAll(ps + [p]) == FieldsOfAll(ps) + p.Fields()
  {
    if ps == [] {
      assert (ps + [p])[1..] == [] && FieldsOfAll([]) == [];
    } else {
      FieldsOfAllSnoc(ps[1..], p);
      assert (ps + [p])[1..] == ps[1..] + [p];
    }
  }

  function CapabilityBytes(cs: seq<JsString>): (bs: seq<Bytes>)
    ensures |bs| == |cs| && forall i | 0 <= i < |cs| :: bs[i] == Utf8(cs[i])
  {
    seq(|cs|, i requires 0 <= i < |cs| => Utf8(cs[i]))
  }

  function PartsOf(r: ListedRelay): RelayParts
  {
    RelayParts(Utf8(r.endpoint), r.key, Utf8(OperatorName(r.operator)), CapabilityBytes(r.capabilities), Utf8(r.region))
  }

  function AllParts(rs: seq<ListedRelay>): (ps: seq<RelayParts>)
    ensures |ps| == |rs| && forall i | 0 <= i < |rs| :: ps[i] == PartsOf(rs[i])
  {
    seq(|rs|, i requires 0 <= i < |rs| => PartsOf(rs[i]))
  }

  function HeaderFields(context: Bytes, serial: nat, issuedAt: nat, expiresAt: nat, count: nat): seq<Field>
  {
    [Prefixed(context), Uint(RELAY_DIRECTORY_VERSION), Uint(serial), Uint(issuedAt), Uint(expiresAt), Uint(count)]
  }

  function DirectoryFields(d: Directory): seq<Field>
  {
    HeaderFields(DIRECTORY_CONTEXT, d.serial, d.issuedAt, d.expiresAt, |d.relays|) + FieldsOfAll(AllParts(d.relays))
  }

  function DirectoryBytes(d: Directory): Bytes { Canonical(DirectoryFields(d)) }

  method WriteCapabilities(w: CanonicalWriter, capabilities: seq<JsString>)
    requires w.Valid()
    modifies w
    ensures w.Valid() && w.fields == old(w.fields) + PrefixedAll(CapabilityBytes(capabilities))
  {
    hide Canonical, Flatten;
    ghost var all := PrefixedAll(CapabilityBytes(capabilities));
    for i := 0 to |capabilities|
      invariant w.Valid() && w.fields == old(w.fields) + all[..i]
    {
      w.String(capabilities[i]);
    }
    assert all[..|capabilities|] == all;
  }

  /** One round of the relay loop of `encodeDirectory`. */
  method WriteRelay(w: CanonicalWriter, r: ListedRelay)
    requires w.Valid() && IsUint(|r.capabilities|)
    modifies w
    ensures w.Valid() && w.fields == old(w.fields) + PartsOf(r).Fields()
  {
    hide Canonical, Flatten;
    ghost var start, p := w.fields, PartsOf(r);
    w.String(r.endpoint);
    var _ := w.Fixed(r.key, PUBLIC_KEY_LENGTH);
    w.String(OperatorName(r.operator));
    var _ := w.Uint(|r.capabilities|);
    assert w.fields == start + p.Head();
    WriteCapabilities(w, r.capabilities);
    w.String(r.region);
    Regrouped(start, p);
  }

  lemma Regrouped(start: seq<Field>, p: RelayParts)
    ensures ((start + p.Head()) + PrefixedAll(p.capabilities)) + [Prefixed(p.region)] == start + p.Fields()
  {
  }

  method WriteRelays(w: CanonicalWriter, relays: seq<ListedRelay>)
    requires w.Valid() && forall i | 0 <= i < |relays| :: IsUint(|relays[i].capabilities|)
    modifies w
    ensures w.Valid() && w.fields == old(w.fields) + FieldsOfAll(AllParts(relays))
  {
    ghost var start, all := w.fields, AllParts(relays);
    NoRelays(start, all);
    hide Canonical, Flatten, PartsOf, FieldsOfAll, RelayParts.Fields;
    for i := 0 to |relays|
      invariant w.Valid() && w.fields == start + FieldsOfAll(all[..i])
    {
      WriteRelay(w, relays[i]);
      NextRelay(start, all, i);
    }
  }

  lemma NoRelays(start: seq<Field>, all: seq<RelayParts>)
    ensures start + FieldsOfAll(all[..0]) == start && all[..|all|] == all
  {
  }

  lemma NextRelay(start: seq<Field>, all: seq<RelayParts>, i: nat)
    requires i < |all|
    ensures (start + FieldsOfAll(all[..i])) + all[i].Fields() == start + FieldsOfAll(all[..i + 1])
  {
    assert all[..i + 1] == all[..i] + [all[i]];
    FieldsOfAllSnoc(all[..i], all[i]);
  }

  /** `encodeDirectory`; `None` is the "directory is too large" refusal. */
  method EncodeDirectory(d: Directory) returns (r: Option<array<byte>>)
    requires Acceptable(d)
    ensures r.None? <==> |DirectoryBytes(d)| > MAX_DIRECTORY_BYTES
    ensures r.Some? ==> r.value[..] == DirectoryBytes(d)
  {
    hide Canonical, Flatten;
    var w := new CanonicalWriter();
    w.BytesPrefixed(DIRECTORY_CONTEXT);
    var _ := w.Uint(RELAY_DIRECTORY_VERSION);
    var _ := w.Uint(d.serial);
    var _ := w.Uint(d.issuedAt);
    var _ := w.Uint(d.expiresAt);
    var _ := w.Uint(|d.relays|);
    assert w.fields == HeaderFields(DIRECTORY_CONTEXT, d.serial, d.issuedAt, d.expiresAt, |d.relays|);
    assert forall i | 0 <= i < |d.relays| :: AcceptableRelay(d.relays[i]);
    WriteRelays(w, d.relays);
    var bytes := w.Finish();
    if bytes.Length > MAX_DIRECTORY_BYTES {
      return None;
    }
    return Some(bytes);
  }

  // ---------------------------------------------------------------------
  // When two directories have one encoding
  // ---------------------------------------------------------------------

  lemma RelayCancel(p: RelayParts, x: Bytes, q: RelayParts, y: Bytes)
    requires p.Fit() && q.Fit() && Canonical(p.Fields()) + x == Canonical(q.Fields()) + y
    ensures p == q && x == y
  {
    SplitFields(p.Head(), p.Tail(), x);
    SplitFields(q.Head(), q.Tail(), y);
    CanonicalCancel(p.Head(), Canonical(p.Tail()) + x, q.Head(), Canonical(q.Tail()) + y);
    HeadDetermines(p, q);
    CanonicalCancel(p.Tail(), x, q.Tail(), y);
    TailDetermines(p, q);
  }

  lemma SplitFields(fs: seq<Field>, gs: seq<Field>, x: Bytes)
    ensures Canonical(fs + gs) + x == Canonical(fs) + (Canonical(gs) + x)
  {
    CanonicalConcat(fs, gs);
    var h, t := Canonical(fs), Canonical(gs);
    assert (h + t) + x == h + (t + x);
  }

  lemma HeadDetermines(p: RelayParts, q: RelayParts)
    requires p.Head() == q.Head()
    ensures p.endpoint == q.endpoint && p.key == q.key && p.operator == q.operator
    ensures |p.capabilities| == |q.capabilities| && SameShape(p.Tail(), q.Tail())
  {
    assert p.Head()[0] == q.Head()[0] && p.Head()[1] == q.Head()[1];
    assert p.Head()[2] == q.Head()[2] && p.Head()[3] == q.Head()[3];
  }

  lemma TailDetermines(p: RelayParts, q: RelayParts)
    requires p.Tail() == q.Tail() && |p.capabilities| == |q.capabilities|
    ensures p.capabilities == q.capabilities && p.region == q.region
  {
    var n := |p.capabilities|;
    assert p.Tail()[n] == q.Tail()[n];
    forall i | 0 <= i < n ensures p.capabilities[i] == q.capabilities[i] {
      assert p.Tail()[i] == q.Tail()[i];
    }
  }

  /** The same number of relays in the same bytes are the same relays. */
  lemma {:induction false} RelaysCancel(ps: seq<RelayParts>, qs: seq<RelayParts>)
    requires |ps| == |qs| && Canonical(FieldsOfAll(ps)) == Canonical(FieldsOfAll(qs))
    requires forall i | 0 <= i < |ps| :: ps[i].Fit() && qs[i].Fit()
    ensures ps == qs
  {
    if ps != [] {
      CanonicalConcat(ps[0].Fields(), FieldsOfAll(ps[1..]));
      CanonicalConcat(qs[0].Fields(), FieldsOfAll(qs[1..]));
      RelayCancel(ps[0], Canonical(FieldsOfAll(ps[1..])), qs[0], Canonical(FieldsOfAll(qs[1..])));
      RelaysCancel(ps[1..], qs[1..]);
      assert ps == [ps[0]] + ps[1..] && qs == [qs[0]] + qs[1..];
    }
  }

  lemma RelayFits(r: ListedRelay)
    requires AcceptableRelay(r)
    ensures PartsOf(r).Fit()
  {
    Utf8Length(r.endpoint);
    Utf8Length(r.region);
    Utf8Length(OperatorName(r.operator));
    forall i | 0 <= i < |r.capabilities| ensures |Utf8(r.capabilities[i])| < 0x1_0000_0000 {
      Utf8Length(r.capabilities[i]);
    }
  }

  /** Equal but for the spelling of lone surrogates in the endpoint. */
  predicate SameRelay(r: ListedRelay, s: ListedRelay)
  {
    r == s.(endpoint := r.endpoint) && Scalars(r.endpoint) == Scalars(s.endpoint)
  }

  lemma AsciiBytesInjective(s: JsString, t: JsString)
    requires IsAscii(s) && IsAscii(t) && Utf8(s) == Utf8(t)
    ensures s == t
  {
    AsciiUtf8(s);
    AsciiUtf8(t);
    Utf8Injective(s, t);
  }

  lemma OperatorBytesInjective(o: Operator, p: Operator)
    requires Utf8(OperatorName(o)) == Utf8(OperatorName(p))
    ensures o == p
  {
    AsciiBytesInjective(OperatorName(o), OperatorName(p));
    assert |OXY| == 3 && |COMMUNITY| == 9;
  }

  lemma SamePartsSameRelay(r: ListedRelay, s: ListedRelay)
    requires AcceptableRelay(r) && AcceptableRelay(s) && PartsOf(r) == PartsOf(s)
    ensures SameRelay(r, s)
  {
    Utf8Equal(r.endpoint, s.endpoint);
    OperatorBytesInjective(r.operator, s.operator);
    AsciiBytesInjective(r.region, s.region);
    var cs, ds := r.capabilities, s.capabilities;
    assert |cs| == |CapabilityBytes(cs)| == |CapabilityBytes(ds)| == |ds|;
    forall i | 0 <= i < |cs| ensures cs[i] == ds[i] {
      assert CapabilityBytes(cs)[i] == CapabilityBytes(ds)[i];
      AsciiBytesInjective(cs[i], ds[i]);
    }
  }

  lemma SameRelaySameParts(r: ListedRelay, s: ListedRelay)
    requires SameRelay(r, s)
    ensures PartsOf(r) == PartsOf(s)
  {
    Utf8Equal(r.endpoint, s.endpoint);
  }

  lemma HeaderCancel(c: Bytes, d: Directory, x: Bytes, e: Directory, y: Bytes)
    requires |c| < 0x1_0000_0000 && Acceptable(d) && Acceptable(e)
    requires Canonical(HeaderFields(c, d.serial, d.issuedAt, d.expiresAt, |d.relays|)) + x
          == Canonical(HeaderFields(c, e.serial, e.issuedAt, e.expiresAt, |e.relays|)) + y
    ensures x == y && d.serial == e.serial && d.issuedAt == e.issuedAt && d.expiresAt == e.expiresAt
    ensures |d.relays| == |e.relays|
  {
    var fs := HeaderFields(c, d.serial, d.issuedAt, d.expiresAt, |d.relays|);
    var gs := HeaderFields(c, e.serial, e.issuedAt, e.expiresAt, |e.relays|);
    CanonicalCancel(fs, x, gs, y);
    assert fs[2] == gs[2] && fs[3] == gs[3] && fs[4] == gs[4] && fs[5] == gs[5];
  }

  lemma SameHeader(d: Directory, e: Directory)
    requires Acceptable(d) && Acceptable(e) && DirectoryBytes(d) == DirectoryBytes(e)
    ensures d == e.(relays := d.relays) && |d.relays| == |e.relays|
    ensures Canonical(FieldsOfAll(AllParts(d.relays))) == Canonical(FieldsOfAll(AllParts(e.relays)))
  {
    var c := DIRECTORY_CONTEXT;
    var x, y := FieldsOfAll(AllParts(d.relays)), FieldsOfAll(AllParts(e.relays));
    CanonicalConcat(HeaderFields(c, d.serial, d.issuedAt, d.expiresAt, |d.relays|), x);
    CanonicalConcat(HeaderFields(c, e.serial, e.issuedAt, e.expiresAt, |e.relays|), y);
    HeaderCancel(c, d, Canonical(x), e, Canonical(y));
  }

  /** Equal up to the replaced surrogates of the endpoints. */
  predicate SameDirectory(d: Directory, e: Directory)
  {
    && d == e.(relays := d.relays) && |d.relays| == |e.relays|
    && forall i | 0 <= i < |d.relays| :: SameRelay(d.relays[i], e.relays[i])
  }

  /**
   The signed bytes determine an accepted directory exactly up to lone
   surrogates in relay endpoints: all counts, orders and boundaries are fixed.
   */
  lemma DirectoryBytesEqualIff(d: Directory, e: Directory)
    requires Acceptable(d) && Acceptable(e)
    ensures DirectoryBytes(d) == DirectoryBytes(e) <==> SameDirectory(d, e)
  {
    var ps, qs := AllParts(d.relays), AllParts(e.relays);
    if DirectoryBytes(d) == DirectoryBytes(e) {
      SameHeader(d, e);
      forall i | 0 <= i < |ps| ensures ps[i].Fit() && qs[i].Fit() {
        RelayFits(d.relays[i]);
        RelayFits(e.relays[i]);
      }
      RelaysCancel(ps, qs);
      forall i | 0 <= i < |ps| ensures SameRelay(d.relays[i], e.relays[i]) {
        SamePartsSameRelay(d.relays[i], e.relays[i]);
      }
    }
    if SameDirectory(d, e) {
      forall i | 0 <= i < |ps| ensures ps[i] == qs[i] {
        SameRelaySameParts(d.relays[i], e.relays[i]);
      }
      assert ps == qs;
    }
  }

  predicate WellFormedEndpoints(d: Directory)
  {
    forall i | 0 <= i < |d.relays| :: WellFormed(d.relays[i].endpoint)
  }

  lemma WellFormedSame(d: Directory, e: Directory)
    requires SameDirectory(d, e) && WellFormedEndpoints(d) && WellFormedEndpoints(e)
    ensures d == e
  {
    forall i | 0 <= i < |d.relays| ensures d.relays[i] == e.relays[i] {
      var s, t := d.relays[i].endpoint, e.relays[i].endpoint;
      assert WellFormed(s) && WellFormed(t) && SameRelay(d.relays[i], e.relays[i]);
      UnitsOfScalars(s);
      UnitsOfScalars(t);
    }
    assert d.relays == e.relays;
  }

  /** On directories whose endpoints are well-formed text the encoding is injective. */
  lemma DirectoryBytesInjective(d: Directory, e: Directory)
    requires Acceptable(d) && Acceptable(e) && WellFormedEndpoints(d) && WellFormedEndpoints(e)
    requires DirectoryBytes(d) == DirectoryBytes(e)
    ensures d == e
  {
    DirectoryBytesEqualIff(d, e);
    WellFormedSame(d, e);
  }

  /** Without well-formedness it is not: `wss://` followed by U+D800 and by U+FFFD sign alike. */
  lemma DirectoryBytesCollide(key: Key)
    ensures exists d, e :: Acceptable(d) && Acceptable(e) && d != e && DirectoryBytes(d) == DirectoryBytes(e)
  {
    var s, t := WSS + [0xD800], WSS + [0xFFFD];
    assert s[6] != t[6];
    LoneSurrogate(WSS, 0xD800);
    LoneSurrogate(WSS, 0xFFFD);
    var d, e := OneRelay(s, key), OneRelay(t, key);
    OneRelaySame(s, t, key);
  }

  function OneRelay(endpoint: JsString, key: Key): (d: Directory)
    requires IsEndpoint(endpoint)
    ensures Acceptable(d) && |d.relays| == 1 && d.relays[0].endpoint == endpoint
  {
    Directory(1, 1, 2, [ListedRelay(endpoint, key, Oxy, [], [])])
  }

  lemma OneRelaySame(s: JsString, t: JsString, key: Key)
    requires IsEndpoint(s) && IsEndpoint(t) && Scalars(s) == Scalars(t)
    ensures DirectoryBytes(OneRelay(s, key)) == DirectoryBytes(OneRelay(t, key))
  {
    DirectoryBytesEqualIff(OneRelay(s, key), OneRelay(t, key));
  }

  lemma {:induction false} LoneSurrogate(s: JsString, u: Unit)
    requires IsAscii(s) && (u == 0xD800 || u == 0xFFFD)
    ensures Scalars(s + [u]) == Scalars(s) + [REPLACEMENT]
  {
    if s == [] {
      assert s + [u] == [u] && [u][1..] == [];
    } else {
      assert (s + [u])[1..] == s[1..] + [u] && IsAscii(s[1..]);
      LoneSurrogate(s[1..], u);
    }
  }

  // ---------------------------------------------------------------------
  // Verification
  // ---------------------------------------------------------------------

  datatype Rejection = MalformedDirectory | Oversized | BadSignature | NotYetValid | Expired | RolledBack

  datatype DirectoryVerdict = Valid(signedBy: Key) | Refused(reason: Rejection)

  /** `trustedKeys.find`: the first pinned key that verifies the signature. */
  method FindSigner(trusted: seq<Key>, bytes: Bytes, signature: Bytes, verify: Verifier) returns (r: Option<Key>)
    ensures r == Signer(trusted, bytes, signature, verify)
  {
    for i := 0 to |trusted|
      invariant Signer(trusted, bytes, signature, verify) == Signer(trusted[i..], bytes, signature, verify)
    {
      if verify(bytes, signature, trusted[i]) {
        return Some(trusted[i]);
      }
    }
    return None;
  }

  function Signer(trusted: seq<Key>, bytes: Bytes, signature: Bytes, verify: Verifier): (r: Option<Key>)
    ensures r.Some? ==> r.value in trusted && verify(bytes, signature, r.value)
    ensures r.None? ==> forall k | k in trusted :: !verify(bytes, signature, k)
  {
    if trusted == [] then None
    else if verify(bytes, signature, trusted[0]) then Some(trusted[0])
    else Signer(trusted[1..], bytes, signature, verify)
  }

  /**
   `verifyRelayDirectory` on a parsed document (`None`: it did not parse). It is
   valid exactly when it is acceptable and not too large, some pinned key signed
   it, it is neither from the future nor expired, and it is not below `minSerial`.
   */
  function VerifyDirectory(parsed: Option<(Directory, Bytes)>, trusted: seq<Key>, now: nat, minSerial: Option<nat>,
                           verify: Verifier)
    : (r: DirectoryVerdict)
    ensures r.Valid? <==>
              && parsed.Some? && Acceptable(parsed.value.0) && |DirectoryBytes(parsed.value.0)| <= MAX_DIRECTORY_BYTES
              && (exists k | k in trusted :: verify(DirectoryBytes(parsed.value.0), parsed.value.1, k))
              && parsed.value.0.issuedAt <= now + MAX_DIRECTORY_CLOCK_SKEW_SECONDS && now < parsed.value.0.expiresAt
              && (minSerial.Some? ==> minSerial.value <= parsed.value.0.serial)
    ensures r.Valid? ==> r.signedBy in trusted && verify(DirectoryBytes(parsed.value.0), parsed.value.1, r.signedBy)
  {
    if parsed.None? || !Acceptable(parsed.value.0) then Refused(MalformedDirectory)
    else
      var (d, signature) := parsed.value;
      var bytes := DirectoryBytes(d);
      if |bytes| > MAX_DIRECTORY_BYTES then Refused(Oversized)
      else
        match Signer(trusted, bytes, signature, verify)
        case None => Refused(BadSignature)
        case Some(key) =>
          if d.issuedAt > now + MAX_DIRECTORY_CLOCK_SKEW_SECONDS then Refused(NotYetValid)
          else if now >= d.expiresAt then Refused(Expired)
          else if minSerial.Some? && d.serial < minSerial.value then Refused(RolledBack)
          else Valid(key)
  }

  /**
   A refusal names the first thing wrong: with the signature good, the reason
   depends on the time alone, and for no document on two of the time reasons.
   */
  lemma RefusalOverTime(parsed: Option<(Directory, Bytes)>, trusted: seq<Key>, now: nat, minSerial: Option<nat>,
                        verify: Verifier, t: nat)
    requires VerifyDirectory(parsed, trusted, now, minSerial, verify).Valid?
    ensures var d := parsed.value.0;
            var r := VerifyDirectory(parsed, trusted, t, minSerial, verify);
            && (r == Refused(NotYetValid) <==> t + MAX_DIRECTORY_CLOCK_SKEW_SECONDS < d.issuedAt)
            && (r == Refused(Expired) <==> d.expiresAt <= t)
            && (r.Valid? || r == Refused(NotYetValid) || r == Refused(Expired))
            && (r.Valid? ==> r == VerifyDirectory(parsed, trusted, now, minSerial, verify))
  {
    hide DirectoryBytes, Acceptable, Signer;
    assert Acceptable(parsed.value.0) && parsed.value.0.issuedAt < parsed.value.0.expiresAt by {
      DatesOrdered(parsed.value.0);
    }
  }

  lemma {:induction false} UintsLength(fs: seq<Field>)
    requires forall f | f in fs :: f.Uint?
    ensures |Canonical(fs)| == 8 * |fs|
  {
    if fs != [] {
      assert fs[0] in fs;
      UintsLength(fs[1..]);
    }
  }

  /** A directory without relays is far below the size limit. */
  lemma EmptyDirectoryShort(d: Directory)
    requires d.relays == []
    ensures |DirectoryBytes(d)| <= 200
  {
    var fs := HeaderFields(DIRECTORY_CONTEXT, d.serial, d.issuedAt, d.expiresAt, 0);
    assert FieldsOfAll(AllParts(d.relays)) == [];
    assert fs + [] == fs;
    UintsLength(fs[1..]);
  }

  lemma DatesOrdered(d: Directory)
    requires Acceptable(d)
    ensures d.serial <= d.issuedAt < d.expiresAt
  {
  }
}
