/**
 Grant chains (packages/crypto/src/grants.ts). The verifier only compares each
 grant with the one below it; the theorems here are about the whole chain.
 */
module Grants {
  import opened Wrappers
  import Sequences
  import opened Bytes
  import opened Text
  import opened Encoding
  import Scope

  type Key = k: Bytes | |k| == PUBLIC_KEY_LENGTH witness seq(PUBLIC_KEY_LENGTH, _ => 0)

  /** Ed25519 verification of a signature over bytes by a key, left uninterpreted. */
  type Verifier = (Bytes, Bytes, Key) -> bool

  datatype Purpose = Client | Delegate | DomainRecords | Relay | ServiceNode

  const CLIENT := Ascii("client")
  const DELEGATE := Ascii("delegate")
  const DOMAIN_RECORDS := Ascii("domain-records")
  const RELAY := Ascii("relay")
  const SERVICE_NODE := Ascii("service-node")

  function PurposeName(p: Purpose): (s: JsString)
    ensures IsAscii(s)
  {
    match p
    case Client => CLIENT
    case Delegate => DELEGATE
    case DomainRecords => DOMAIN_RECORDS
    case Relay => RELAY
    case ServiceNode => SERVICE_NODE
  }

  predicate IsScopedPurpose(p: Purpose) { p.ServiceNode? || p.DomainRecords? || p.Relay? }

  function ParsePurpose(s: JsString): (r: Option<Purpose>)
    ensures r.Some? ==> PurposeName(r.value) == s
    ensures r.None? ==> forall p :: PurposeName(p) != s
  {
    if s == CLIENT then Some(Client)
    else if s == DELEGATE then Some(Delegate)
    else if s == DOMAIN_RECORDS then Some(DomainRecords)
    else if s == RELAY then Some(Relay)
    else if s == SERVICE_NODE then Some(ServiceNode)
    else None
  }

  // ---------------------------------------------------------------------
  // Wire form and strict parsing
  // ---------------------------------------------------------------------

  datatype WireGrant = WireGrant(
    issuer: JsString, subject: JsString, purposes: seq<JsString>,
    notBefore: int, notAfter: int, serial: int,
    scope: Option<JsString>, signature: JsString)

  datatype Grant = Grant(
    issuer: Key, subject: Key, purposes: seq<Purpose>,
    notBefore: nat, notAfter: nat, serial: nat,
    scope: Option<JsString>)

  predicate IsUint(n: int) { 0 <= n <= MAX_SAFE_INTEGER }

  /** What every parsed grant satisfies. */
  predicate Canonicalized(g: Grant)
  {
    && g.issuer != g.subject
    && g.purposes != [] && Sequences.Distinct(g.purposes)
    && IsUint(g.notBefore) && IsUint(g.notAfter) && IsUint(g.serial)
    && g.notBefore < g.notAfter
    && match g.scope
       case Some(s) => Scope.IsValidScope(s)
       case None => Delegate in g.purposes || forall p | p in g.purposes :: !IsScopedPurpose(p)
  }

  /** `g` is the one reading of the wire grant `w`. */
  predicate Reads(w: WireGrant, g: Grant)
  {
    && Canonicalized(g)
    && Encodes(g.issuer, w.issuer) && Encodes(g.subject, w.subject)
    && |w.purposes| == |g.purposes|
    && (forall i | 0 <= i < |g.purposes| :: PurposeName(g.purposes[i]) == w.purposes[i])
    && w.notBefore == g.notBefore && w.notAfter == g.notAfter && w.serial == g.serial
    && w.scope == g.scope
  }

  lemma PurposeNameInjective(p: Purpose, q: Purpose)
    requires PurposeName(p) == PurposeName(q)
    ensures p == q
  {
    assert |PurposeName(p)| == |PurposeName(q)|;
  }

  /** A wire grant has at most one reading: keys and purposes have one spelling each. */
  lemma ReadsUnique(w: WireGrant, g: Grant, h: Grant)
    requires Reads(w, g) && Reads(w, h)
    ensures g == h
  {
    Base64Injective(g.issuer, h.issuer);
    Base64Injective(g.subject, h.subject);
    forall i | 0 <= i < |g.purposes| ensures g.purposes[i] == h.purposes[i] {
      PurposeNameInjective(g.purposes[i], h.purposes[i]);
    }
  }

  method ParsePurposes(names: seq<JsString>) returns (r: Result<seq<Purpose>>)
    ensures r.Ok? ==> |r.value| == |names| && Sequences.Distinct(r.value)
                      && forall i | 0 <= i < |names| :: PurposeName(r.value[i]) == names[i]
    ensures r.Err? ==> (exists i | 0 <= i < |names| :: ParsePurpose(names[i]).None?)
                       || !Sequences.Distinct(names)
  {
    var purposes: seq<Purpose> := [];
    for i := 0 to |names|
      invariant |purposes| == i && Sequences.Distinct(purposes)
      invariant forall k | 0 <= k < i :: PurposeName(purposes[k]) == names[k]
    {
      var p := ParsePurpose(names[i]);
      if p.None? {
        return Err;
      }
      if p.value in purposes {
        ghost var k :| 0 <= k < i && purposes[k] == p.value;
        assert names[k] == names[i];
        return Err;
      }
      purposes := purposes + [p.value];
    }
    return Ok(purposes);
  }

  /** `parseUnsigned`: it accepts a wire grant exactly when the grant has a reading, and returns it. */
  method ParseUnsigned(w: WireGrant) returns (r: Result<Grant>)
    ensures r.Ok? ==> Reads(w, r.value)
    ensures r.Err? ==> forall g :: !Reads(w, g)
  {
    var issuer := DecodeBase64Strict(w.issuer, Some(PUBLIC_KEY_LENGTH));
    var subject := DecodeBase64Strict(w.subject, Some(PUBLIC_KEY_LENGTH));
    if issuer.Err? || subject.Err? {
      return Err;
    }
    forall g | Reads(w, g) ensures g.issuer == issuer.value && g.subject == subject.value {
      Base64Injective(g.issuer, issuer.value);
      Base64Injective(g.subject, subject.value);
    }
    if issuer.value == subject.value || w.purposes == [] {
      return Err;
    }
    var purposes := ParsePurposes(w.purposes);
    if purposes.Err? {
      forall g | Reads(w, g) ensures false { ReadablePurposes(w, g); }
      return Err;
    }
    if !(IsUint(w.notBefore) && IsUint(w.notAfter) && IsUint(w.serial)) || w.notAfter <= w.notBefore {
      return Err;
    }
    var parsed := Grant(issuer.value, subject.value, purposes.value, w.notBefore, w.notAfter, w.serial, w.scope);
    forall g | Reads(w, g) ensures g == parsed {
      SamePurposes(g.purposes, parsed.purposes);
    }
    match w.scope {
      case Some(s) =>
        if !Scope.IsValidScope(s) {
          return Err;
        }
      case None =>
        if Delegate !in purposes.value && exists p | p in purposes.value :: IsScopedPurpose(p) {
          return Err;
        }
    }
    return Ok(parsed);
  }

  lemma SamePurposes(ps: seq<Purpose>, qs: seq<Purpose>)
    requires |ps| == |qs| && forall i | 0 <= i < |ps| :: PurposeName(ps[i]) == PurposeName(qs[i])
    ensures ps == qs
  {
    forall i | 0 <= i < |ps| ensures ps[i] == qs[i] {
      PurposeNameInjective(ps[i], qs[i]);
    }
  }

  lemma ReadablePurposes(w: WireGrant, g: Grant)
    requires Reads(w, g)
    ensures (forall i | 0 <= i < |w.purposes| :: ParsePurpose(w.purposes[i]).Some?) && Sequences.Distinct(w.purposes)
  {
    forall i | 0 <= i < |w.purposes| ensures ParsePurpose(w.purposes[i]).Some? {
      assert PurposeName(g.purposes[i]) == w.purposes[i];
    }
    forall i, j | 0 <= i < j < |w.purposes| ensures w.purposes[i] != w.purposes[j] {
      if w.purposes[i] == w.purposes[j] {
        PurposeNameInjective(g.purposes[i], g.purposes[j]);
      }
    }
  }

  // ---------------------------------------------------------------------
  // Canonical bytes
  // ---------------------------------------------------------------------

  const GRANT_CONTEXT: Bytes := Tag("tnp-grant-v2")
  /** Alphabetical position of a purpose's name. */
  function Rank(p: Purpose): nat
  {
    match p case Client => 0 case Delegate => 1 case DomainRecords => 2 case Relay => 3 case ServiceNode => 4
  }

  function Insert(p: Purpose, s: seq<Purpose>): (r: seq<Purpose>)
    ensures multiset(r) == multiset(s) + multiset{p}
  {
    if s == [] then [p]
    else if Rank(p) <= Rank(s[0]) then [p] + s
    else
      assert s == [s[0]] + s[1..];
      [s[0]] + Insert(p, s[1..])
  }

  function SortPurposes(s: seq<Purpose>): (r: seq<Purpose>)
    ensures multiset(r) == multiset(s)
    ensures |r| == |s|
  {
    if s == [] then []
    else
      assert s == [s[0]] + s[1..];
      var r := Insert(s[0], SortPurposes(s[1..]));
      assert |multiset(r)| == |multiset(s)|;
      r
  }

  function PurposeNames(s: seq<Purpose>): (r: seq<JsString>)
    ensures |r| == |s| && forall i | 0 <= i < |s| :: r[i] == PurposeName(s[i])
  {
    seq(|s|, i requires 0 <= i < |s| => PurposeName(s[i]))
  }

  function PurposeList(s: seq<Purpose>): JsString { Join(PurposeNames(SortPurposes(s)), COMMA) }

  /** Absent is written as the empty string, which is never a valid scope. */
  function ScopeText(scope: Option<JsString>): JsString
  {
    match scope case Some(s) => s case None => []
  }

  /** The byte strings and numbers a grant's encoding is made of. */
  datatype GrantParts = GrantParts(
    issuer: Key, subject: Key, purposes: Bytes, notBefore: nat, notAfter: nat, serial: nat, scope: Bytes)
  {
    function Fields(context: Bytes): (fs: seq<Field>)
    {
      [Prefixed(context), Fixed(issuer), Fixed(subject), Prefixed(purposes),
       Uint(notBefore), Uint(notAfter), Uint(serial), Prefixed(scope)]
    }

    predicate Fit()
    {
      && |purposes| < 0x1_0000_0000 && |scope| < 0x1_0000_0000
      && IsUint(notBefore) && IsUint(notAfter) && IsUint(serial)
    }
  }

  lemma GrantPartsInjective(c: Bytes, p: GrantParts, q: GrantParts)
    requires |c| < 0x1_0000_0000 && p.Fit() && q.Fit()
    requires Canonical(p.Fields(c)) == Canonical(q.Fields(c))
    ensures p == q
  {
    hide Canonical;
    var fs, gs := p.Fields(c), q.Fields(c);
    CanonicalInjective(fs, gs);
    assert fs[1] == gs[1] && fs[2] == gs[2] && fs[3] == gs[3] && fs[4] == gs[4];
    assert fs[5] == gs[5] && fs[6] == gs[6] && fs[7] == gs[7];
  }

  function Parts(g: Grant): (p: GrantParts)
  {
    GrantParts(g.issuer, g.subject, Utf8(PurposeList(g.purposes)),
               g.notBefore, g.notAfter, g.serial, Utf8(ScopeText(g.scope)))
  }

  function GrantBytes(g: Grant): Bytes { Canonical(Parts(g).Fields(GRANT_CONTEXT)) }

  lemma PurposeListAscii(s: seq<Purpose>)
    ensures IsAscii(PurposeList(s))
  {
    var names := PurposeNames(SortPurposes(s));
    forall p | p in names ensures IsAscii(p) {
      var i :| 0 <= i < |names| && names[i] == p;
    }
    Scope.JoinAscii(names, COMMA);
  }

  lemma NoComma(p: Purpose)
    ensures COMMA !in PurposeName(p)
  {
    var s := PurposeName(p);
    forall i | 0 <= i < |s| ensures s[i] != COMMA {
      match p case Client => case Delegate => case DomainRecords => case Relay => case ServiceNode =>
    }
  }

  lemma NamesSplit(s: seq<Purpose>)
    requires s != []
    ensures Split(Join(PurposeNames(s), COMMA), COMMA) == PurposeNames(s)
  {
    var names := PurposeNames(s);
    forall p | p in names ensures COMMA !in p {
      var i :| 0 <= i < |names| && names[i] == p;
      NoComma(s[i]);
    }
    SplitJoin(names, COMMA);
  }

  lemma PurposeListInjective(s: seq<Purpose>, t: seq<Purpose>)
    requires s != [] && t != [] && PurposeList(s) == PurposeList(t)
    ensures multiset(s) == multiset(t)
  {
    var ss, tt := SortPurposes(s), SortPurposes(t);
    NamesSplit(ss);
    NamesSplit(tt);
    forall i | 0 <= i < |ss| ensures PurposeName(ss[i]) == PurposeName(tt[i]) {
      assert PurposeNames(ss)[i] == PurposeNames(tt)[i];
    }
    SamePurposes(ss, tt);
  }

  /** Short enough that every length prefix holds the whole length. */
  lemma GrantFits(g: Grant)
    requires Canonicalized(g)
    ensures Parts(g).Fit()
  {
    PurposeListShort(g.purposes);
    Utf8Length(PurposeList(g.purposes));
    Utf8Length(ScopeText(g.scope));
  }

  lemma {:induction false} JoinLength(parts: seq<JsString>, sep: Unit, width: nat)
    requires forall i | 0 <= i < |parts| :: |parts[i]| <= width
    ensures |Join(parts, sep)| <= |parts| * (width + 1)
  {
    if |parts| > 1 {
      JoinLength(parts[1..], sep, width);
    }
  }

  lemma NameShort(p: Purpose)
    ensures |PurposeName(p)| <= 14
  {
  }

  lemma PurposeListShort(s: seq<Purpose>)
    requires Sequences.Distinct(s)
    ensures |PurposeList(s)| <= 75
  {
    AtMostFive(s);
    var sorted := SortPurposes(s);
    var names := PurposeNames(sorted);
    forall i | 0 <= i < |names| ensures |names[i]| <= 14 { NameShort(sorted[i]); }
    JoinLength(names, COMMA, 14);
  }

  lemma AtMostFive(s: seq<Purpose>)
    requires Sequences.Distinct(s)
    ensures |s| <= 5
  {
    var all := {Client, Delegate, DomainRecords, Relay, ServiceNode};
    forall p: Purpose ensures p in all {
      match p case Client => case Delegate => case DomainRecords => case Relay => case ServiceNode =>
    }
    DistinctSubset(s, all);
  }

  lemma {:induction false} DistinctSubset<T>(s: seq<T>, all: set<T>)
    requires Sequences.Distinct(s) && forall i | 0 <= i < |s| :: s[i] in all
    ensures |s| <= |all|
  {
    if s != [] {
      var last := s[|s| - 1];
      DistinctSubset(s[..|s| - 1], all - {last});
    }
  }

  lemma PurposeBytesInjective(s: seq<Purpose>, t: seq<Purpose>)
    requires s != [] && t != [] && Utf8(PurposeList(s)) == Utf8(PurposeList(t))
    ensures multiset(s) == multiset(t)
  {
    PurposeListAscii(s);
    PurposeListAscii(t);
    AsciiUtf8(PurposeList(s));
    AsciiUtf8(PurposeList(t));
    Utf8Injective(PurposeList(s), PurposeList(t));
    PurposeListInjective(s, t);
  }

  predicate Ranked(s: seq<Purpose>) { forall i, j | 0 <= i < j < |s| :: Rank(s[i]) <= Rank(s[j]) }

  lemma {:induction false} InsertRanked(p: Purpose, s: seq<Purpose>)
    requires Ranked(s)
    ensures Ranked(Insert(p, s))
  {
    if s != [] && Rank(p) > Rank(s[0]) {
      var rest := Insert(p, s[1..]);
      InsertRanked(p, s[1..]);
      forall i | 0 <= i < |rest| ensures Rank(s[0]) <= Rank(rest[i]) {
        assert rest[i] in multiset(rest);
        assert rest[i] == p || rest[i] in s[1..];
      }
    }
  }

  lemma {:induction false} SortRanked(s: seq<Purpose>)
    ensures Ranked(SortPurposes(s))
  {
    if s != [] {
      SortRanked(s[1..]);
      InsertRanked(s[0], SortPurposes(s[1..]));
    }
  }

  lemma LowestFirst(s: seq<Purpose>, p: Purpose)
    requires Ranked(s) && p in multiset(s)
    ensures s != [] && Rank(s[0]) <= Rank(p)
  {
    assert p in s;
    var i :| 0 <= i < |s| && s[i] == p;
  }

  lemma TailMultiset(s: seq<Purpose>)
    requires s != []
    ensures multiset(s[1..]) == multiset(s) - multiset{s[0]} && s[0] in multiset(s)
  {
    assert s == [s[0]] + s[1..];
  }

  /** Purposes in order of rank are determined by which they are. */
  lemma {:induction false} RankedUnique(s: seq<Purpose>, t: seq<Purpose>)
    requires Ranked(s) && Ranked(t) && multiset(s) == multiset(t)
    ensures s == t
  {
    hide Ranked, Rank;
    if s == [] {
      assert |multiset(t)| == |multiset(s)| == 0;
    } else {
      TailMultiset(s);
      LowestFirst(t, s[0]);
      TailMultiset(t);
      LowestFirst(s, t[0]);
      RankInjective(s[0], t[0]);
      RankedTail(s);
      RankedTail(t);
      RankedUnique(s[1..], t[1..]);
      assert s == [s[0]] + s[1..] && t == [t[0]] + t[1..];
    }
  }

  lemma RankInjective(p: Purpose, q: Purpose)
    requires Rank(p) == Rank(q)
    ensures p == q
  {
  }

  lemma RankedTail(s: seq<Purpose>)
    requires Ranked(s) && s != []
    ensures Ranked(s[1..])
  {
  }

  /** The same grant; the order its purposes are listed in does not matter. */
  ghost predicate SameGrant(g: Grant, h: Grant)
  {
    g == h.(purposes := g.purposes) && multiset(g.purposes) == multiset(h.purposes)
  }

  /** A signed grant is unambiguous: equal bytes mean, exactly, equal grants up to the order of purposes. */
  lemma GrantBytesEqualIff(g: Grant, h: Grant)
    requires Canonicalized(g) && Canonicalized(h)
    ensures GrantBytes(g) == GrantBytes(h) <==> SameGrant(g, h)
  {
    if GrantBytes(g) == GrantBytes(h) {
      GrantFits(g);
      GrantFits(h);
      GrantPartsInjective(GRANT_CONTEXT, Parts(g), Parts(h));
      PurposeBytesInjective(g.purposes, h.purposes);
      ScopeTextInjective(g.scope, h.scope);
    }
    if SameGrant(g, h) {
      SortRanked(g.purposes);
      SortRanked(h.purposes);
      RankedUnique(SortPurposes(g.purposes), SortPurposes(h.purposes));
      assert Parts(g) == Parts(h);
    }
  }

  lemma ScopeTextInjective(a: Option<JsString>, b: Option<JsString>)
    requires a.Some? ==> Scope.IsValidScope(a.value)
    requires b.Some? ==> Scope.IsValidScope(b.value)
    requires Utf8(ScopeText(a)) == Utf8(ScopeText(b))
    ensures a == b
  {
    if a.Some? { Scope.ScopeAscii(a.value); }
    if b.Some? { Scope.ScopeAscii(b.value); }
    AsciiUtf8(ScopeText(a));
    AsciiUtf8(ScopeText(b));
    Utf8Injective(ScopeText(a), ScopeText(b));
  }
}
