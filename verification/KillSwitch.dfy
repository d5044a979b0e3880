/**
 The DNS kill switch (packages/client/src/killswitch.ts): one policy compiled
 to nftables, iptables, pf and Windows Firewall rules. Addresses are numbers of
 their family; the textual syntax of the rules is not modelled.
 */
module KillSwitch {
  datatype Family = V4 | V6
  datatype Proto = Udp | Tcp | OtherProto

  datatype Packet = Packet(family: Family, dst: nat, proto: Proto, port: nat)

  datatype Range = Range(lo: nat, hi: nat)

  datatype Allow = Allow(v4: seq<nat>, v6: seq<nat>)

  const MAX_V4: nat := 0xFFFF_FFFF
  const MAX_V6: nat := 0xFFFF_FFFF_FFFF_FFFF_FFFF_FFFF_FFFF_FFFF
  const LOOPBACK_V4 := Range(0x7F00_0000, 0x7FFF_FFFF)  // 127.0.0.0/8
  const LOOPBACK_V6 := Range(1, 1)                      // ::1

  function MaxOf(f: Family): nat { if f.V4? then MAX_V4 else MAX_V6 }

  function LoopbackOf(f: Family): Range { if f.V4? then LOOPBACK_V4 else LOOPBACK_V6 }

  function AllowedOf(allow: Allow, f: Family): seq<nat> { if f.V4? then allow.v4 else allow.v6 }

  predicate In(a: nat, r: Range) { r.lo <= a <= r.hi }

  predicate ValidAllow(allow: Allow)
  {
    && (forall i | 0 <= i < |allow.v4| :: allow.v4[i] <= MAX_V4)
    && (forall i | 0 <= i < |allow.v6| :: allow.v6[i] <= MAX_V6)
  }

  predicate ValidPacket(p: Packet) { p.dst <= MaxOf(p.family) }

  predicate PlainDns(p: Packet) { (p.proto.Udp? || p.proto.Tcp?) && p.port == 53 }

  predicate Exempt(allow: Allow, p: Packet)
  {
    In(p.dst, LoopbackOf(p.family)) || p.dst in AllowedOf(allow, p.family)
  }

  /** The policy: plain DNS to anything but loopback and the allowed resolvers, and nothing else. */
  predicate Blocked(allow: Allow, p: Packet) { PlainDns(p) && !Exempt(allow, p) }

  // ---------------------------------------------------------------------
  // Address arithmetic
  // ---------------------------------------------------------------------

  predicate Covered(a: nat, ranges: seq<Range>) { exists i | 0 <= i < |ranges| :: In(a, ranges[i]) }

  /** Inside the address space. */
  predicate Proper(ranges: seq<Range>, max: nat)
  {
    forall i | 0 <= i < |ranges| :: ranges[i].lo <= ranges[i].hi <= max
  }

  predicate SortedByLow(ranges: seq<Range>)
  {
    forall i, j | 0 <= i < j < |ranges| :: ranges[i].lo <= ranges[j].lo
  }

  /** In order, and with at least one address between any two. */
  predicate Separated(ranges: seq<Range>)
  {
    forall i, j | 0 <= i < j < |ranges| :: ranges[i].hi + 1 < ranges[j].lo
  }

  method InsertByLow(s: seq<Range>, r: Range) returns (t: seq<Range>)
    requires SortedByLow(s)
    ensures SortedByLow(t) && multiset(t) == multiset(s) + multiset{r}
  {
    var i := |s|;
    while i > 0 && r.lo < s[i - 1].lo
      invariant 0 <= i <= |s| && forall j | i <= j < |s| :: r.lo < s[j].lo
    {
      i := i - 1;
    }
    t := s[..i] + [r] + s[i..];
    InsertPermutes(s, i, r);
  }

  lemma InsertPermutes<T>(s: seq<T>, i: nat, x: T)
    requires i <= |s|
    ensures multiset(s[..i] + [x] + s[i..]) == multiset(s) + multiset{x}
  {
    assert s == s[..i] + s[i..];
  }

  method SortByLow(s: seq<Range>) returns (t: seq<Range>)
    ensures SortedByLow(t) && multiset(t) == multiset(s)
  {
    t := [];
    for i := 0 to |s|
      invariant SortedByLow(t) && multiset(t) == multiset(s[..i])
    {
      assert s[..i + 1] == s[..i] + [s[i]];
      t := InsertByLow(t, s[i]);
    }
    assert s[..|s|] == s;
  }

  lemma SameMembers(s: seq<Range>, t: seq<Range>, a: nat, max: nat)
    requires multiset(s) == multiset(t)
    ensures Covered(a, s) <==> Covered(a, t)
    ensures Proper(s, max) ==> Proper(t, max)
  {
    CoveredBySome(s, t, a);
    CoveredBySome(t, s, a);
    if Proper(s, max) {
      forall i | 0 <= i < |t| ensures t[i].lo <= t[i].hi <= max {
        assert t[i] in multiset(t);
        assert t[i] in s;
      }
    }
  }

  lemma CoveredBySome(s: seq<Range>, t: seq<Range>, a: nat)
    requires multiset(s) == multiset(t)
    ensures Covered(a, s) ==> Covered(a, t)
  {
    if Covered(a, s) {
      var i :| 0 <= i < |s| && In(a, s[i]);
      assert s[i] in multiset(s);
      assert s[i] in t;
      var j :| 0 <= j < |t| && t[j] == s[i];
      assert In(a, t[j]);
    }
  }

  /** The sweep of `complement` after the first `i` sorted exclusions. */
  ghost predicate Swept(excluded: seq<Range>, i: nat, gaps: seq<Range>, next: nat, max: nat)
    requires i <= |excluded|
  {
    && next <= max + 1 && Separated(gaps)
    && (forall g | 0 <= g < |gaps| :: gaps[g].lo <= gaps[g].hi && gaps[g].hi + 1 < next)
    && (forall a: nat | a < next :: Covered(a, gaps) <==> !Covered(a, excluded[..i]))
    && (forall e | 0 <= e < i :: excluded[e].hi < next)
    && (forall g | 0 <= g < |gaps| :: i > 0 && gaps[g].hi < excluded[i - 1].lo)
  }

  lemma CoveredSnoc(ranges: seq<Range>, r: Range, a: nat)
    ensures Covered(a, ranges + [r]) <==> Covered(a, ranges) || In(a, r)
  {
    if Covered(a, ranges) {
      var i :| 0 <= i < |ranges| && In(a, ranges[i]);
      assert In(a, (ranges + [r])[i]);
    }
    assert In(a, r) ==> In(a, (ranges + [r])[|ranges|]);
  }

  lemma SweepStart(excluded: seq<Range>, max: nat)
    ensures Swept(excluded, 0, [], 0, max)
  {
  }

  lemma SweepStep(excluded: seq<Range>, i: nat, gaps: seq<Range>, next: nat, max: nat)
    requires i < |excluded| && SortedByLow(excluded) && Proper(excluded, max) && Swept(excluded, i, gaps, next, max)
    ensures var r := excluded[i];
            Swept(excluded, i + 1, if r.lo > next then gaps + [Range(next, r.lo - 1)] else gaps,
                  if r.hi + 1 > next then r.hi + 1 else next, max)
  {
    var r := excluded[i];
    var gap := Range(next, if r.lo > next then r.lo - 1 else next);
    var gaps' := if r.lo > next then gaps + [gap] else gaps;
    var next' := if r.hi + 1 > next then r.hi + 1 else next;
    forall a: nat | a < next' ensures Covered(a, gaps') <==> !Covered(a, excluded[..i + 1]) {
      assert excluded[..i + 1] == excluded[..i] + [r];
      CoveredSnoc(excluded[..i], r, a);
      CoveredSnoc(gaps, gap, a);
      if a >= next {
        assert !Covered(a, gaps) && !Covered(a, excluded[..i]);
      } else if In(a, r) {
        NotInGaps(excluded, i, gaps, next, max, a);
      }
    }
  }

  /** An address at or past the start of the next exclusion and before `next` is in an earlier exclusion. */
  lemma NotInGaps(excluded: seq<Range>, i: nat, gaps: seq<Range>, next: nat, max: nat, a: nat)
    requires i < |excluded| && SortedByLow(excluded) && Proper(excluded, max) && Swept(excluded, i, gaps, next, max)
    requires a < next && excluded[i].lo <= a
    ensures !Covered(a, gaps)
  {
  }

  /**
   `complement`: the gaps left by any exclusions, overlapping or not, are in
   order, never touch, and cover exactly the addresses not excluded.
   */
  method Complement(excluded: seq<Range>, max: nat) returns (gaps: seq<Range>)
    requires Proper(excluded, max)
    ensures Separated(gaps) && Proper(gaps, max)
    ensures forall a: nat | a <= max :: Covered(a, gaps) <==> !Covered(a, excluded)
  {
    hide Swept, Covered, Separated, SortedByLow;
    var sorted := SortByLow(excluded);
    forall a: nat ensures Covered(a, sorted) <==> Covered(a, excluded) { SameMembers(excluded, sorted, a, max); }
    SameMembers(excluded, sorted, 0, max);
    gaps := [];
    var next: nat := 0;
    SweepStart(sorted, max);
    for i := 0 to |sorted|
      invariant Swept(sorted, i, gaps, next, max)
    {
      SweepStep(sorted, i, gaps, next, max);
      var r := sorted[i];
      if r.lo > next {
        gaps := gaps + [Range(next, r.lo - 1)];
      }
      if r.hi + 1 > next {
        next := r.hi + 1;
      }
    }
    SweepEnd(sorted, gaps, next, max);
    if next <= max {
      gaps := gaps + [Range(next, max)];
    }
  }

  lemma SweepEnd(excluded: seq<Range>, gaps: seq<Range>, next: nat, max: nat)
    requires Swept(excluded, |excluded|, gaps, next, max)
    ensures var all := if next <= max then gaps + [Range(next, max)] else gaps;
            && Separated(all) && Proper(all, max)
            && forall a: nat | a <= max :: Covered(a, all) <==> !Covered(a, excluded)
  {
    assert excluded[..|excluded|] == excluded;
    var all := if next <= max then gaps + [Range(next, max)] else gaps;
    forall a: nat | a <= max ensures Covered(a, all) <==> !Covered(a, excluded) {
      CoveredSnoc(gaps, Range(next, max), a);
      if a >= next {
        assert !Covered(a, excluded);
      }
    }
  }

  // ---------------------------------------------------------------------
  // Rule lists and how they are evaluated
  // ---------------------------------------------------------------------

  datatype Destination = Anywhere | To(family: Family, range: Range)

  /** A rule that drops, or one that leaves the packet alone (accept, RETURN, pass). */
  datatype Rule = Rule(dst: Destination, protos: set<Proto>, port: nat, drop: bool)

  predicate Matches(r: Rule, p: Packet)
  {
    && p.proto in r.protos && p.port == r.port
    && (r.dst.To? ==> p.family == r.dst.family && In(p.dst, r.dst.range))
  }

  /** nftables and iptables: the first matching rule decides, and no match leaves the packet alone. */
  predicate Drops(rules: seq<Rule>, p: Packet)
  {
    rules != [] && if Matches(rules[0], p) then rules[0].drop else Drops(rules[1..], p)
  }

  /** pf: the last matching rule decides, except that a `quick` one ends the evaluation. */
  datatype PfRule = PfRule(rule: Rule, quick: bool)

  predicate PfDrops(rules: seq<PfRule>, p: Packet, soFar: bool)
    decreases |rules|
  {
    if rules == [] then soFar
    else if !Matches(rules[0].rule, p) then PfDrops(rules[1..], p, soFar)
    else if rules[0].quick then rules[0].rule.drop
    else PfDrops(rules[1..], p, rules[0].rule.drop)
  }

  /** Windows Firewall: a block rule that matches blocks, whatever else there is. */
  datatype NetshRule = NetshRule(family: Family, proto: Proto, port: nat, remote: seq<Range>)

  predicate NetshBlocks(rules: seq<NetshRule>, p: Packet)
  {
    exists i | 0 <= i < |rules| ::
      rules[i].family == p.family && rules[i].proto == p.proto && rules[i].port == p.port
        && Covered(p.dst, rules[i].remote)
  }

  predicate AnyMatch(rules: seq<Rule>, p: Packet) { exists i | 0 <= i < |rules| :: Matches(rules[i], p) }

  lemma AnyMatchConcat(a: seq<Rule>, b: seq<Rule>, p: Packet)
    ensures AnyMatch(a + b, p) <==> AnyMatch(a, p) || AnyMatch(b, p)
  {
    if AnyMatch(a, p) {
      var i :| 0 <= i < |a| && Matches(a[i], p);
      assert Matches((a + b)[i], p);
    }
    if AnyMatch(b, p) {
      var i :| 0 <= i < |b| && Matches(b[i], p);
      assert Matches((a + b)[|a| + i], p);
    }
  }

  predicate AllPass(rules: seq<Rule>) { forall i | 0 <= i < |rules| :: !rules[i].drop }
  predicate AllDrop(rules: seq<Rule>) { forall i | 0 <= i < |rules| :: rules[i].drop }

  lemma {:induction false} PassesThenDrops(passes: seq<Rule>, drops: seq<Rule>, p: Packet)
    requires AllPass(passes) && AllDrop(drops)
    ensures Drops(passes + drops, p) <==> !AnyMatch(passes, p) && AnyMatch(drops, p)
    decreases |passes| + |drops|
  {
    if passes != [] {
      assert (passes + drops)[1..] == passes[1..] + drops;
      assert passes == [passes[0]] + passes[1..];
      AnyMatchConcat([passes[0]], passes[1..], p);
      PassesThenDrops(passes[1..], drops, p);
      assert AnyMatch([passes[0]], p) <==> Matches([passes[0]][0], p);
    } else if drops != [] {
      assert passes + drops == drops;
      assert drops == [drops[0]] + drops[1..] && [] + drops[1..] == drops[1..];
      AnyMatchConcat([drops[0]], drops[1..], p);
      PassesThenDrops([], drops[1..], p);
      assert AnyMatch([drops[0]], p) <==> Matches([drops[0]][0], p);
    }
  }

  // ---------------------------------------------------------------------
  // The four compilations
  // ---------------------------------------------------------------------

  /** One exempt destination, for UDP and then TCP. */
  function Pass(f: Family, r: Range): seq<Rule>
  {
    [Rule(To(f, r), {Udp}, 53, false), Rule(To(f, r), {Tcp}, 53, false)]
  }

  function PassAll(f: Family, addresses: seq<nat>): seq<Rule>
  {
    if addresses == [] then []
    else
      var last := addresses[|addresses| - 1];
      PassAll(f, addresses[..|addresses| - 1]) + Pass(f, Range(last, last))
  }

  const DROP_DNS: seq<Rule> := [Rule(Anywhere, {Udp}, 53, true), Rule(Anywhere, {Tcp}, 53, true)]

  function NftRuleset(allow: Allow): seq<Rule>
  {
    Pass(V4, LOOPBACK_V4) + Pass(V6, LOOPBACK_V6) + PassAll(V4, allow.v4) + PassAll(V6, allow.v6) + DROP_DNS
  }

  function PfPass(f: Family, r: Range): PfRule { PfRule(Rule(To(f, r), {Tcp, Udp}, 53, false), true) }

  function PfPassAll(f: Family, addresses: seq<nat>): seq<PfRule>
  {
    seq(|addresses|, i requires 0 <= i < |addresses| => PfPass(f, Range(addresses[i], addresses[i])))
  }

  function PfRules(allow: Allow): seq<PfRule>
  {
    [PfPass(V4, LOOPBACK_V4), PfPass(V6, LOOPBACK_V6)] + PfPassAll(V4, allow.v4) + PfPassAll(V6, allow.v6)
    + [PfRule(Rule(Anywhere, {Tcp, Udp}, 53, true), true)]
  }

  /** The chain `iptablesApply` builds for one family. */
  function Chain(f: Family, loopback: Range, allowed: seq<nat>): seq<Rule>
  {
    Pass(f, loopback) + PassAll(f, allowed) + DROP_DNS
  }

  method IptablesApply(f: Family, loopback: Range, allowed: seq<nat>) returns (rules: seq<Rule>)
    ensures rules == Chain(f, loopback, allowed)
  {
    rules := [];
    for i := 0 to |allowed| + 1
      invariant i == 0 ==> rules == []
      invariant i > 0 ==> rules == Pass(f, loopback) + PassAll(f, allowed[..i - 1])
    {
      var dst := if i == 0 then loopback else Range(allowed[i - 1], allowed[i - 1]);
      assert i > 0 ==> allowed[..i][..i - 1] == allowed[..i - 1];
      rules := rules + [Rule(To(f, dst), {Udp}, 53, false)];
      rules := rules + [Rule(To(f, dst), {Tcp}, 53, false)];
    }
    assert allowed[..|allowed|] == allowed;
    rules := rules + [Rule(Anywhere, {Udp}, 53, true)];
    rules := rules + [Rule(Anywhere, {Tcp}, 53, true)];
  }

  /** `iptables` filters IPv4 packets and `ip6tables`, when there is one, IPv6 packets. */
  predicate IptablesDrops(allow: Allow, ip6tables: bool, p: Packet)
  {
    if p.family.V4? then Drops(Chain(V4, LOOPBACK_V4, allow.v4), p)
    else ip6tables && Drops(Chain(V6, LOOPBACK_V6, allow.v6), p)
  }

  function Excluded(f: Family, allowed: seq<nat>): seq<Range>
  {
    [LoopbackOf(f)] + seq(|allowed|, i requires 0 <= i < |allowed| => Range(allowed[i], allowed[i]))
  }

  /** The ranges cover exactly the addresses of the family that are neither loopback nor allowed. */
  ghost predicate AllButExempt(f: Family, allowed: seq<nat>, ranges: seq<Range>)
  {
    forall a: nat | a <= MaxOf(f) :: Covered(a, ranges) <==> !In(a, LoopbackOf(f)) && a !in allowed
  }

  /** `ipv4BlockRanges` and `ipv6BlockRanges`. */
  method BlockRanges(f: Family, allowed: seq<nat>) returns (ranges: seq<Range>)
    requires forall i | 0 <= i < |allowed| :: allowed[i] <= MaxOf(f)
    ensures Separated(ranges) && Proper(ranges, MaxOf(f)) && AllButExempt(f, allowed, ranges)
  {
    ranges := Complement(Excluded(f, allowed), MaxOf(f));
    forall a: nat | a <= MaxOf(f) ensures Covered(a, ranges) <==> !In(a, LoopbackOf(f)) && a !in allowed {
      ExcludedCovers(f, allowed, a);
    }
  }

  lemma ExcludedCovers(f: Family, allowed: seq<nat>, a: nat)
    ensures Covered(a, Excluded(f, allowed)) <==> In(a, LoopbackOf(f)) || a in allowed
  {
    var ex := Excluded(f, allowed);
    assert In(a, LoopbackOf(f)) ==> In(a, ex[0]);
    if a in allowed {
      var i :| 0 <= i < |allowed| && allowed[i] == a;
      assert In(a, ex[i + 1]);
    }
  }

  function BlockRules(v4: seq<Range>, v6: seq<Range>): seq<NetshRule>
  {
    [NetshRule(V4, Udp, 53, v4), NetshRule(V4, Tcp, 53, v4), NetshRule(V6, Udp, 53, v6), NetshRule(V6, Tcp, 53, v6)]
  }

  method NetshRules(allow: Allow) returns (rules: seq<NetshRule>)
    requires ValidAllow(allow)
    ensures forall p | ValidPacket(p) :: NetshBlocks(rules, p) <==> Blocked(allow, p)
  {
    var v4 := BlockRanges(V4, allow.v4);
    var v6 := BlockRanges(V6, allow.v6);
    rules := BlockRules(v4, v6);
    forall p | ValidPacket(p) ensures NetshBlocks(rules, p) <==> Blocked(allow, p) {
      NetshMeansPolicy(allow, v4, v6, p);
    }
  }

  lemma NetshMeansPolicy(allow: Allow, v4: seq<Range>, v6: seq<Range>, p: Packet)
    requires ValidPacket(p) && AllButExempt(V4, allow.v4, v4) && AllButExempt(V6, allow.v6, v6)
    ensures NetshBlocks(BlockRules(v4, v6), p) <==> Blocked(allow, p)
  {
    hide Covered;
    assert Covered(p.dst, if p.family.V4? then v4 else v6) <==> !Exempt(allow, p);
    var rules := BlockRules(v4, v6);
    if Blocked(allow, p) {
      var i := (if p.family.V4? then 0 else 2) + if p.proto.Udp? then 0 else 1;
      assert rules[i].family == p.family && rules[i].proto == p.proto;
    }
  }

  // ---------------------------------------------------------------------
  // They mean the policy
  // ---------------------------------------------------------------------

  lemma PassMatches(f: Family, r: Range, p: Packet)
    ensures AnyMatch(Pass(f, r), p) <==> PlainDns(p) && p.family == f && In(p.dst, r)
  {
    var rules := Pass(f, r);
    assert Matches(rules[0], p) || Matches(rules[1], p) <==> PlainDns(p) && p.family == f && In(p.dst, r);
  }

  lemma {:induction false} PassAllMatches(f: Family, addresses: seq<nat>, p: Packet)
    ensures AllPass(PassAll(f, addresses))
    ensures AnyMatch(PassAll(f, addresses), p) <==> PlainDns(p) && p.family == f && p.dst in addresses
  {
    if addresses != [] {
      var n := |addresses| - 1;
      PassAllMatches(f, addresses[..n], p);
      AnyMatchConcat(PassAll(f, addresses[..n]), Pass(f, Range(addresses[n], addresses[n])), p);
      PassMatches(f, Range(addresses[n], addresses[n]), p);
      assert addresses == addresses[..n] + [addresses[n]];
    }
  }

  lemma DropMatches(p: Packet)
    ensures AnyMatch(DROP_DNS, p) <==> PlainDns(p)
  {
    assert Matches(DROP_DNS[0], p) || Matches(DROP_DNS[1], p) <==> PlainDns(p);
  }

  lemma NftMeansPolicy(allow: Allow, p: Packet)
    ensures Drops(NftRuleset(allow), p) <==> Blocked(allow, p)
  {
    var l4, l6 := Pass(V4, LOOPBACK_V4), Pass(V6, LOOPBACK_V6);
    var a4, a6 := PassAll(V4, allow.v4), PassAll(V6, allow.v6);
    PassMatches(V4, LOOPBACK_V4, p);
    PassMatches(V6, LOOPBACK_V6, p);
    PassAllMatches(V4, allow.v4, p);
    PassAllMatches(V6, allow.v6, p);
    AnyMatchConcat(l4, l6, p);
    AnyMatchConcat(l4 + l6, a4, p);
    AnyMatchConcat(l4 + l6 + a4, a6, p);
    DropMatches(p);
    PassesThenDrops(l4 + l6 + a4 + a6, DROP_DNS, p);
  }

  /** iptables means the policy for IPv4, and for IPv6 exactly where there is an ip6tables. */
  lemma IptablesMeansPolicy(allow: Allow, ip6tables: bool, p: Packet)
    ensures IptablesDrops(allow, ip6tables, p) <==> Blocked(allow, p) && (p.family.V6? ==> ip6tables)
  {
    var f := p.family;
    var l, a := Pass(f, LoopbackOf(f)), PassAll(f, AllowedOf(allow, f));
    PassMatches(f, LoopbackOf(f), p);
    PassAllMatches(f, AllowedOf(allow, f), p);
    AnyMatchConcat(l, a, p);
    DropMatches(p);
    PassesThenDrops(l + a, DROP_DNS, p);
  }

  predicate AllQuick(rules: seq<PfRule>) { forall i | 0 <= i < |rules| :: rules[i].quick }

  function Plain(rules: seq<PfRule>): seq<Rule>
  {
    seq(|rules|, i requires 0 <= i < |rules| => rules[i].rule)
  }

  /** When every rule is `quick`, pf too decides by the first match. */
  lemma {:induction false} QuickIsFirstMatch(rules: seq<PfRule>, p: Packet)
    requires AllQuick(rules)
    ensures PfDrops(rules, p, false) <==> Drops(Plain(rules), p)
  {
    if rules != [] {
      QuickIsFirstMatch(rules[1..], p);
      assert Plain(rules)[1..] == Plain(rules[1..]);
    }
  }

  lemma PfPassAllMatches(f: Family, addresses: seq<nat>, p: Packet)
    ensures AnyMatch(Plain(PfPassAll(f, addresses)), p) <==> PlainDns(p) && p.family == f && p.dst in addresses
  {
    var rules := Plain(PfPassAll(f, addresses));
    if PlainDns(p) && p.family == f && p.dst in addresses {
      var i :| 0 <= i < |addresses| && addresses[i] == p.dst;
      assert Matches(rules[i], p);
    }
  }

  lemma PfMeansPolicy(allow: Allow, p: Packet)
    ensures PfDrops(PfRules(allow), p, false) <==> Blocked(allow, p)
  {
    var loop := [PfPass(V4, LOOPBACK_V4).rule, PfPass(V6, LOOPBACK_V6).rule];
    var a4, a6 := Plain(PfPassAll(V4, allow.v4)), Plain(PfPassAll(V6, allow.v6));
    var drop := [Rule(Anywhere, {Tcp, Udp}, 53, true)];
    QuickIsFirstMatch(PfRules(allow), p);
    assert Plain(PfRules(allow)) == loop + a4 + a6 + drop;
    assert AnyMatch(loop, p) <==> Matches(loop[0], p) || Matches(loop[1], p);
    PfPassAllMatches(V4, allow.v4, p);
    PfPassAllMatches(V6, allow.v6, p);
    AnyMatchConcat(loop, a4, p);
    AnyMatchConcat(loop + a4, a6, p);
    assert AnyMatch(drop, p) <==> Matches(drop[0], p);
    PassesThenDrops(loop + a4 + a6, drop, p);
  }

  // ---------------------------------------------------------------------
  // The back end a host gets
  // ---------------------------------------------------------------------

  datatype Platform = Windows | Mac | Linux | OtherPlatform

  datatype Host = Host(platform: Platform, isRoot: bool, tools: set<string>, ipv6Present: bool)

  datatype Backend = Nft | Iptables(ip6tables: bool) | Pf | Netsh | Unavailable

  function SelectBackend(host: Host): Backend
  {
    if host.platform.Windows? then
      if "netsh" in host.tools && "powershell" in host.tools then Netsh else Unavailable
    else if !host.isRoot then Unavailable
    else if host.platform.Mac? then
      if "pfctl" in host.tools then Pf else Unavailable
    else if !host.platform.Linux? then Unavailable
    else if "nft" in host.tools then Nft
    else if "iptables" !in host.tools then Unavailable
    else if "ip6tables" !in host.tools && host.ipv6Present then Unavailable
    else Iptables("ip6tables" in host.tools)
  }

  predicate Enforces(backend: Backend, allow: Allow, v4: seq<Range>, v6: seq<Range>, p: Packet)
  {
    match backend
    case Nft => Drops(NftRuleset(allow), p)
    case Iptables(ip6tables) => IptablesDrops(allow, ip6tables, p)
    case Pf => PfDrops(PfRules(allow), p, false)
    case Netsh => NetshBlocks(BlockRules(v4, v6), p)
    case Unavailable => false
  }

  /**
   Whatever back end a host gets, every packet it can send is blocked exactly
   when the policy says so. `v4` and `v6` are what `BlockRanges` returns.
   */
  lemma SelectedBackendMeansPolicy(host: Host, allow: Allow, v4: seq<Range>, v6: seq<Range>, p: Packet)
    requires !SelectBackend(host).Unavailable? && ValidPacket(p) && (p.family.V6? ==> host.ipv6Present)
    requires AllButExempt(V4, allow.v4, v4) && AllButExempt(V6, allow.v6, v6)
    ensures Enforces(SelectBackend(host), allow, v4, v6, p) <==> Blocked(allow, p)
  {
    hide Drops, PfDrops, NetshBlocks, NftRuleset, PfRules, IptablesDrops, Blocked, AllButExempt;
    NftMeansPolicy(allow, p);
    PfMeansPolicy(allow, p);
    IptablesMeansPolicy(allow, "ip6tables" in host.tools, p);
    NetshMeansPolicy(allow, v4, v6, p);
  }
}
