/**
 Connection tracking at an exit (apps/exit/src/agent.ts): after the `wg`
 commands of a round, the flows of every removed peer's host addresses are
 deleted, so that a later holder of an address inherits nothing.
 */
module Conntrack {
  import opened Reconcile
  import opened Sequences

  /** Is the prefix a single host, written `…/32` or `…/128`? */
  type IsHost = Prefix -> bool

  /** The addresses whose flows a plan deletes: the host addresses of the peers it removes. */
  function Deleted(actual: Table, changes: seq<Change>, isHost: IsHost): set<Prefix>
  {
    set c, p | c in changes && c.Remove? && c.key in actual && p in actual[c.key] && isHost(p) :: p
  }

  /** `conntrackCommands`: one deletion per host address of a removed peer. */
  method ConntrackCommands(actual: Listing, changes: seq<Change>, isHost: IsHost) returns (commands: seq<Prefix>)
    ensures Elements(commands) == Deleted(TableOf(actual), changes, isHost)
  {
    commands := [];
    for i := 0 to |changes|
      invariant Elements(commands) == Deleted(TableOf(actual), changes[..i], isHost)
    {
      var c := changes[i];
      assert changes[..i + 1] == changes[..i] + [c];
      if c.Remove? && c.key in actual {
        var hosts := HostsOf(actual[c.key], isHost);
        assert Elements(commands + hosts) == Elements(commands) + Elements(hosts);
        commands := commands + hosts;
      }
    }
    assert changes[..|changes|] == changes;
  }

  method HostsOf(prefixes: seq<Prefix>, isHost: IsHost) returns (hosts: seq<Prefix>)
    ensures Elements(hosts) == set p | p in prefixes && isHost(p)
  {
    hosts := [];
    for i := 0 to |prefixes|
      invariant Elements(hosts) == set p | p in prefixes[..i] && isHost(p)
    {
      assert prefixes[..i + 1] == prefixes[..i] + [prefixes[i]];
      if isHost(prefixes[i]) {
        assert Elements(hosts + [prefixes[i]]) == Elements(hosts) + {prefixes[i]};
        hosts := hosts + [prefixes[i]];
      }
    }
    assert prefixes[..|prefixes|] == prefixes;
  }

  /**
   What a round does to the flows of a prefix that `k` held: they are deleted if
   and only if it is a single host and `k` is no longer listed at all.
   */
  lemma FlowsEndIff(want: Table, actual: Table, removes: seq<Change>, sets: seq<Change>, isHost: IsHost, k: Key,
                    p: Prefix)
    requires Disjoint(actual) && IsPlan(want, actual, removes, sets) && k in actual && p in actual[k]
    ensures p in Deleted(actual, removes + sets, isHost) <==> isHost(p) && k !in want
  {
    if k !in want {
      assert k in KeysOf(removes);
      var c :| c in removes && c.key == k;
      assert c in removes + sets;
    }
    if p in Deleted(actual, removes + sets, isHost) {
      var c :| c in removes + sets && c.Remove? && c.key in actual && p in actual[c.key];
      assert c in removes;
      assert c.key in KeysOf(removes);
    }
  }

  /** So an address that moves between two listed peers keeps its old flows: two peers that trade addresses. */
  lemma TradedAddressKeepsFlows(a: Key, b: Key, p: Prefix, q: Prefix, isHost: IsHost)
    requires a != b && p != q && isHost(p)
    ensures var actual, want := map[a := {p}, b := {q}], map[a := {q}, b := {p}];
            var sets := [Set(a, [q]), Set(b, [p])];
            && IsPlan(want, actual, [], sets) && Run(actual, sets) == want
            && p !in Deleted(actual, sets, isHost)
  {
    hide IsPlan, Run;
    var actual, want := map[a := {p}, b := {q}], map[a := {q}, b := {p}];
    var sets := [Set(a, [q]), Set(b, [p])];
    TradePlan(a, b, p, q);
    assert Disjoint(want);
    PlanReaches(want, actual, [], sets);
    assert [] + sets == sets;
  }

  lemma TradePlan(a: Key, b: Key, p: Prefix, q: Prefix)
    requires a != b && p != q
    ensures IsPlan(map[a := {q}, b := {p}], map[a := {p}, b := {q}], [], [Set(a, [q]), Set(b, [p])])
  {
    var actual, want := map[a := {p}, b := {q}], map[a := {q}, b := {p}];
    var sets := [Set(a, [q]), Set(b, [p])];
    assert Elements([p]) == {p} && Elements([q]) == {q};
    assert p in actual[a] && q in want[a];
    assert !Right(actual, want, a) && !Right(actual, want, b);
    assert sets[0] in sets && sets[1] in sets;
    assert KeysOf(sets) == {a, b} && KeysOf([]) == {};
  }

  // ---------------------------------------------------------------------
  // A round cut short
  // ---------------------------------------------------------------------

  /** The peers that may use an address. WireGuard keeps this to one. */
  ghost function Holders(t: Table, p: Prefix): set<Key>
  {
    set k | k in t && p in t[k]
  }

  /** The next round deletes the flows of a host address if and only if a peer that holds it now is no longer listed. */
  lemma DeletedIff(t: Table, want: Table, removes: seq<Change>, sets: seq<Change>, isHost: IsHost, p: Prefix)
    requires IsPlan(want, t, removes, sets)
    ensures p in Deleted(t, removes + sets, isHost) <==> isHost(p) && exists k | k in Holders(t, p) :: k !in want
  {
    if isHost(p) && exists k | k in Holders(t, p) :: k !in want {
      var k :| k in Holders(t, p) && k !in want;
      assert k in KeysOf(removes);
      var c :| c in removes && c.key == k;
      assert c in removes + sets;
    }
    if p in Deleted(t, removes + sets, isHost) {
      var c :| c in removes + sets && c.Remove? && c.key in t && p in t[c.key] && isHost(p);
      assert c in removes;
      assert c.key in KeysOf(removes) && c.key in Holders(t, p);
    }
  }

  /** Changes that give an address to nobody only take it from the peers they touch. */
  lemma {:induction false} UnclaimedAddress(t: Table, cs: seq<Change>, p: Prefix)
    requires forall c | c in cs && c.Set? :: p !in Elements(c.allowedIps)
    ensures Holders(Run(t, cs), p) == Holders(t, p) - KeysOf(cs)
    decreases |cs|
  {
    if cs != [] {
      assert cs == [cs[0]] + cs[1..] && cs[0] in cs;
      assert KeysOf(cs) == {cs[0].key} + KeysOf(cs[1..]);
      assert Holders(Apply(t, cs[0]), p) == Holders(t, p) - {cs[0].key};
      UnclaimedAddress(Apply(t, cs[0]), cs[1..], p);
    }
  }

  /** A peer that is given the address is the only one to hold it afterwards. */
  lemma {:induction false} ClaimedAddress(t: Table, want: Table, cs: seq<Change>, j: Key, p: Prefix)
    requires Disjoint(want) && TowardsWant(want, cs) && DistinctKeys(cs)
    requires j in KeysOf(cs) && j in want && p in want[j]
    ensures Holders(Run(t, cs), p) == {j}
    decreases |cs|
  {
    var t', rest := Apply(t, cs[0]), cs[1..];
    assert cs == [cs[0]] + rest && cs[0] in cs;
    if cs[0].key != j {
      ClaimedAddress(t', want, rest, j, p);
    } else {
      assert Holders(t', p) == {j};
      assert forall c | c in rest :: c in cs && c.key != j;
      UnclaimedAddress(t', rest, p);
    }
  }

  /** Did the changes so far give `p` to the listed peer `j`? */
  ghost predicate Given(want: Table, part: seq<Change>, p: Prefix, j: Key)
  {
    j in KeysOf(part) && j in want && p in want[j]
  }

  /** Who holds the address `p` of peer `k` when a round ends after the changes `part`. */
  lemma HoldersAfter(want: Table, actual: Table, removes: seq<Change>, sets: seq<Change>, done: nat, k: Key, p: Prefix)
    requires Disjoint(want) && Disjoint(actual) && IsPlan(want, actual, removes, sets) && done <= |removes + sets|
    requires k in actual && p in actual[k]
    ensures var part := (removes + sets)[..done];
            var holders := Holders(Run(actual, part), p);
            if exists j :: Given(want, part, p, j) then forall j :: j in holders <==> Given(want, part, p, j)
            else holders == if k in KeysOf(part) then {} else {k}
  {
    hide Run, IsPlan;
    var part := (removes + sets)[..done];
    PlanTowards(want, actual, removes, sets);
    PlanDistinct(want, actual, removes, sets);
    if j :| Given(want, part, p, j) {
      ClaimedAddress(actual, want, part, j, p);
    } else {
      forall c | c in part && c.Set? ensures p !in Elements(c.allowedIps) {
        assert c.key in KeysOf(part) && !Given(want, part, p, c.key);
      }
      assert Holders(actual, p) == {k};
      UnclaimedAddress(actual, part, p);
    }
  }

  /**
   A round that ends early, after `done` clauses of its `wg` commands or later in
   its deletions, and the next one, for whatever list. The flows of an address
   that `k` held are deleted in the next round if and only if it is a single host
   and, where the first round had given it to a listed peer, that peer is no longer
   listed; otherwise, where the first round had not touched `k` yet and it
   is not listed. Once `k` is removed nothing deletes them on its account.
   */
  lemma SkippedDeletionIff(want: Table, actual: Table, removes: seq<Change>, sets: seq<Change>, done: nat,
                           want2: Table, removes2: seq<Change>, sets2: seq<Change>, isHost: IsHost, k: Key, p: Prefix)
    requires Disjoint(want) && Disjoint(actual) && IsPlan(want, actual, removes, sets) && done <= |removes + sets|
    requires IsPlan(want2, Run(actual, (removes + sets)[..done]), removes2, sets2)
    requires k in actual && p in actual[k]
    ensures var part := (removes + sets)[..done];
            p in Deleted(Run(actual, part), removes2 + sets2, isHost)
            <==> isHost(p) &&
                 if exists j :: Given(want, part, p, j) then exists j | Given(want, part, p, j) :: j !in want2
                 else k !in KeysOf(part) && k !in want2
  {
    hide Run, IsPlan, Deleted;
    HoldersAfter(want, actual, removes, sets, done, k, p);
    DeletedIff(Run(actual, (removes + sets)[..done]), want2, removes2, sets2, isHost, p);
  }

  /**
   So a deletion that fails, after all `wg` commands took effect, is not tried
   again: the next round deletes nothing.
   */
  lemma FailedDeletionNotRetried(want: Table, actual: Table, removes: seq<Change>, sets: seq<Change>,
                                 removes2: seq<Change>, sets2: seq<Change>, isHost: IsHost)
    requires Disjoint(want) && IsPlan(want, actual, removes, sets)
    requires IsPlan(want, Run(actual, removes + sets), removes2, sets2)
    ensures Deleted(Run(actual, removes + sets), removes2 + sets2, isHost) == {}
  {
    PlanReaches(want, actual, removes, sets);
    ReplanIsEmpty(want, removes2, sets2);
  }

  /**
   A run of it: the only clause removes `a`, and `wg` reports a failure after it;
   `p` has no holder, and its flows remain.
   */
  lemma SkippedDeletionExample(a: Key, p: Prefix, isHost: IsHost)
    requires isHost(p)
    ensures var removes := [Remove(a)];
            && IsPlan(map[], map[a := {p}], removes, []) && p in Deleted(map[a := {p}], removes + [], isHost)
            && Run(map[a := {p}], (removes + [])[..1]) == map[] && IsPlan(map[], map[], [], [])
            && Deleted(map[], [], isHost) == {}
  {
    var removes, actual: Table := [Remove(a)], map[a := {p}];
    var none: seq<Change> := [];
    assert removes + none == removes && removes[..1] == removes && removes[1..] == [];
    assert removes[0] in removes && KeysOf(removes) == {a} && KeysOf(none) == {};
    assert actual - {a} == map[];
    assert p in actual[a];
  }

  /**
   And one where the address has a new holder: `a` is removed, `b` gets `p`, and
   `wg` reports a failure after both. The deletion is skipped, the next round has
   nothing to do, and `b` holds an address with the flows of `a`.
   */
  lemma InheritedFlowsExample(a: Key, b: Key, p: Prefix, isHost: IsHost)
    requires a != b && isHost(p)
    ensures var actual, want := map[a := {p}], map[b := {p}];
            var removes, sets := [Remove(a)], [Set(b, [p])];
            && IsPlan(want, actual, removes, sets) && p in Deleted(actual, removes + sets, isHost)
            && Run(actual, (removes + sets)[..2]) == want && IsPlan(want, want, [], [])
            && Deleted(want, [], isHost) == {}
  {
    var actual, want: Table := map[a := {p}], map[b := {p}];
    var removes, sets := [Remove(a)], [Set(b, [p])];
    var none: seq<Change> := [];
    assert removes[0] in removes && sets[0] in sets;
    assert KeysOf(removes) == {a} && KeysOf(sets) == {b} && KeysOf(none) == {};
    assert Elements([p]) == {p};
    assert b !in actual;
    assert IsPlan(want, actual, removes, sets);
    assert Disjoint(want) && Disjoint(actual);
    FlowsEndIff(want, actual, removes, sets, isHost, a, p);
    PlanReaches(want, actual, removes, sets);
    assert (removes + sets)[..2] == removes + sets;
    assert Right(want, want, b);
  }

  // ---------------------------------------------------------------------
  // Traffic while the round runs
  // ---------------------------------------------------------------------

  /** Packets from the addresses a table allows may create flows at any moment. */
  ghost predicate Traffic(t: Table, before: set<Prefix>, after: set<Prefix>)
  {
    before <= after <= before + AddressesOf(t)
  }

  /**
   After a round that succeeds, with any traffic between its commands, no flow
   is left from a host address of a removed peer that nobody holds now. The
   deletions come last, when no packet from it is accepted any more.
   */
  lemma RemovedPeersFlowsEnd(want: Table, actual: Table, removes: seq<Change>, sets: seq<Change>, isHost: IsHost,
                             applied: set<Prefix>, flows: set<Prefix>, k: Key, p: Prefix)
    requires Disjoint(want) && IsPlan(want, actual, removes, sets)
    requires Traffic(Run(actual, removes + sets), applied - Deleted(actual, removes + sets, isHost), flows)
    requires k in actual && k !in want && p in actual[k] && isHost(p) && p !in AddressesOf(want)
    ensures p !in flows
  {
    PlanReaches(want, actual, removes, sets);
    assert k in KeysOf(removes);
    var c :| c in removes && c.key == k;
    assert c in removes + sets;
    assert p in Deleted(actual, removes + sets, isHost);
  }
}
