/** The plan that turns the peers WireGuard has into those the API lists (apps/exit/src/reconcile.ts). */
module Reconcile {
  import opened Sequences
  import opened Text

  type Key = JsString
  type Prefix = JsString
  type Table = map<Key, set<Prefix>>
  type Listing = map<Key, seq<Prefix>>

  const PEERS_PER_COMMAND := 100

  datatype Change = Set(key: Key, allowedIps: seq<Prefix>) | Remove(key: Key)

  /** What a listing of allowed IPs says about the interface. */
  function TableOf(l: Listing): Table { map k | k in l :: Elements(l[k]) }

  /** One `peer …` clause of `wg set`; an allowed IP has one owner, and setting it takes it from whoever has it. */
  function Apply(t: Table, c: Change): Table
  {
    match c
    case Remove(k) => t - {k}
    case Set(k, ips) => (map x | x in t :: t[x] - Elements(ips))[k := Elements(ips)]
  }

  function Run(t: Table, cs: seq<Change>): Table
    decreases |cs|
  {
    if cs == [] then t else Run(Apply(t, cs[0]), cs[1..])
  }

  lemma {:induction false} RunConcat(t: Table, a: seq<Change>, b: seq<Change>)
    ensures Run(t, a + b) == Run(Run(t, a), b)
    decreases |a|
  {
    if a == [] {
      assert a + b == b;
    } else {
      RunConcat(Apply(t, a[0]), a[1..], b);
      assert (a + b)[1..] == a[1..] + b;
    }
  }

  /** No address belongs to two keys. */
  predicate Disjoint(t: Table)
  {
    forall j, k | j in t && k in t && j != k :: t[j] !! t[k]
  }

  function KeysOf(cs: seq<Change>): set<Key> { set c | c in cs :: c.key }

  predicate DistinctKeys(cs: seq<Change>)
  {
    forall i, j | 0 <= i < j < |cs| :: cs[i].key != cs[j].key
  }

  predicate Right(t: Table, want: Table, k: Key) { k in t && k in want && t[k] == want[k] }

  /** A plan: every unwanted key removed, then every missing or wrong one set, each once. */
  ghost predicate IsPlan(want: Table, actual: Table, removes: seq<Change>, sets: seq<Change>)
  {
    && DistinctKeys(removes) && DistinctKeys(sets)
    && (forall c | c in removes :: c.Remove?)
    && KeysOf(removes) == actual.Keys - want.Keys
    && SetsOf(want, sets)
    && KeysOf(sets) == set k | k in want && !Right(actual, want, k)
  }

  ghost predicate SetsOf(want: Table, sets: seq<Change>)
  {
    forall c | c in sets :: c.Set? && c.key in want && Elements(c.allowedIps) == want[c.key]
  }

  // ---------------------------------------------------------------------
  // The plan reaches the desired table
  // ---------------------------------------------------------------------

  lemma {:induction false} RunRemoves(t: Table, removes: seq<Change>)
    requires forall c | c in removes :: c.Remove?
    ensures Run(t, removes) == t - KeysOf(removes)
    decreases |removes|
  {
    if removes != [] {
      var c := removes[0];
      RunRemoves(Apply(t, c), removes[1..]);
      assert KeysOf(removes) == {c.key} + KeysOf(removes[1..]) by { assert removes == [c] + removes[1..]; }
    }
  }

  function Claimed(sets: seq<Change>): set<Prefix>
  {
    set c, p | c in sets && c.Set? && p in c.allowedIps :: p
  }

  /** What `k` has is what it should have, apart from addresses that later sets will take. */
  ghost predicate Settles(t: Table, want: Table, sets: seq<Change>, k: Key)
    requires k in want
  {
    k in KeysOf(sets) || (k in t && want[k] <= t[k] <= want[k] + Claimed(sets))
  }

  lemma SetStep(t: Table, want: Table, sets: seq<Change>, k: Key)
    requires Disjoint(want) && sets != [] && SetsOf(want, sets)
    requires k in want && Settles(t, want, sets, k)
    ensures Settles(Apply(t, sets[0]), want, sets[1..], k)
  {
    var c := sets[0];
    assert sets == [c] + sets[1..];
    assert c in sets;
    if k != c.key && k !in KeysOf(sets[1..]) {
      assert k !in KeysOf(sets);
      assert Apply(t, c)[k] == t[k] - want[c.key];
      assert want[k] !! want[c.key];
      forall p | p in t[k] && p !in want[k] && p !in want[c.key] ensures p in Claimed(sets[1..]) {
        assert p in Claimed(sets);
      }
    }
  }

  lemma {:induction false} RunSets(t: Table, want: Table, sets: seq<Change>)
    requires Disjoint(want) && SetsOf(want, sets) && t.Keys <= want.Keys
    requires forall k | k in want :: Settles(t, want, sets, k)
    ensures Run(t, sets) == want
    decreases |sets|
  {
    if sets == [] {
      assert Claimed(sets) == {};
      forall k | k in want ensures k in t && t[k] == want[k] {
        assert Settles(t, want, sets, k);
      }
    } else {
      forall k | k in want ensures Settles(Apply(t, sets[0]), want, sets[1..], k) {
        SetStep(t, want, sets, k);
      }
      assert sets[0] in sets;
      RunSets(Apply(t, sets[0]), want, sets[1..]);
    }
  }

  /** Running a plan ends in exactly the desired table, whatever the interface held before. */
  lemma PlanReaches(want: Table, actual: Table, removes: seq<Change>, sets: seq<Change>)
    requires Disjoint(want) && IsPlan(want, actual, removes, sets)
    ensures Run(actual, removes + sets) == want
  {
    RunConcat(actual, removes, sets);
    RunRemoves(actual, removes);
    var t := actual - KeysOf(removes);
    forall k | k in want ensures Settles(t, want, sets, k) {
      if k !in KeysOf(sets) {
        assert Right(actual, want, k);
      }
    }
    RunSets(t, want, sets);
  }

  /** Planning again from the desired table changes nothing. */
  lemma ReplanIsEmpty(want: Table, removes: seq<Change>, sets: seq<Change>)
    requires IsPlan(want, want, removes, sets)
    ensures removes == [] && sets == []
  {
    assert removes != [] ==> removes[0].key in KeysOf(removes);
    assert sets != [] ==> sets[0].key in KeysOf(sets);
    assert forall k | k in want :: Right(want, want, k);
  }

  lemma {:induction false} RightStays(t: Table, want: Table, cs: seq<Change>, k: Key)
    requires Disjoint(want) && Right(t, want, k)
    requires forall c | c in cs :: c.key != k && (c.Set? ==> c.key in want && Elements(c.allowedIps) == want[c.key])
    ensures Right(Run(t, cs), want, k)
    decreases |cs|
  {
    if cs != [] {
      assert cs[0] in cs;
      if cs[0].Set? {
        assert want[cs[0].key] !! want[k];
      }
      RightStays(Apply(t, cs[0]), want, cs[1..], k);
    }
  }

  /** A peer that is already right keeps every address at every point of the run. */
  lemma RightPeersUndisturbed(want: Table, actual: Table, removes: seq<Change>, sets: seq<Change>, k: Key, n: nat)
    requires Disjoint(want) && IsPlan(want, actual, removes, sets)
    requires Right(actual, want, k) && n <= |removes + sets|
    ensures Right(Run(actual, (removes + sets)[..n]), want, k)
  {
    forall c | c in (removes + sets)[..n]
      ensures c.key != k && (c.Set? ==> c.key in want && Elements(c.allowedIps) == want[c.key])
    {
      assert c in removes || c in sets;
      assert c in removes ==> c.key in KeysOf(removes);
      assert c in sets ==> c.key in KeysOf(sets);
    }
    RightStays(actual, want, (removes + sets)[..n], k);
  }

  /** Once the removals have run, only wanted keys are on the interface. */
  lemma UnwantedGoFirst(want: Table, actual: Table, removes: seq<Change>, sets: seq<Change>, n: nat)
    requires IsPlan(want, actual, removes, sets) && n <= |sets|
    ensures Run(actual, removes + sets[..n]).Keys <= want.Keys
  {
    RunConcat(actual, removes, sets[..n]);
    RunRemoves(actual, removes);
    SetsAddWanted(actual - KeysOf(removes), want, sets[..n]);
  }

  lemma {:induction false} SetsAddWanted(t: Table, want: Table, sets: seq<Change>)
    requires SetsOf(want, sets) && t.Keys <= want.Keys
    ensures Run(t, sets).Keys <= want.Keys
    decreases |sets|
  {
    if sets != [] {
      assert sets[0] in sets;
      SetsAddWanted(Apply(t, sets[0]), want, sets[1..]);
    }
  }

  // ---------------------------------------------------------------------
  // A plan cut short
  // ---------------------------------------------------------------------

  /** Changes of a plan, in any order: sets to what is wanted, removals of what is not. */
  ghost predicate TowardsWant(want: Table, cs: seq<Change>)
  {
    forall c | c in cs :: if c.Set? then c.key in want && Elements(c.allowedIps) == want[c.key] else c.key !in want
  }

  lemma {:induction false} UnwantedStaysAway(t: Table, want: Table, cs: seq<Change>, k: Key)
    requires TowardsWant(want, cs) && k !in want && k !in t
    ensures k !in Run(t, cs)
    decreases |cs|
  {
    if cs != [] {
      assert cs[0] in cs;
      UnwantedStaysAway(Apply(t, cs[0]), want, cs[1..], k);
    }
  }

  /** What a key's change achieves, the changes of other keys leave alone. */
  lemma {:induction false} DoneStaysDone(t: Table, want: Table, cs: seq<Change>, k: Key)
    requires Disjoint(want) && TowardsWant(want, cs) && DistinctKeys(cs) && k in KeysOf(cs)
    ensures if k in want then Right(Run(t, cs), want, k) else k !in Run(t, cs)
    decreases |cs|
  {
    var t', rest := Apply(t, cs[0]), cs[1..];
    assert cs[0] in cs && cs == [cs[0]] + rest;
    if cs[0].key != k {
      DoneStaysDone(t', want, rest, k);
    } else if k in want {
      RightStays(t', want, rest, k);
    } else {
      UnwantedStaysAway(t', want, rest, k);
    }
  }

  lemma PlanTowards(want: Table, actual: Table, removes: seq<Change>, sets: seq<Change>)
    requires IsPlan(want, actual, removes, sets)
    ensures TowardsWant(want, removes + sets)
  {
    forall c | c in removes + sets
      ensures if c.Set? then c.key in want && Elements(c.allowedIps) == want[c.key] else c.key !in want
    {
      assert c in removes || c in sets;
      assert c in removes ==> c.key in KeysOf(removes);
    }
  }

  /**
   A run cut short after `done` changes is resumed, not started over: the next
   plan touches only keys the first had not reached, so it has at most the
   remaining changes, and it ends in the desired table.
   */
  lemma InterruptedPlanResumes(want: Table, actual: Table, removes: seq<Change>, sets: seq<Change>, done: nat,
                               removes': seq<Change>, sets': seq<Change>)
    requires Disjoint(want) && IsPlan(want, actual, removes, sets) && done <= |removes + sets|
    requires IsPlan(want, Run(actual, (removes + sets)[..done]), removes', sets')
    ensures KeysOf(removes' + sets') <= KeysOf((removes + sets)[done..])
    ensures |removes' + sets'| <= |removes + sets| - done
    ensures Run(Run(actual, (removes + sets)[..done]), removes' + sets') == want
  {
    hide Run, Apply, Disjoint, Right, TowardsWant;
    var plan := removes + sets;
    var mid := Run(actual, plan[..done]);
    PlanReaches(want, mid, removes', sets');
    PlanDistinct(want, actual, removes, sets);
    PlanDistinct(want, mid, removes', sets');
    assert plan == plan[..done] + plan[done..];
    forall k | k in KeysOf(removes' + sets') ensures k in KeysOf(plan[done..]) {
      LeftToDo(want, actual, removes, sets, done, k);
    }
    DistinctCount(removes' + sets');
    DistinctCount(plan[done..]);
    SubsetCount(KeysOf(removes' + sets'), KeysOf(plan[done..]));
  }

  lemma LeftToDo(want: Table, actual: Table, removes: seq<Change>, sets: seq<Change>, done: nat, k: Key)
    requires Disjoint(want) && IsPlan(want, actual, removes, sets) && done <= |removes + sets|
    requires var mid := Run(actual, (removes + sets)[..done]);
             (k in mid && k !in want) || (k in want && !Right(mid, want, k))
    ensures k in KeysOf((removes + sets)[done..])
  {
    var plan := removes + sets;
    assert plan == plan[..done] + plan[done..];
    PlanTowards(want, actual, removes, sets);
    PlanDistinct(want, actual, removes, sets);
    assert TowardsWant(want, plan[..done]);
    if k in KeysOf(plan[..done]) {
      DoneStaysDone(actual, want, plan[..done], k);
    } else if k !in KeysOf(plan) {
      if k in want {
        RightPeersUndisturbed(want, actual, removes, sets, k, done);
      } else {
        UnwantedStaysAway(actual, want, plan[..done], k);
      }
    }
  }

  // ---------------------------------------------------------------------
  // How small the plan is
  // ---------------------------------------------------------------------

  function AddressesOf(t: Table): set<Prefix>
  {
    set k, p | k in t && p in t[k] :: p
  }

  /** `k` has what it should and more, and all the rest is wanted by other keys. */
  predicate Redundant(want: Table, actual: Table, k: Key)
  {
    k in want && k in actual && want[k] < actual[k] <= AddressesOf(want)
  }

  lemma {:induction false} UntouchedShrinks(t: Table, ops: seq<Change>, k: Key)
    requires k !in KeysOf(ops)
    ensures k in Run(t, ops) <==> k in t
    ensures k in t ==> Run(t, ops)[k] <= t[k]
    decreases |ops|
  {
    if ops != [] {
      assert ops == [ops[0]] + ops[1..] && ops[0] in ops;
      UntouchedShrinks(Apply(t, ops[0]), ops[1..], k);
    }
  }

  /** When each key is touched at most once, an address held by a key not yet due is never lost, only moved. */
  lemma {:induction false} AddressStays(t: Table, ops: seq<Change>, k: Key, p: Prefix)
    requires DistinctKeys(ops) && k !in KeysOf(ops) && k in t && p in t[k]
    ensures p in AddressesOf(Run(t, ops))
    decreases |ops|
  {
    if ops != [] {
      var c := ops[0];
      assert ops == [c] + ops[1..] && c in ops;
      if c.Set? && p in c.allowedIps {
        assert c.key !in KeysOf(ops[1..]);
        AddressStays(Apply(t, c), ops[1..], c.key, p);
      } else {
        AddressStays(Apply(t, c), ops[1..], k, p);
      }
    }
  }

  /** Every key the plan touches must be touched, unless it is redundant. */
  lemma MustTouch(want: Table, actual: Table, ops: seq<Change>, k: Key)
    requires DistinctKeys(ops) && Run(actual, ops) == want
    requires (k in actual && k !in want) || (k in want && !Right(actual, want, k) && !Redundant(want, actual, k))
    ensures k in KeysOf(ops)
  {
    if k !in KeysOf(ops) {
      UntouchedShrinks(actual, ops, k);
      assert want[k] < actual[k];
      var p :| p in actual[k] && p !in AddressesOf(want);
      AddressStays(actual, ops, k, p);
    }
  }

  function KeyList(cs: seq<Change>): seq<Key> { seq(|cs|, i requires 0 <= i < |cs| => cs[i].key) }

  /** There are as many changes as keys exactly when no key is changed twice, and otherwise more. */
  lemma DistinctCount(cs: seq<Change>)
    ensures |KeysOf(cs)| <= |cs|
    ensures DistinctKeys(cs) <==> |KeysOf(cs)| == |cs|
  {
    var keys := KeyList(cs);
    assert Elements(keys) == KeysOf(cs) by {
      forall k ensures k in Elements(keys) <==> k in KeysOf(cs) {
        if k in Elements(keys) {
          var i :| 0 <= i < |keys| && keys[i] == k;
          assert cs[i] in cs;
        }
        if k in KeysOf(cs) {
          var i :| 0 <= i < |cs| && cs[i].key == k;
          assert keys[i] in keys;
        }
      }
    }
    assert forall i | 0 <= i < |cs| :: keys[i] == cs[i].key;
    if Distinct(keys) {
      forall i, j | 0 <= i < j < |cs| ensures cs[i].key != cs[j].key { assert keys[i] != keys[j]; }
    }
    if DistinctKeys(cs) {
      forall i, j | 0 <= i < j < |keys| ensures keys[i] != keys[j] { assert cs[i].key != cs[j].key; }
    }
    ElementsCount(keys);
  }

  lemma SubsetCount<T>(a: set<T>, b: set<T>)
    requires a <= b
    ensures |a| <= |b|
  {
    assert b == a + (b - a) && |b| == |a| + |b - a|;
  }

  lemma PlanDistinct(want: Table, actual: Table, removes: seq<Change>, sets: seq<Change>)
    requires IsPlan(want, actual, removes, sets)
    ensures DistinctKeys(removes + sets) && KeysOf(removes + sets) == KeysOf(removes) + KeysOf(sets)
  {
    assert KeysOf(removes) !! KeysOf(sets);
    assert forall c | c in removes :: c.key in KeysOf(removes);
    assert forall c | c in sets :: c.key in KeysOf(sets);
    forall i, j | 0 <= i < j < |removes + sets| ensures (removes + sets)[i].key != (removes + sets)[j].key {
      if i < |removes| <= j {
        assert removes[i] in removes && sets[j - |removes|] in sets;
      }
    }
  }

  lemma PlanSmallest(want: Table, actual: Table, removes: seq<Change>, sets: seq<Change>, ops: seq<Change>)
    requires IsPlan(want, actual, removes, sets) && (forall k :: !Redundant(want, actual, k))
    requires DistinctKeys(ops) && Run(actual, ops) == want
    ensures |removes + sets| <= |ops|
  {
    PlanDistinct(want, actual, removes, sets);
    forall k | k in KeysOf(removes + sets) ensures k in KeysOf(ops) {
      MustTouch(want, actual, ops, k);
    }
    DistinctCount(removes + sets);
    DistinctCount(ops);
    SubsetCount(KeysOf(removes + sets), KeysOf(ops));
  }

  /** Leaving out the set of a redundant key still reaches the desired table. */
  lemma RedundantCanBeDropped(want: Table, actual: Table, removes: seq<Change>, sets: seq<Change>, k: Key, i: nat)
    requires Disjoint(want) && Disjoint(actual) && IsPlan(want, actual, removes, sets)
    requires Redundant(want, actual, k) && i < |sets| && sets[i].key == k
    ensures Run(actual, removes + (sets[..i] + sets[i + 1..])) == want
  {
    var fewer := sets[..i] + sets[i + 1..];
    RunConcat(actual, removes, fewer);
    RunRemoves(actual, removes);
    var t := actual - KeysOf(removes);
    forall j | j in KeysOf(sets) && j != k ensures j in KeysOf(fewer) {
      var c :| c in sets && c.key == j;
      assert c in fewer;
    }
    forall p | p in actual[k] && p !in want[k] ensures p in Claimed(fewer) {
      ExtraIsClaimed(want, actual, removes, sets, k, p, fewer);
    }
    forall j | j in want ensures Settles(t, want, fewer, j) {
      if j != k && j !in KeysOf(fewer) {
        assert j !in KeysOf(sets);
        assert Right(actual, want, j);
      }
    }
    RunSets(t, want, fewer);
  }

  lemma ExtraIsClaimed(
    want: Table, actual: Table, removes: seq<Change>, sets: seq<Change>, k: Key, p: Prefix, fewer: seq<Change>)
    requires Disjoint(actual) && IsPlan(want, actual, removes, sets)
    requires Redundant(want, actual, k) && p in actual[k] && p !in want[k]
    requires (forall j | j in KeysOf(sets) && j != k :: j in KeysOf(fewer)) && (forall c | c in fewer :: c in sets)
    ensures p in Claimed(fewer)
  {
    assert p in AddressesOf(want);
    var j :| j in want && p in want[j];
    assert j in actual ==> actual[j] !! actual[k];
    assert !Right(actual, want, j) && j != k;
    assert j in KeysOf(sets) && j in KeysOf(fewer);
    var c :| c in fewer && c.key == j;
    assert p in c.allowedIps;
  }

  /** The keys no run can leave alone: unwanted, or without an address they should have. */
  function MustChange(want: Table, actual: Table): set<Key>
  {
    (actual.Keys - want.Keys) + set k | k in want && !(k in actual && want[k] <= actual[k])
  }

  /** The keys that have all they should and an address that nobody should have. */
  function Bloated(want: Table, actual: Table): set<Key>
  {
    set k | k in want && k in actual && want[k] < actual[k] && !Redundant(want, actual, k)
  }

  /** No redundant peer; and at most one bloated one, or two and nothing else to change. */
  ghost predicate NoShortcut(want: Table, actual: Table)
  {
    && (forall k :: !Redundant(want, actual, k))
    && (|Bloated(want, actual)| <= 1 || (|Bloated(want, actual)| == 2 && MustChange(want, actual) == {}))
  }

  /** What a plan touches: the keys that must change, the bloated ones and the redundant ones. */
  lemma PlanTouches(want: Table, actual: Table, removes: seq<Change>, sets: seq<Change>, k: Key)
    requires IsPlan(want, actual, removes, sets)
    ensures k in KeysOf(removes + sets)
       <==> k in MustChange(want, actual) || k in Bloated(want, actual) || Redundant(want, actual, k)
    ensures !(k in MustChange(want, actual) && k in Bloated(want, actual))
  {
    PlanDistinct(want, actual, removes, sets);
    hide Redundant;
    if Redundant(want, actual, k) { RedundantExceeds(want, actual, k); }
  }

  lemma RedundantExceeds(want: Table, actual: Table, k: Key)
    requires Redundant(want, actual, k)
    ensures k in want && k in actual && want[k] < actual[k]
  {
  }

  lemma PlanKeys(want: Table, actual: Table, removes: seq<Change>, sets: seq<Change>)
    requires IsPlan(want, actual, removes, sets)
    ensures |removes + sets| >= |MustChange(want, actual)| + |Bloated(want, actual)|
    ensures (forall k :: !Redundant(want, actual, k)) ==>
              |removes + sets| == |MustChange(want, actual)| + |Bloated(want, actual)|
  {
    hide *;
    PlanDistinct(want, actual, removes, sets);
    DistinctCount(removes + sets);
    var must, bloated, keys := MustChange(want, actual), Bloated(want, actual), KeysOf(removes + sets);
    forall k | k in must || k in bloated ensures k in keys && !(k in must && k in bloated) {
      PlanTouches(want, actual, removes, sets, k);
    }
    if forall k :: !Redundant(want, actual, k) {
      forall k | k in keys ensures k in must || k in bloated { PlanTouches(want, actual, removes, sets, k); }
    }
    UnionCount(must, bloated, keys);
  }

  lemma UnionCount<T>(a: set<T>, b: set<T>, all: set<T>)
    requires a !! b && a <= all && b <= all
    ensures |all| >= |a| + |b| && (all <= a + b ==> |all| == |a| + |b|)
  {
    assert |a + b| == |a| + |b|;
    SubsetCount(a + b, all);
    assert all <= a + b ==> all == a + b;
  }

  /** With no shortcut, no sequence of changes at all is shorter than the plan. */
  lemma PlanShortest(want: Table, actual: Table, removes: seq<Change>, sets: seq<Change>, ops: seq<Change>)
    requires IsPlan(want, actual, removes, sets) && NoShortcut(want, actual) && Run(actual, ops) == want
    ensures |removes + sets| <= |ops|
  {
    if DistinctKeys(ops) {
      PlanSmallest(want, actual, removes, sets, ops);
    } else {
      forall k | k in MustChange(want, actual) ensures k in KeysOf(ops) {
        if k !in KeysOf(ops) { UntouchedShrinks(actual, ops, k); }
      }
      PlanKeys(want, actual, removes, sets);
      DistinctCount(ops);
      SubsetCount(MustChange(want, actual), KeysOf(ops));
    }
  }

  /**
   One set that takes every unwanted address, by a key that changes later
   anyway, spares all other bloated keys their own set.
   */
  lemma ThiefWorks(want: Table, actual: Table, removes: seq<Change>, kept: seq<Change>, thief: Key, loot: seq<Prefix>)
    requires Disjoint(want) && Disjoint(actual) && SetsOf(want, kept)
    requires (forall c | c in removes :: c.Remove?) && KeysOf(removes) == actual.Keys - want.Keys
    requires thief in want || thief in actual
    requires forall k | k in want && (k == thief || k in MustChange(want, actual)) :: k in KeysOf(kept)
    requires Elements(loot) == AddressesOf(actual) - AddressesOf(want)
    ensures Run(actual, [Set(thief, loot)] + (removes + kept)) == want
  {
    var t0 := Apply(actual, Set(thief, loot));
    RunConcat(actual, [Set(thief, loot)], removes + kept);
    assert Run(actual, [Set(thief, loot)]) == t0 by { assert [Set(thief, loot)][1..] == []; }
    RunConcat(t0, removes, kept);
    RunRemoves(t0, removes);
    var t := t0 - KeysOf(removes);
    forall k | k in want ensures Settles(t, want, kept, k) {
      if k !in KeysOf(kept) {
        LootedSettles(want, actual, kept, thief, loot, k);
        assert t[k] == actual[k] - Elements(loot);
      }
    }
    RunSets(t, want, kept);
  }

  lemma LootedSettles(want: Table, actual: Table, kept: seq<Change>, thief: Key, loot: seq<Prefix>, k: Key)
    requires Disjoint(actual) && SetsOf(want, kept) && k in want && k !in KeysOf(kept) && k in actual
             && want[k] <= actual[k]
    requires forall x | x in want && (x == thief || x in MustChange(want, actual)) :: x in KeysOf(kept)
    requires Elements(loot) == AddressesOf(actual) - AddressesOf(want)
    ensures want[k] <= actual[k] - Elements(loot) <= want[k] + Claimed(kept)
  {
    forall p | p in want[k] ensures p !in Elements(loot) {
      assert p in AddressesOf(want);
    }
    forall p | p in actual[k] && p !in Elements(loot) && p !in want[k] ensures p in Claimed(kept) {
      assert p in AddressesOf(actual);
      var j :| j in want && p in want[j];
      assert j in actual ==> actual[j] !! actual[k];
      assert j in MustChange(want, actual) && j in KeysOf(kept);
      var c :| c in kept && c.key == j;
      assert p in Elements(c.allowedIps);
    }
  }

  function Only(cs: seq<Change>, keys: set<Key>): (r: seq<Change>)
    ensures forall c :: c in r <==> c in cs && c.key in keys
  {
    if cs == [] then []
    else
      var rest := Only(cs[..|cs| - 1], keys);
      assert cs == cs[..|cs| - 1] + [cs[|cs| - 1]];
      if cs[|cs| - 1].key in keys then rest + [cs[|cs| - 1]] else rest
  }

  lemma {:induction false} OnlyDistinct(cs: seq<Change>, keys: set<Key>)
    requires DistinctKeys(cs)
    ensures DistinctKeys(Only(cs, keys))
  {
    if cs != [] {
      var n := |cs| - 1;
      OnlyDistinct(cs[..n], keys);
      var rest := Only(cs[..n], keys);
      assert forall i | 0 <= i < n :: cs[..n][i] == cs[i];
      forall i | 0 <= i < |rest| ensures rest[i].key != cs[n].key {
        assert rest[i] in rest;
      }
    }
  }

  /** Two bloated keys and something else to change: a shorter run. */
  lemma ThiefAmongOthers(want: Table, actual: Table, removes: seq<Change>, sets: seq<Change>) returns (ops: seq<Change>)
    requires Disjoint(want) && Disjoint(actual) && IsPlan(want, actual, removes, sets)
    requires |Bloated(want, actual)| >= 2 && MustChange(want, actual) != {}
    ensures Run(actual, ops) == want && |ops| < |removes + sets|
  {
    var must := MustChange(want, actual);
    var thief :| thief in must;
    var loot := Listed(AddressesOf(actual) - AddressesOf(want));
    var kept := Only(sets, must);
    assert SetsOf(want, kept);
    forall k | k in want && k in must ensures k in KeysOf(kept) {
      assert k in KeysOf(sets);
      var c :| c in sets && c.key == k;
      assert c in kept;
    }
    ThiefWorks(want, actual, removes, kept, thief, loot);
    ops := [Set(thief, loot)] + (removes + kept);
    OnlyDistinct(sets, must);
    DistinctCount(removes);
    DistinctCount(kept);
    assert KeysOf(removes) !! KeysOf(kept);
    assert |KeysOf(removes) + KeysOf(kept)| == |removes| + |kept|;
    SubsetCount(KeysOf(removes) + KeysOf(kept), must);
    PlanKeys(want, actual, removes, sets);
  }

  /** Three bloated keys and nothing else: two changes of one of them suffice. */
  lemma ThiefAlone(want: Table, actual: Table, removes: seq<Change>, sets: seq<Change>) returns (ops: seq<Change>)
    requires Disjoint(want) && Disjoint(actual) && IsPlan(want, actual, removes, sets)
    requires |Bloated(want, actual)| >= 3 && MustChange(want, actual) == {}
    ensures Run(actual, ops) == want && |ops| < |removes + sets|
  {
    var thief, c := BloatedSet(want, actual, removes, sets);
    hide Run, IsPlan, Disjoint, Bloated, AddressesOf, Apply;
    PlanKeys(want, actual, removes, sets);
    var loot := Listed(AddressesOf(actual) - AddressesOf(want));
    DistinctCount(removes);
    assert c in [c] && KeysOf([c]) == {thief};
    ThiefWorks(want, actual, removes, [c], thief, loot);
    ops := [Set(thief, loot)] + (removes + [c]);
  }

  lemma BloatedSet(want: Table, actual: Table, removes: seq<Change>, sets: seq<Change>) returns (k: Key, c: Change)
    requires IsPlan(want, actual, removes, sets) && Bloated(want, actual) != {} && MustChange(want, actual) == {}
    ensures k in want && c.key == k && SetsOf(want, [c])
    ensures KeysOf(removes) == actual.Keys - want.Keys == {} && DistinctKeys(removes)
    ensures forall d | d in removes :: d.Remove?
  {
    k :| k in Bloated(want, actual);
    assert k in KeysOf(sets);
    c :| c in sets && c.key == k;
    assert actual.Keys - want.Keys <= MustChange(want, actual);
  }

  /**
   The plan is a smallest sequence of `wg set` operations, among all sequences
   that reach the desired table, if and only if there is no shortcut.
   */
  lemma PlanSmallestIff(want: Table, actual: Table, removes: seq<Change>, sets: seq<Change>)
    requires Disjoint(want) && Disjoint(actual) && IsPlan(want, actual, removes, sets)
    ensures (forall ops | Run(actual, ops) == want :: |removes + sets| <= |ops|) <==> NoShortcut(want, actual)
  {
    hide Run, Disjoint, IsPlan, DistinctKeys, Redundant, Bloated, MustChange;
    if NoShortcut(want, actual) {
      forall ops | Run(actual, ops) == want ensures |removes + sets| <= |ops| {
        PlanShortest(want, actual, removes, sets, ops);
      }
    } else if exists k :: Redundant(want, actual, k) {
      var k :| Redundant(want, actual, k);
      var ops := DropRedundant(want, actual, removes, sets, k);
    } else if MustChange(want, actual) == {} {
      var ops := ThiefAlone(want, actual, removes, sets);
    } else {
      var ops := ThiefAmongOthers(want, actual, removes, sets);
    }
  }

  lemma DropRedundant(want: Table, actual: Table, removes: seq<Change>, sets: seq<Change>, k: Key)
    returns (ops: seq<Change>)
    requires Disjoint(want) && Disjoint(actual) && IsPlan(want, actual, removes, sets) && Redundant(want, actual, k)
    ensures DistinctKeys(ops) && Run(actual, ops) == want && |ops| < |removes + sets|
  {
    var i := KeyAt(want, actual, removes, sets, k);
    hide *;
    PlanDistinct(want, actual, removes, sets);
    RedundantCanBeDropped(want, actual, removes, sets, k, i);
    ops := removes + (sets[..i] + sets[i + 1..]);
    WithoutOne(removes + sets, |removes| + i);
    SkipConcat(removes, sets, i);
  }

  lemma KeyAt(want: Table, actual: Table, removes: seq<Change>, sets: seq<Change>, k: Key) returns (i: nat)
    requires IsPlan(want, actual, removes, sets) && Redundant(want, actual, k)
    ensures i < |sets| && sets[i].key == k
  {
    assert k in KeysOf(sets);
    i :| 0 <= i < |sets| && sets[i].key == k;
  }

  lemma SkipConcat<T>(a: seq<T>, b: seq<T>, i: nat)
    requires i < |b|
    ensures a + (b[..i] + b[i + 1..]) == (a + b)[..|a| + i] + (a + b)[|a| + i + 1..]
  {
  }

  lemma WithoutOne(cs: seq<Change>, i: nat)
    requires DistinctKeys(cs) && i < |cs|
    ensures DistinctKeys(cs[..i] + cs[i + 1..])
  {
  }

  /** Such a peer exists: `a` holds its address and one that `b` is to get. */
  lemma NotSmallestExample(a: Key, b: Key, p: Prefix, q: Prefix)
    requires a != b && p != q
    ensures var want, actual := map[a := {p}, b := {q}], map[a := {p, q}];
            && Disjoint(want) && Disjoint(actual) && Redundant(want, actual, a)
            && IsPlan(want, actual, [], [Set(a, [p]), Set(b, [q])])
            && Run(actual, [Set(b, [q])]) == want
  {
    var want, actual := map[a := {p}, b := {q}], map[a := {p, q}];
    var sets := [Set(a, [p]), Set(b, [q])];
    assert p in want[a] && q in want[b] && q in actual[a];
    assert Elements([p]) == {p} && Elements([q]) == {q};
    assert !Right(actual, want, a) && !Right(actual, want, b);
    assert sets[0].key == a && sets[1].key == b;
    assert KeysOf(sets) == {a, b} by { assert Set(a, [p]) in sets && Set(b, [q]) in sets; }
    assert KeysOf([]) == {};
    var t := Apply(actual, Set(b, [q]));
    assert {p, q} - {q} == {p};
    assert t == want;
    assert [Set(b, [q])][1..] == [];
    assert actual[a] <= AddressesOf(want);
  }

  /** Nor is it when three peers merely have an address too many: two changes of one of them suffice. */
  lemma TwoForThreeExample(a: Key, b: Key, c: Key, p: Prefix, q: Prefix, r: Prefix, x: Prefix, y: Prefix, z: Prefix)
    requires a != b && b != c && a != c && p != q && p != r && {p, q, r} !! {x, y, z}
    ensures var want, actual := map[a := {p}, b := {q}, c := {r}], map[a := {p, x}, b := {q, y}, c := {r, z}];
            && MustChange(want, actual) == {} && Bloated(want, actual) == {a, b, c}
            && Run(actual, [Set(a, [y, z]), Set(a, [p])]) == want
  {
    hide Run, Apply, Elements, Bloated;
    ThreeBloated(a, b, c, p, q, r, x, y, z);
    StealAndGiveBack(a, b, c, p, q, r, x, y, z);
  }

  lemma ThreeBloated(a: Key, b: Key, c: Key, p: Prefix, q: Prefix, r: Prefix, x: Prefix, y: Prefix, z: Prefix)
    requires a != b && b != c && a != c && {p, q, r} !! {x, y, z}
    ensures var want, actual := map[a := {p}, b := {q}, c := {r}], map[a := {p, x}, b := {q, y}, c := {r, z}];
            MustChange(want, actual) == {} && Bloated(want, actual) == {a, b, c}
  {
    var want, actual := map[a := {p}, b := {q}, c := {r}], map[a := {p, x}, b := {q, y}, c := {r, z}];
    assert x in actual[a] && y in actual[b] && z in actual[c];
    assert AddressesOf(want) <= {p, q, r};
    assert x !in AddressesOf(want) && y !in AddressesOf(want) && z !in AddressesOf(want);
  }

  lemma StealAndGiveBack(a: Key, b: Key, c: Key, p: Prefix, q: Prefix, r: Prefix, x: Prefix, y: Prefix, z: Prefix)
    requires a != b && b != c && a != c && p != q && p != r && {p, q, r} !! {x, y, z}
    ensures Run(map[a := {p, x}, b := {q, y}, c := {r, z}], [Set(a, [y, z]), Set(a, [p])])
         == map[a := {p}, b := {q}, c := {r}]
  {
    var want, actual := map[a := {p}, b := {q}, c := {r}], map[a := {p, x}, b := {q, y}, c := {r, z}];
    var one := map[a := {y, z}, b := {q}, c := {r}];
    assert Apply(actual, Set(a, [y, z])) == one by {
      assert Elements([y, z]) == {y, z};
      assert {q, y} - {y, z} == {q} && {r, z} - {y, z} == {r};
    }
    assert Apply(one, Set(a, [p])) == want by {
      assert Elements([p]) == {p};
      assert {q} - {p} == {q} && {r} - {p} == {r};
    }
    var ops := [Set(a, [y, z]), Set(a, [p])];
    assert ops[1..] == [Set(a, [p])] && ops[1..][1..] == [];
    assert Run(one, ops[1..]) == want;
  }

  // ---------------------------------------------------------------------
  // What the code computes
  // ---------------------------------------------------------------------

  datatype ExitPeer = ExitPeer(publicKey: Key, ipv4: JsString, ipv6: JsString)

  const HOST4: JsString := [47, 51, 50]      // "/32"
  const HOST6: JsString := [47, 49, 50, 56]  // "/128"

  /** `allowedIpsFor`: exactly the two host addresses, sorted. */
  function AllowedIpsFor(peer: ExitPeer): (r: seq<Prefix>)
    ensures Sorted(r) && Elements(r) == {peer.ipv4 + HOST4, peer.ipv6 + HOST6}
  {
    var (a, b) := (peer.ipv4 + HOST4, peer.ipv6 + HOST6);
    assert a[|a| - 1] != b[|b| - 1];
    BeforeTotal(a, b);
    if Before(b, a) then [b, a] else [a, b]
  }

  /** A prefix as `wg` prints it: not empty, and no comma in it. */
  predicate Printed(ips: seq<Prefix>)
  {
    forall p | p in ips :: p != [] && COMMA !in p
  }

  /** Comparing the joined lists compares the sets of addresses. */
  lemma JoinedEqualIff(a: seq<Prefix>, b: seq<Prefix>)
    requires Sorted(a) && Sorted(b) && Printed(a) && Printed(b)
    ensures Join(a, COMMA) == Join(b, COMMA) <==> Elements(a) == Elements(b)
  {
    if Join(a, COMMA) == Join(b, COMMA) {
      JoinNonEmpty(a);
      JoinNonEmpty(b);
      if a != [] {
        SplitJoin(a, COMMA);
        SplitJoin(b, COMMA);
      }
    }
    if Elements(a) == Elements(b) {
      forall x ensures x in a <==> x in b {
        assert x in Elements(a) <==> x in a;
        assert x in Elements(b) <==> x in b;
      }
      SortedUnique(a, b);
    }
  }

  lemma JoinNonEmpty(a: seq<Prefix>)
    requires Printed(a)
    ensures Join(a, COMMA) == [] <==> a == []
  {
    if a != [] {
      assert a[0] in a;
    }
  }

  /** The listing `parseWgAllowedIps` returns: sorted, printed prefixes. */
  predicate Parsed(l: Listing)
  {
    forall k | k in l :: Sorted(l[k]) && Printed(l[k])
  }

  /** The `Map` of wanted peers; for a repeated key the last entry wins. */
  function WantedOf(desired: seq<ExitPeer>): (r: Listing)
  {
    if desired == [] then map[]
    else
      var peer := desired[|desired| - 1];
      WantedOf(desired[..|desired| - 1])[peer.publicKey := AllowedIpsFor(peer)]
  }

  /** The last row of a key. */
  ghost predicate LastFor(desired: seq<ExitPeer>, k: Key, i: nat)
  {
    && i < |desired| && desired[i].publicKey == k
    && forall j | i < j < |desired| :: desired[j].publicKey != k
  }

  /** The wanted table has the keys of the list, each with the host addresses of its last row. */
  lemma {:induction false} WantedExact(desired: seq<ExitPeer>, k: Key)
    ensures var t := TableOf(WantedOf(desired));
            && (k in t <==> exists i: nat :: LastFor(desired, k, i))
            && forall i: nat | LastFor(desired, k, i) ::
                 t[k] == {desired[i].ipv4 + [47, 51, 50], desired[i].ipv6 + [47, 49, 50, 56]}
  {
    if desired != [] {
      hide AllowedIpsFor;
      var n := |desired| - 1;
      var before := desired[..n];
      WantedExact(before, k);
      if desired[n].publicKey == k {
        assert LastFor(desired, k, n);
      } else {
        assert forall i: nat :: LastFor(desired, k, i) <==> LastFor(before, k, i);
      }
    }
  }

  predicate PrintedPeers(desired: seq<ExitPeer>)
  {
    forall peer | peer in desired :: COMMA !in peer.ipv4 && COMMA !in peer.ipv6
  }

  lemma {:induction false} WantedParsed(desired: seq<ExitPeer>)
    requires PrintedPeers(desired)
    ensures Parsed(WantedOf(desired))
  {
    if desired != [] {
      WantedParsed(desired[..|desired| - 1]);
      assert desired[|desired| - 1] in desired;
      var ips := AllowedIpsFor(desired[|desired| - 1]);
      forall p | p in ips ensures p != [] && COMMA !in p {
        assert p in Elements(ips);
      }
    }
  }

  method PlanRemovals(wanted: Listing, actual: Listing) returns (changes: seq<Change>)
    ensures DistinctKeys(changes) && (forall c | c in changes :: c.Remove?)
    ensures KeysOf(changes) == actual.Keys - wanted.Keys
  {
    changes := [];
    var keys := SortKeys(actual.Keys);
    for i := 0 to |keys|
      invariant DistinctKeys(changes) && forall c | c in changes :: c.Remove?
      invariant KeysOf(changes) == (set k | k in keys[..i] && k !in wanted)
    {
      assert keys[i] !in keys[..i] by {
        forall j | 0 <= j < i ensures keys[j] != keys[i] { BeforeTotal(keys[j], keys[i]); }
      }
      assert keys[..i + 1] == keys[..i] + [keys[i]];
      if keys[i] !in wanted {
        SnocKeys(changes, Remove(keys[i]));
        changes := changes + [Remove(keys[i])];
      }
    }
    assert keys[..|keys|] == keys;
  }

  lemma SnocKeys(cs: seq<Change>, c: Change)
    requires DistinctKeys(cs) && c.key !in KeysOf(cs)
    ensures DistinctKeys(cs + [c]) && KeysOf(cs + [c]) == KeysOf(cs) + {c.key}
  {
    forall d | d in cs ensures d.key in KeysOf(cs) {
    }
    assert forall i | 0 <= i < |cs| :: cs[i] in cs;
    assert c in cs + [c] && forall d | d in cs :: d in cs + [c];
  }

  method PlanSets(wanted: Listing, actual: Listing) returns (changes: seq<Change>)
    requires Parsed(wanted) && Parsed(actual)
    ensures DistinctKeys(changes) && SetsOf(TableOf(wanted), changes)
    ensures KeysOf(changes) == set k | k in TableOf(wanted) && !Right(TableOf(actual), TableOf(wanted), k)
  {
    changes := [];
    var keys := SortKeys(wanted.Keys);
    for i := 0 to |keys|
      invariant DistinctKeys(changes) && SetsOf(TableOf(wanted), changes)
      invariant KeysOf(changes) == (set k | k in keys[..i] && !Right(TableOf(actual), TableOf(wanted), k))
    {
      var key := keys[i];
      assert key !in keys[..i] by {
        forall j | 0 <= j < i ensures keys[j] != key { BeforeTotal(keys[j], key); }
      }
      assert keys[..i + 1] == keys[..i] + [key];
      assert key in keys;
      if key in actual {
        JoinedEqualIff(actual[key], wanted[key]);
      }
      if key !in actual || Join(actual[key], COMMA) != Join(wanted[key], COMMA) {
        SnocKeys(changes, Set(key, wanted[key]));
        changes := changes + [Set(key, wanted[key])];
      }
    }
    assert keys[..|keys|] == keys;
  }

  /** The list is a plan: removals up to some point, and sets from there on. */
  ghost predicate PlanFor(want: Table, actual: Table, changes: seq<Change>)
  {
    exists m | 0 <= m <= |changes| :: IsPlan(want, actual, changes[..m], changes[m..])
  }

  /** `planPeerChanges`: a plan, and so one that reaches the table the list asks for. */
  method PlanPeerChanges(desired: seq<ExitPeer>, actual: Listing) returns (changes: seq<Change>)
    requires PrintedPeers(desired) && Parsed(actual)
    ensures PlanFor(TableOf(WantedOf(desired)), TableOf(actual), changes)
    ensures Disjoint(TableOf(WantedOf(desired))) ==> Run(TableOf(actual), changes) == TableOf(WantedOf(desired))
  {
    hide IsPlan, Run, Disjoint, Parsed, AllowedIpsFor;
    WantedParsed(desired);
    var wanted := WantedOf(desired);
    var removes := PlanRemovals(wanted, actual);
    var sets := PlanSets(wanted, actual);
    changes := removes + sets;
    IsPlanOf(wanted, actual, removes, sets);
    ghost var m := |removes|;
    assert changes[..m] == removes && changes[m..] == sets;
    if Disjoint(TableOf(wanted)) {
      PlanReaches(TableOf(wanted), TableOf(actual), removes, sets);
    }
  }

  lemma IsPlanOf(wanted: Listing, actual: Listing, removes: seq<Change>, sets: seq<Change>)
    requires DistinctKeys(removes) && (forall c | c in removes :: c.Remove?)
             && KeysOf(removes) == actual.Keys - wanted.Keys
    requires DistinctKeys(sets) && SetsOf(TableOf(wanted), sets)
    requires KeysOf(sets) == set k | k in TableOf(wanted) && !Right(TableOf(actual), TableOf(wanted), k)
    ensures IsPlan(TableOf(wanted), TableOf(actual), removes, sets)
  {
    assert TableOf(wanted).Keys == wanted.Keys && TableOf(actual).Keys == actual.Keys;
  }

  // ---------------------------------------------------------------------
  // Batches
  // ---------------------------------------------------------------------

  function Clauses(commands: seq<seq<Change>>): seq<Change>
  {
    if commands == [] then [] else Clauses(commands[..|commands| - 1]) + commands[|commands| - 1]
  }

  function RunCommands(t: Table, commands: seq<seq<Change>>): Table
  {
    if commands == [] then t
    else Run(RunCommands(t, commands[..|commands| - 1]), commands[|commands| - 1])
  }

  /** Splitting a plan over several `wg` invocations does not change its effect. */
  lemma {:induction false} BatchesSameEffect(t: Table, commands: seq<seq<Change>>)
    ensures RunCommands(t, commands) == Run(t, Clauses(commands))
  {
    if commands != [] {
      BatchesSameEffect(t, commands[..|commands| - 1]);
      RunConcat(t, Clauses(commands[..|commands| - 1]), commands[|commands| - 1]);
    }
  }

  method WgSetCommands(changes: seq<Change>) returns (commands: seq<seq<Change>>)
    ensures Clauses(commands) == changes
    ensures forall b | b in commands :: 1 <= |b| <= PEERS_PER_COMMAND
    ensures forall t: Table :: RunCommands(t, commands) == Run(t, changes)
  {
    commands := [];
    var i := 0;
    while i < |changes|
      invariant 0 <= i <= |changes| && Clauses(commands) == changes[..i]
      invariant forall b | b in commands :: 1 <= |b| <= PEERS_PER_COMMAND
    {
      var end := if i + PEERS_PER_COMMAND <= |changes| then i + PEERS_PER_COMMAND else |changes|;
      assert (commands + [changes[i..end]])[..|commands|] == commands;
      assert changes[..end] == changes[..i] + changes[i..end];
      commands := commands + [changes[i..end]];
      i := end;
    }
    assert changes[..|changes|] == changes;
    forall t: Table ensures RunCommands(t, commands) == Run(t, changes) {
      BatchesSameEffect(t, commands);
    }
  }
}
