/**
 The exit agent (apps/exit/src/agent.ts): read the peer list, reconcile the
 interface with it, and stop serving when told to or when the list goes stale.
 */
module ExitAgent {
  import opened Text
  import opened Wrappers
  import opened Reconcile
  import Sequences

  // ---------------------------------------------------------------------
  // Reading the peer list (packages/shared-types/src/vpn.ts)
  // ---------------------------------------------------------------------

  /** A row of the list; `None` when its key or an address is not of the right shape. */
  type Row = Option<ExitPeer>

  /** `vpnIpv6ForIpv4`. */
  type Derive = JsString -> JsString

  ghost predicate Injective(derive: Derive) { forall a, b :: derive(a) == derive(b) ==> a == b }

  predicate Clashes(p: ExitPeer, peers: seq<ExitPeer>)
  {
    exists q | q in peers :: q.publicKey == p.publicKey || q.ipv4 == p.ipv4
  }

  predicate Usable(row: Row, derive: Derive)
  {
    row.Some? && row.value.ipv6 == derive(row.value.ipv4)
  }

  /** The rows kept: usable, and claiming no key or address that an earlier kept row claims. */
  function Kept(rows: seq<Row>, derive: Derive): (r: seq<ExitPeer>)
    ensures |r| <= |rows|
  {
    if rows == [] then []
    else
      var kept, row := Kept(rows[..|rows| - 1], derive), rows[|rows| - 1];
      if Usable(row, derive) && !Clashes(row.value, kept) then kept + [row.value] else kept
  }

  method ParseRows(rows: seq<Row>, derive: Derive) returns (peers: seq<ExitPeer>, rejected: nat)
    ensures peers == Kept(rows, derive) && rejected == |rows| - |peers|
  {
    var keys: set<Key>, addresses: set<JsString> := {}, {};
    peers, rejected := [], 0;
    for i := 0 to |rows|
      invariant peers == Kept(rows[..i], derive) && rejected == i - |peers|
      invariant keys == (set p | p in peers :: p.publicKey) && addresses == (set p | p in peers :: p.ipv4)
    {
      assert rows[..i + 1][..i] == rows[..i];
      var row := rows[i];
      if row.None? || row.value.ipv6 != derive(row.value.ipv4)
        || row.value.publicKey in keys || row.value.ipv4 in addresses
      {
        rejected := rejected + 1;
      } else {
        keys, addresses := keys + {row.value.publicKey}, addresses + {row.value.ipv4};
        peers := peers + [row.value];
      }
    }
    assert rows[..|rows|] == rows;
  }

  predicate DistinctPeers(peers: seq<ExitPeer>, derive: Derive)
  {
    && (forall i, j | 0 <= i < j < |peers| ::
          peers[i].publicKey != peers[j].publicKey && peers[i].ipv4 != peers[j].ipv4)
    && (forall i | 0 <= i < |peers| :: peers[i].ipv6 == derive(peers[i].ipv4))
  }

  /** No two kept rows claim one key or one address. */
  lemma {:induction false} KeptDistinct(rows: seq<Row>, derive: Derive)
    ensures DistinctPeers(Kept(rows, derive), derive)
    ensures forall p | p in Kept(rows, derive) :: Some(p) in rows
  {
    if rows != [] {
      var n := |rows| - 1;
      KeptDistinct(rows[..n], derive);
      var kept := Kept(rows[..n], derive);
      assert rows == rows[..n] + [rows[n]];
      assert forall i | 0 <= i < |kept| :: kept[i] in kept;
    }
  }

  /** Nothing usable is lost without cause: its key or its address is kept for an earlier claimant. */
  lemma {:induction false} FirstClaimantKept(rows: seq<Row>, derive: Derive, i: nat)
    requires i < |rows| && Usable(rows[i], derive)
    ensures Clashes(rows[i].value, Kept(rows[..i + 1], derive)) && Kept(rows[..i + 1], derive) <= Kept(rows, derive)
  {
    var n := |rows| - 1;
    if i < n {
      FirstClaimantKept(rows[..n], derive, i);
      assert rows[..n][..i + 1] == rows[..i + 1];
    } else {
      assert rows[..i + 1] == rows;
      var kept := Kept(rows[..n], derive);
      if !Clashes(rows[i].value, kept) {
        assert rows[i].value in Kept(rows, derive);
      }
    }
  }

  /** Both are rows, with different keys and different addresses. */
  predicate Apart(a: Row, b: Row)
  {
    a.Some? && b.Some? && a.value.publicKey != b.value.publicKey && a.value.ipv4 != b.value.ipv4
  }

  /** `keep` marks a row exactly if its addresses belong together and it is apart from each marked one before it. */
  ghost predicate Choice(rows: seq<Row>, derive: Derive, keep: seq<bool>)
  {
    && |keep| == |rows|
    && forall i | 0 <= i < |rows| :: keep[i] <==>
         && rows[i].Some? && rows[i].value.ipv6 == derive(rows[i].value.ipv4)
         && forall j | 0 <= j < i && keep[j] :: Apart(rows[j], rows[i])
  }

  ghost predicate Marked(rows: seq<Row>, keep: seq<bool>, p: ExitPeer)
  {
    exists i | 0 <= i < |rows| && i < |keep| :: keep[i] && rows[i] == Some(p)
  }

  /** Exactly the marked rows are kept. */
  lemma {:induction false} KeptExact(rows: seq<Row>, derive: Derive) returns (keep: seq<bool>)
    ensures Choice(rows, derive, keep) && forall p :: p in Kept(rows, derive) <==> Marked(rows, keep, p)
  {
    hide Choice, Marked;
    keep := [];
    if rows == [] {
      NothingMarked(derive);
    } else {
      var n := |rows| - 1;
      var kept := Kept(rows[..n], derive);
      keep := KeptExact(rows[..n], derive);
      ChoiceLength(rows[..n], derive, keep);
      var fits := Usable(rows[n], derive) && !Clashes(rows[n].value, kept);
      hide Usable, Clashes;
      ChoiceSnoc(rows, derive, keep, kept);
      MarkedSnoc(rows, keep, fits);
      keep := keep + [fits];
    }
  }

  lemma NothingMarked(derive: Derive)
    ensures Choice([], derive, []) && forall p :: !Marked([], [], p)
  {
  }

  lemma ChoiceLength(rows: seq<Row>, derive: Derive, keep: seq<bool>)
    requires Choice(rows, derive, keep)
    ensures |keep| == |rows|
  {
  }

  /** One more row is marked exactly if it is usable and clashes with nothing kept. */
  lemma ChoiceSnoc(rows: seq<Row>, derive: Derive, before: seq<bool>, kept: seq<ExitPeer>)
    requires rows != [] && Choice(rows[..|rows| - 1], derive, before)
    requires forall p :: p in kept <==> Marked(rows[..|rows| - 1], before, p)
    ensures var row := rows[|rows| - 1];
            Choice(rows, derive, before + [Usable(row, derive) && !Clashes(row.value, kept)])
  {
    var n := |rows| - 1;
    var row := rows[n];
    var keep := before + [Usable(row, derive) && !Clashes(row.value, kept)];
    assert forall i | 0 <= i < n :: keep[i] == before[i] && rows[..n][i] == rows[i];
    if Usable(row, derive) {
      if Clashes(row.value, kept) {
        var q :| q in kept && (q.publicKey == row.value.publicKey || q.ipv4 == row.value.ipv4);
        assert Marked(rows[..n], before, q);
        var i :| 0 <= i < n && before[i] && rows[..n][i] == Some(q);
        assert keep[i] && !Apart(rows[i], row);
      } else {
        forall j | 0 <= j < n && keep[j] ensures Apart(rows[j], row) {
          assert Marked(rows[..n], before, rows[..n][j].value);
        }
      }
    }
  }

  lemma MarkedSnoc(rows: seq<Row>, before: seq<bool>, fits: bool)
    requires rows != [] && |before| == |rows| - 1
    ensures forall p :: Marked(rows, before + [fits], p)
              <==> Marked(rows[..|before|], before, p) || (fits && rows[|before|] == Some(p))
  {
  }

  // ---------------------------------------------------------------------
  // The desired table is disjoint
  // ---------------------------------------------------------------------

  lemma HostsDiffer(a: ExitPeer, b: ExitPeer)
    requires a.ipv4 != b.ipv4 && a.ipv6 != b.ipv6
    ensures Sequences.Elements(AllowedIpsFor(a)) !! Sequences.Elements(AllowedIpsFor(b))
  {
    assert a.ipv4 + HOST4 != b.ipv4 + HOST4 by { SameSuffix(a.ipv4, b.ipv4, HOST4); }
    assert a.ipv6 + HOST6 != b.ipv6 + HOST6 by { SameSuffix(a.ipv6, b.ipv6, HOST6); }
    LastDiffers(a.ipv4, b.ipv6);
    LastDiffers(b.ipv4, a.ipv6);
  }

  lemma SameSuffix(a: JsString, b: JsString, suffix: JsString)
    ensures a + suffix == b + suffix ==> a == b
  {
    if a + suffix == b + suffix {
      assert a == (a + suffix)[..|a|];
      assert b == (b + suffix)[..|b|];
    }
  }

  lemma LastDiffers(a: JsString, b: JsString)
    ensures a + HOST4 != b + HOST6
  {
    var x, y := a + HOST4, b + HOST6;
    assert x[|x| - 1] == 50 && y[|y| - 1] == 56;
  }

  ghost predicate Source(peers: seq<ExitPeer>, t: Table, k: Key, i: nat)
  {
    i < |peers| && peers[i].publicKey == k && k in t && t[k] == Sequences.Elements(AllowedIpsFor(peers[i]))
  }

  lemma {:induction false} WantedSource(peers: seq<ExitPeer>, k: Key)
    requires k in TableOf(WantedOf(peers))
    ensures exists i: nat :: Source(peers, TableOf(WantedOf(peers)), k, i)
  {
    var n := |peers| - 1;
    if peers[n].publicKey == k {
      assert Source(peers, TableOf(WantedOf(peers)), k, n);
    } else {
      WantedSource(peers[..n], k);
      var i: nat :| Source(peers[..n], TableOf(WantedOf(peers[..n])), k, i);
      assert Source(peers, TableOf(WantedOf(peers)), k, i);
    }
  }

  function WantedTable(rows: seq<Row>, derive: Derive): Table
  {
    TableOf(WantedOf(Kept(rows, derive)))
  }

  lemma PairDisjoint(peers: seq<ExitPeer>, derive: Derive, want: Table, j: Key, k: Key, a: nat, b: nat)
    requires Injective(derive) && DistinctPeers(peers, derive) && j != k
    requires Source(peers, want, j, a) && Source(peers, want, k, b)
    ensures want[j] !! want[k]
  {
    hide AllowedIpsFor;
    assert peers[a].ipv4 != peers[b].ipv4;
    HostsDiffer(peers[a], peers[b]);
  }

  /** What the list asks for never gives one address to two keys. */
  lemma WantedDisjoint(rows: seq<Row>, derive: Derive)
    requires Injective(derive)
    ensures Disjoint(WantedTable(rows, derive))
  {
    hide Kept, WantedOf, TableOf, DistinctPeers, Source, Injective;
    var peers, want := Kept(rows, derive), WantedTable(rows, derive);
    KeptDistinct(rows, derive);
    forall j, k | j in want && k in want && j != k ensures want[j] !! want[k] {
      WantedSource(peers, j);
      WantedSource(peers, k);
      var a: nat :| Source(peers, want, j, a);
      var b: nat :| Source(peers, want, k, b);
      PairDisjoint(peers, derive, want, j, k, a, b);
    }
  }

  // ---------------------------------------------------------------------
  // One tick
  // ---------------------------------------------------------------------

  const MAX_EXIT_PEERS := 65_534 - 2 + 1

  datatype Fetch =
    | Listed(rows: seq<Row>)  // a well-formed envelope
    | Malformed               // an envelope that is not an array of peers
    | Refused                 // the token is refused, or the VPN is switched off
    | Failed                  // anything else: network, another status, not JSON

  /** How the commands of one reconciliation go; a failing one may have had any part of its effect. */
  datatype Commands = Succeed | FailAfter(done: nat)

  datatype Tick = Tick(now: int, fetch: Fetch, show: bool, sync: Commands, showAgain: bool, flush: Commands)

  datatype State = State(
    lastSuccessAt: Option<int>, lastPeers: Option<nat>, failures: nat, flushed: bool, table: Table)

  datatype Config = Config(startedAt: int, maxStaleMs: int, derive: Derive)

  function Since(c: Config, s: State): int { if s.lastSuccessAt.Some? then s.lastSuccessAt.value else c.startedAt }

  function Initial(table: Table): State { State(None, None, 0, false, table) }

  /** A plan of no change runs no command; any other may fail at any point, even after all its effect. */
  predicate CanFail(changes: seq<Change>, done: nat) { changes != [] && done <= |changes| }

  function AfterCommands(t: Table, changes: seq<Change>, how: Commands): (Table, bool)
  {
    if how.FailAfter? && CanFail(changes, how.done) then (Run(t, changes[..how.done]), false)
    else (Run(t, changes), true)
  }

  /** Reconciling `t` with `want` can end in `t'`, and succeed or not. */
  ghost predicate Reconciles(t: Table, want: Table, how: Commands, t': Table, ok: bool)
  {
    exists removes, sets | IsPlan(want, t, removes, sets) :: (t', ok) == AfterCommands(t, removes + sets, how)
  }

  predicate Readable(tick: Tick)
  {
    tick.fetch.Listed? && |tick.fetch.rows| <= MAX_EXIT_PEERS && tick.show
  }

  /** `syncOnce` leaves `mid`. */
  ghost predicate Syncs(c: Config, t: Table, tick: Tick, mid: Table, ok: bool)
  {
    if Readable(tick) then Reconciles(t, WantedTable(tick.fetch.rows, c.derive), tick.sync, mid, ok)
    else mid == t && !ok
  }

  function AfterSuccess(c: Config, s: State, tick: Tick, mid: Table): State
    requires tick.fetch.Listed?
  {
    State(Some(tick.now), Some(|Kept(tick.fetch.rows, c.derive)|), 0, false, mid)
  }

  predicate MustFlush(c: Config, s: State, tick: Tick)
  {
    tick.fetch.Refused? || tick.now - Since(c, s) > c.maxStaleMs
  }

  ghost predicate Fails(c: Config, s: State, tick: Tick, mid: Table, s': State)
  {
    var f := s.(failures := s.failures + 1, table := mid);
    if !MustFlush(c, s, tick) || !tick.showAgain then s' == f
    else exists ok :: Reconciles(mid, map[], tick.flush, s'.table, ok)
                      && s' == f.(table := s'.table, flushed := ok || s.flushed,
                                  lastPeers := if ok then Some(0) else s.lastPeers)
  }

  ghost predicate Next(c: Config, s: State, tick: Tick, s': State)
  {
    exists mid, ok :: Syncs(c, s.table, tick, mid, ok)
                      && if ok && tick.fetch.Listed? then s' == AfterSuccess(c, s, tick, mid)
                         else Fails(c, s, tick, mid, s')
  }

  ghost predicate IsRun(c: Config, states: seq<State>, ticks: seq<Tick>)
  {
    |states| == |ticks| + 1 && states[0] == Initial(states[0].table)
    && forall i | 0 <= i < |ticks| :: Next(c, states[i], ticks[i], states[i + 1])
  }

  // ---------------------------------------------------------------------
  // Fail closed
  // ---------------------------------------------------------------------

  /** Every wg and conntrack call of the tick succeeds. */
  predicate Clean(tick: Tick)
  {
    tick.show && tick.showAgain && tick.sync.Succeed? && tick.flush.Succeed?
  }

  lemma CleanReconcile(t: Table, want: Table, t': Table, ok: bool)
    requires Disjoint(want) && Reconciles(t, want, Succeed, t', ok)
    ensures ok && t' == want
  {
    var removes, sets :| IsPlan(want, t, removes, sets) && (t', ok) == AfterCommands(t, removes + sets, Succeed);
    PlanReaches(want, t, removes, sets);
  }

  /** After a clean tick the interface is what was just listed, or as before and not stale, or empty. */
  lemma TickFailsClosed(c: Config, s: State, tick: Tick, s': State)
    requires Injective(c.derive) && Clean(tick) && Next(c, s, tick, s')
    ensures if Readable(tick) then s' == AfterSuccess(c, s, tick, WantedTable(tick.fetch.rows, c.derive))
            else if MustFlush(c, s, tick) then
              s' == s.(failures := s.failures + 1, table := map[], flushed := true, lastPeers := Some(0))
            else s' == s.(failures := s.failures + 1)
  {
    hide WantedTable, Injective, Disjoint, Reconciles;
    var mid, ok :| Syncs(c, s.table, tick, mid, ok)
      && if ok && tick.fetch.Listed? then s' == AfterSuccess(c, s, tick, mid) else Fails(c, s, tick, mid, s');
    if Readable(tick) {
      WantedDisjoint(tick.fetch.rows, c.derive);
      CleanReconcile(s.table, WantedTable(tick.fetch.rows, c.derive), mid, ok);
    } else if MustFlush(c, s, tick) {
      EmptyDisjoint();
      var done :| Reconciles(mid, map[], tick.flush, s'.table, done)
        && s' == s.(failures := s.failures + 1, table := s'.table, flushed := done || s.flushed,
                    lastPeers := if done then Some(0) else s.lastPeers);
      CleanReconcile(mid, map[], s'.table, done);
    }
  }

  lemma EmptyDisjoint()
    ensures Disjoint(map[])
  {
  }

  /** The interface holds exactly the marked rows: each key once, with its two host addresses. */
  ghost predicate HoldsRows(t: Table, rows: seq<Row>, keep: seq<bool>)
  {
    && (forall k | k in t :: exists p :: Marked(rows, keep, p) && p.publicKey == k)
    && forall p | Marked(rows, keep, p) ::
         p.publicKey in t && t[p.publicKey] == {p.ipv4 + [47, 51, 50], p.ipv6 + [47, 49, 50, 56]}
  }

  lemma WantedRows(rows: seq<Row>, derive: Derive) returns (keep: seq<bool>)
    ensures Choice(rows, derive, keep) && HoldsRows(WantedTable(rows, derive), rows, keep)
    ensures |WantedTable(rows, derive)| == |Kept(rows, derive)|
  {
    keep := KeptExact(rows, derive);
    KeptDistinct(rows, derive);
    WantedTableIs(rows, derive);
    hide Kept, WantedTable, Choice, Marked;
    var peers, t := Kept(rows, derive), WantedTable(rows, derive);
    forall k | k in t ensures exists p :: Marked(rows, keep, p) && p.publicKey == k {
      WantedExact(peers, k);
      var i: nat :| LastFor(peers, k, i);
      assert Marked(rows, keep, peers[i]);
    }
    forall p | p in peers
      ensures p.publicKey in t && t[p.publicKey] == {p.ipv4 + [47, 51, 50], p.ipv6 + [47, 49, 50, 56]}
    {
      var i :| 0 <= i < |peers| && peers[i] == p;
      assert LastFor(peers, p.publicKey, i);
      WantedExact(peers, p.publicKey);
    }
    WantedCount(peers, derive);
  }

  lemma {:induction false} WantedCount(peers: seq<ExitPeer>, derive: Derive)
    requires DistinctPeers(peers, derive)
    ensures |TableOf(WantedOf(peers))| == |peers|
  {
    if peers != [] {
      var n := |peers| - 1;
      var before, k := peers[..n], peers[n].publicKey;
      WantedCount(before, derive);
      assert forall i | 0 <= i < n :: before[i].publicKey != k;
      WantedExact(before, k);
      AddedPeer(WantedOf(before), k, AllowedIpsFor(peers[n]));
    }
  }

  lemma AddedPeer(l: Listing, k: Key, ips: seq<Prefix>)
    requires k !in TableOf(l)
    ensures |TableOf(l[k := ips])| == |TableOf(l)| + 1
  {
    assert TableOf(l[k := ips]).Keys == TableOf(l).Keys + {k};
    assert |TableOf(l).Keys + {k}| == |TableOf(l).Keys| + 1;
  }

  /**
   A tick whose commands succeed does exactly one of three things: serve the rows
   of a list of at most 65533, stop serving on a refusal or once the last success
   (or the start) is more than `maxStaleMs` ago, or leave the interface alone.
   */
  lemma TickExact(c: Config, s: State, tick: Tick, s': State) returns (keep: seq<bool>)
    requires Injective(c.derive) && Clean(tick) && Next(c, s, tick, s')
    ensures tick.fetch.Listed? && |tick.fetch.rows| <= 65533 ==>
              && Choice(tick.fetch.rows, c.derive, keep) && HoldsRows(s'.table, tick.fetch.rows, keep)
              && s' == State(Some(tick.now), Some(|s'.table|), 0, false, s'.table)
    ensures !(tick.fetch.Listed? && |tick.fetch.rows| <= 65533) ==>
              var last := if s.lastSuccessAt.Some? then s.lastSuccessAt.value else c.startedAt;
              s' == if tick.fetch == Refused || tick.now - last > c.maxStaleMs
                    then State(s.lastSuccessAt, Some(0), s.failures + 1, true, map[])
                    else State(s.lastSuccessAt, s.lastPeers, s.failures + 1, s.flushed, s.table)
  {
    hide Next, WantedTable, Injective, Choice, HoldsRows;
    keep := [];
    TickFailsClosed(c, s, tick, s');
    if tick.fetch.Listed? && |tick.fetch.rows| <= 65533 {
      keep := WantedRows(tick.fetch.rows, c.derive);
    }
  }

  /** The interface after `n` ticks is empty, or the list of tick `j`, the last that succeeded, and not stale. */
  ghost predicate ServesTick(c: Config, states: seq<State>, ticks: seq<Tick>, n: nat, j: nat)
    requires n < |states| && n <= |ticks|
  {
    && j < n && ticks[j].fetch.Listed?
    && states[n].lastSuccessAt == Some(ticks[j].now)
    && states[n].table == WantedTable(ticks[j].fetch.rows, c.derive)
    && ticks[n - 1].now - ticks[j].now <= c.maxStaleMs
  }

  ghost predicate ServesStart(c: Config, states: seq<State>, ticks: seq<Tick>, n: nat)
    requires n < |states| && n <= |ticks|
  {
    && states[n].lastSuccessAt.None? && states[n].table == states[0].table
    && (n > 0 ==> ticks[n - 1].now - c.startedAt <= c.maxStaleMs)
  }

  ghost predicate Justified(c: Config, states: seq<State>, ticks: seq<Tick>, n: nat)
    requires n < |states| && n <= |ticks|
  {
    states[n].table == map[] || ServesStart(c, states, ticks, n) || exists j: nat :: ServesTick(c, states, ticks, n, j)
  }

  /**
   Fail closed over every run whose commands succeed: after each tick the
   interface is empty, or holds a list fetched at most `maxStaleMs` ago, or,
   before any success, what it held at a start at most `maxStaleMs` ago; and the
   status `flushed` implies an empty interface.
   */
  lemma {:induction false} FailsClosed(c: Config, states: seq<State>, ticks: seq<Tick>, n: nat)
    requires Injective(c.derive) && c.maxStaleMs >= 0 && IsRun(c, states, ticks) && n <= |ticks|
    requires forall i | 0 <= i < |ticks| :: Clean(ticks[i])
    ensures Justified(c, states, ticks, n)
    ensures states[n].flushed ==> states[n].table == map[]
  {
    hide WantedTable, Injective, Next;
    if n > 0 {
      FailsClosed(c, states, ticks, n - 1);
      var s, tick, s' := states[n - 1], ticks[n - 1], states[n];
      TickFailsClosed(c, s, tick, s');
      if Readable(tick) {
        assert ServesTick(c, states, ticks, n, n - 1);
      } else if !MustFlush(c, s, tick) && s.table != map[] && !ServesStart(c, states, ticks, n - 1) {
        var j: nat :| ServesTick(c, states, ticks, n - 1, j);
        assert ServesTick(c, states, ticks, n, j);
      }
    }
  }

  /** A refusal empties the interface in that very tick. */
  lemma RefusalEmpties(c: Config, states: seq<State>, ticks: seq<Tick>, n: nat)
    requires Injective(c.derive) && IsRun(c, states, ticks) && n < |ticks|
    requires Clean(ticks[n]) && ticks[n].fetch.Refused?
    ensures states[n + 1].table == map[] && states[n + 1].flushed
  {
    hide WantedTable, Injective;
    TickFailsClosed(c, states[n], ticks[n], states[n + 1]);
  }

  // ---------------------------------------------------------------------
  // A sync that fails half way
  // ---------------------------------------------------------------------

  lemma {:induction false} SetsKeepKeys(t: Table, sets: seq<Change>)
    requires forall x | x in sets :: x.Set?
    ensures t.Keys <= Run(t, sets).Keys
    decreases |sets|
  {
    if sets != [] {
      assert sets[0] in sets;
      SetsKeepKeys(Apply(t, sets[0]), sets[1..]);
    }
  }

  /** What is left after some of the removals: the peers not reached yet. */
  lemma {:induction false} RemovesLeave(t: Table, removes: seq<Change>)
    requires forall x | x in removes :: x.Remove?
    ensures Run(t, removes) == t - KeysOf(removes)
    decreases |removes|
  {
    if removes != [] {
      assert removes == [removes[0]] + removes[1..] && removes[0] in removes;
      assert KeysOf(removes) == {removes[0].key} + KeysOf(removes[1..]);
      RemovesLeave(Apply(t, removes[0]), removes[1..]);
      assert t - {removes[0].key} - KeysOf(removes[1..]) == t - KeysOf(removes);
    } else {
      assert t - KeysOf(removes) == t;
    }
  }

  lemma RemovesLeaveIff(t: Table, removes: seq<Change>, done: nat)
    requires done <= |removes| && DistinctKeys(removes) && KeysOf(removes) <= t.Keys
    requires forall x | x in removes :: x.Remove?
    ensures Run(t, removes[..done]) == map[] <==> done == |t|
  {
    var part := removes[..done];
    RemovesLeave(t, part);
    DistinctCount(part);
    assert forall x | x in part :: x in removes && x.key in KeysOf(removes);
    assert KeysOf(part) <= t.Keys;
    assert (t - KeysOf(part)).Keys == t.Keys - KeysOf(part);
    assert |t.Keys - KeysOf(part)| == |t| - done;
  }

  /** The plan that empties an interface removes each of its peers once. */
  lemma EmptyingPlan(t: Table, removes: seq<Change>, sets: seq<Change>)
    requires IsPlan(map[], t, removes, sets)
    ensures sets == [] && |removes| == |t|
  {
    DistinctCount(removes);
    DistinctCount(sets);
    assert KeysOf(removes) == t.Keys;
    assert KeysOf(sets) == {};
  }

  /**
   A flush that does not fail empties the interface; one that fails does so exactly
   when every removal had been made.
   */
  lemma FlushEmptiesIff(t: Table, how: Commands, t': Table, ok: bool)
    requires Reconciles(t, map[], how, t', ok)
    ensures t' == map[] <==> !(how.FailAfter? && how.done < |t|)
    ensures ok ==> t' == map[]
  {
    var removes: seq<Change>, sets: seq<Change> :| IsPlan(map[], t, removes, sets)
      && (t', ok) == AfterCommands(t, removes + sets, how);
    EmptyingPlan(t, removes, sets);
    assert removes + sets == removes;
    EmptyDisjoint();
    PlanReaches(map[], t, removes, sets);
    if how.FailAfter? && how.done <= |t| {
      RemovesLeaveIff(t, removes, how.done);
    }
  }

  /** A plan cut short leaves nothing if and only if it removed every peer, none of them listed, and added none. */
  lemma CutShortEmptyIff(t: Table, want: Table, removes: seq<Change>, sets: seq<Change>, done: nat)
    requires IsPlan(want, t, removes, sets) && done <= |removes + sets|
    ensures Run(t, (removes + sets)[..done]) == map[] <==> done == |t| && t.Keys !! want.Keys
  {
    hide Disjoint, Right, SetsOf;
    DistinctCount(removes);
    KeyCounts(t, want);
    if done <= |removes| {
      assert (removes + sets)[..done] == removes[..done];
      RemovesLeaveIff(t, removes, done);
    } else {
      assert (removes + sets)[..done] == removes + sets[..done - |removes|];
      SetsLeavePeers(t, want, removes, sets, done - |removes|);
    }
  }

  lemma KeyCounts(t: Table, want: Table)
    ensures |t.Keys - want.Keys| <= |t| && (|t.Keys - want.Keys| == |t| <==> t.Keys !! want.Keys)
  {
    assert t.Keys == (t.Keys - want.Keys) + (t.Keys * want.Keys);
    assert |t.Keys| == |t.Keys - want.Keys| + |t.Keys * want.Keys|;
  }

  lemma SetsLeavePeers(t: Table, want: Table, removes: seq<Change>, sets: seq<Change>, n: nat)
    requires IsPlan(want, t, removes, sets) && 0 < n <= |sets|
    ensures Run(t, removes + sets[..n]) != map[]
  {
    var mid, part := Run(t, removes), sets[..n];
    RunConcat(t, removes, part);
    assert part[0] in sets;
    assert part[0].key in Apply(mid, part[0]).Keys;
    SetsKeepKeys(Apply(mid, part[0]), part[1..]);
  }

  lemma HalfSyncedEmptyIff(t: Table, want: Table, how: Commands, mid: Table)
    requires Reconciles(t, want, how, mid, false)
    ensures how.FailAfter? && (mid == map[] <==> how.done == |t| && t.Keys !! want.Keys)
  {
    hide IsPlan, Run;
    var removes, sets :| IsPlan(want, t, removes, sets) && (mid, false) == AfterCommands(t, removes + sets, how);
    CutShortEmptyIff(t, want, removes, sets, how.done);
  }

  /** The tick fails, and its failure is a refusal or has gone on for too long; `mid` is what the sync left. */
  ghost predicate StopsServing(c: Config, s: State, tick: Tick, mid: Table, s': State)
  {
    MustFlush(c, s, tick) && Syncs(c, s.table, tick, mid, false) && Fails(c, s, tick, mid, s')
  }

  /** Every tick of the machine that fails when it must stop serving is one of these. */
  lemma StopsServingCovers(c: Config, s: State, tick: Tick, s': State)
    requires Next(c, s, tick, s') && MustFlush(c, s, tick)
    ensures s'.failures > s.failures <==> exists mid :: StopsServing(c, s, tick, mid, s')
  {
    hide Reconciles, WantedTable, Kept;
    var mid, ok :| Syncs(c, s.table, tick, mid, ok)
      && if ok && tick.fetch.Listed? then s' == AfterSuccess(c, s, tick, mid) else Fails(c, s, tick, mid, s');
    assert ok ==> tick.fetch.Listed?;
    if !ok {
      assert StopsServing(c, s, tick, mid, s');
    }
  }

  /**
   What a refusal, or going stale, does when any command may fail: the interface
   is empty after the tick if and only if the sync left it empty, or it could be
   read again and every removal was made. A sync leaves it empty where it was not
   begun on an empty interface, or where it failed just after removing every peer,
   all of them unlisted.
   */
  lemma StopsServingIff(c: Config, s: State, tick: Tick, mid: Table, s': State)
    requires StopsServing(c, s, tick, mid, s')
    ensures s'.table == map[]
       <==> mid == map[] || (tick.showAgain && !(tick.flush.FailAfter? && tick.flush.done < |mid|))
    ensures mid == map[]
       <==> if !Readable(tick) then s.table == map[]
            else tick.sync.done == |s.table| && s.table.Keys !! WantedTable(tick.fetch.rows, c.derive).Keys
    ensures s'.flushed ==> s.flushed || s'.table == map[]
  {
    hide Reconciles, WantedTable;
    if Readable(tick) {
      HalfSyncedEmptyIff(s.table, WantedTable(tick.fetch.rows, c.derive), tick.sync, mid);
    }
    if tick.showAgain {
      var ok :| Reconciles(mid, map[], tick.flush, s'.table, ok)
        && s' == s.(failures := s.failures + 1, table := s'.table, flushed := ok || s.flushed,
                    lastPeers := if ok then Some(0) else s.lastPeers);
      FlushEmptiesIff(mid, tick.flush, s'.table, ok);
    }
  }

  lemma {:induction false} SetsCount(t: Table, sets: seq<Change>)
    requires forall x | x in sets :: x.Set?
    requires DistinctKeys(sets) && forall x | x in sets :: x.key !in t
    ensures |Run(t, sets)| == |t| + |sets|
    decreases |sets|
  {
    if sets != [] {
      assert sets[0] in sets;
      var t' := Apply(t, sets[0]);
      assert t'.Keys == t.Keys + {sets[0].key};
      assert |t'.Keys| == |t.Keys| + 1;
      SetsCount(t', sets[1..]);
    }
  }

  /** From an empty interface, a sync that fails after `done` clauses leaves `done` peers. */
  lemma HalfSyncedCount(want: Table, how: Commands, mid: Table, ok: bool)
    requires Reconciles(map[], want, how, mid, ok)
    ensures !ok <==> how.FailAfter? && want != map[] && how.done <= |want|
    ensures !ok ==> |mid| == how.done
  {
    var removes, sets :| IsPlan(want, map[], removes, sets) && (mid, ok) == AfterCommands(map[], removes + sets, how);
    PlanSizeFromEmpty(want, removes, sets);
    DistinctCount(removes);
    assert removes + sets == sets;
    assert (forall x | x in sets :: x.Set?) && DistinctKeys(sets);
    hide IsPlan;
    if !ok {
      SetsCount(map[], sets[..how.done]);
    }
  }

  predicate Honest(s: State) { s.flushed ==> s.table == map[] }

  /** The commands of a listed tick fail with peers added, some or all, and nothing then removes all of these. */
  predicate LeavesPeers(c: Config, s: State, tick: Tick)
  {
    && s.flushed && Readable(tick)
    && tick.sync.FailAfter? && 0 < tick.sync.done <= |WantedTable(tick.fetch.rows, c.derive)|
    && (MustFlush(c, s, tick) && tick.showAgain ==> tick.flush.FailAfter? && tick.flush.done < tick.sync.done)
  }

  /**
   Without that assumption `flushed` can lie: a tick keeps its meaning, an empty
   interface, if and only if it is not one of those.
   */
  lemma FlushedHonestIff(c: Config, s: State, tick: Tick, s': State)
    requires Honest(s) && Next(c, s, tick, s')
    ensures Honest(s') <==> !LeavesPeers(c, s, tick)
  {
    hide WantedTable, Reconciles, Kept;
    var mid, ok :| Syncs(c, s.table, tick, mid, ok)
      && if ok && tick.fetch.Listed? then s' == AfterSuccess(c, s, tick, mid) else Fails(c, s, tick, mid, s');
    if Readable(tick) && s.flushed {
      HalfSyncedCount(WantedTable(tick.fetch.rows, c.derive), tick.sync, mid, ok);
    }
    if !(ok && tick.fetch.Listed?) && MustFlush(c, s, tick) && tick.showAgain {
      var emptied :| Reconciles(mid, map[], tick.flush, s'.table, emptied)
        && s' == s.(failures := s.failures + 1, table := s'.table, flushed := emptied || s.flushed,
                    lastPeers := if emptied then Some(0) else s.lastPeers);
      FlushEmptiesIff(mid, tick.flush, s'.table, emptied);
    }
  }

  /** Over every run, whatever fails: `flushed` is honest throughout if and only if no tick leaves peers. */
  lemma {:induction false} FlushedHonestRun(c: Config, states: seq<State>, ticks: seq<Tick>, n: nat)
    requires IsRun(c, states, ticks) && n <= |ticks|
    ensures (forall m | 0 <= m <= n :: Honest(states[m]))
       <==> (forall m | 0 <= m < n :: !LeavesPeers(c, states[m], ticks[m]))
  {
    hide Honest, LeavesPeers, Next;
    if n == 0 {
      StartsHonest(states[0]);
    } else {
      FlushedHonestRun(c, states, ticks, n - 1);
      if Honest(states[n - 1]) {
        FlushedHonestIff(c, states[n - 1], ticks[n - 1], states[n]);
      }
    }
  }

  lemma StartsHonest(s: State)
    requires s == Initial(s.table)
    ensures Honest(s)
  {
  }

  lemma PlanSizeFromEmpty(want: Table, removes: seq<Change>, sets: seq<Change>)
    requires IsPlan(want, map[], removes, sets)
    ensures |removes + sets| == |want|
  {
    hide Disjoint;
    DistinctCount(removes);
    DistinctCount(sets);
    assert KeysOf(sets) == want.Keys;
  }

  /** Such a run: a refusal, then a list of two peers whose second clause fails. */
  lemma FlushedCounterexample(a: ExitPeer, b: ExitPeer, derive: Derive)
    requires a.publicKey != b.publicKey && a.ipv4 != b.ipv4 && a.ipv6 == derive(a.ipv4) && b.ipv6 == derive(b.ipv4)
    ensures exists c, states: seq<State>, ticks ::
              IsRun(c, states, ticks) && |ticks| == 2 && states[2].flushed && states[2].table != map[]
  {
    hide Next, IsRun;
    var c := Config(0, 600_000, derive);
    var s0, s1 := Initial(map[]), State(None, Some(0), 1, true, map[]);
    var refusal := Tick(0, Refused, true, Succeed, true, Succeed);
    var half := Tick(1, Listed([Some(a), Some(b)]), true, FailAfter(1), true, Succeed);
    RefusedWhileEmpty(c, s0, refusal, s1);
    var s2 := HalfSynced(c, a, b, s1, half);
    TwoTicks(c, s0, s1, s2, refusal, half);
  }

  lemma TwoTicks(c: Config, s0: State, s1: State, s2: State, t0: Tick, t1: Tick)
    requires s0 == Initial(s0.table) && Next(c, s0, t0, s1) && Next(c, s1, t1, s2)
    ensures IsRun(c, [s0, s1, s2], [t0, t1])
  {
    hide Next;
  }

  lemma RefusedWhileEmpty(c: Config, s: State, tick: Tick, s': State)
    requires s.table == map[] && tick.fetch == Refused && tick.showAgain && tick.flush == Succeed
    requires s' == s.(failures := s.failures + 1, flushed := true, lastPeers := Some(0))
    ensures Next(c, s, tick, s')
  {
    NothingToDo();
    hide Reconciles, WantedTable;
    assert Syncs(c, s.table, tick, map[], false);
    assert Fails(c, s, tick, map[], s');
  }

  lemma HalfSynced(c: Config, a: ExitPeer, b: ExitPeer, s: State, tick: Tick) returns (s': State)
    requires a.publicKey != b.publicKey && a.ipv4 != b.ipv4 && a.ipv6 == c.derive(a.ipv4) && b.ipv6 == c.derive(b.ipv4)
    requires s.table == map[] && s.flushed && !MustFlush(c, s, tick)
    requires tick.fetch == Listed([Some(a), Some(b)]) && tick.show && tick.sync == FailAfter(1)
    ensures Next(c, s, tick, s') && s'.flushed && s'.table != map[]
  {
    TwoPeers(a, b, c.derive);
    hide WantedTable, AllowedIpsFor;
    var want := WantedTable(tick.fetch.rows, c.derive);
    var sets := [Set(a.publicKey, AllowedIpsFor(a)), Set(b.publicKey, AllowedIpsFor(b))];
    var mid := Run(map[], sets[..1]);
    assert [] + sets == sets;
    CutShortEmptyIff(map[], want, [], sets, 1);
    hide IsPlan, Run;
    assert Reconciles(map[], want, FailAfter(1), mid, false) by {
      assert (mid, false) == AfterCommands(map[], [] + sets, FailAfter(1));
    }
    s' := s.(failures := s.failures + 1, table := mid);
    assert Syncs(c, s.table, tick, mid, false);
    assert Fails(c, s, tick, mid, s');
  }

  lemma NothingToDo()
    ensures Reconciles(map[], map[], Succeed, map[], true)
  {
    assert KeysOf([]) == {};
    assert IsPlan(map[], map[], [], []);
    var none: seq<Change> := [];
    assert none + none == none;
    assert (map[], true) == AfterCommands(map[], none + none, Succeed);
  }

  lemma TwoPeers(a: ExitPeer, b: ExitPeer, derive: Derive)
    requires a.publicKey != b.publicKey && a.ipv4 != b.ipv4 && a.ipv6 == derive(a.ipv4) && b.ipv6 == derive(b.ipv4)
    ensures IsPlan(WantedTable([Some(a), Some(b)], derive), map[], [],
                   [Set(a.publicKey, AllowedIpsFor(a)), Set(b.publicKey, AllowedIpsFor(b))])
  {
    KeptTwo(a, b, derive);
    WantedTwo(a, b);
    hide *;
    assert WantedTable([Some(a), Some(b)], derive)
        == TableOf(map[a.publicKey := AllowedIpsFor(a), b.publicKey := AllowedIpsFor(b)])
    by { WantedTableIs([Some(a), Some(b)], derive); }
    TwoSets(a.publicKey, b.publicKey, AllowedIpsFor(a), AllowedIpsFor(b));
  }

  lemma WantedTableIs(rows: seq<Row>, derive: Derive)
    ensures WantedTable(rows, derive) == TableOf(WantedOf(Kept(rows, derive)))
  {
  }

  lemma KeptTwo(a: ExitPeer, b: ExitPeer, derive: Derive)
    requires a.publicKey != b.publicKey && a.ipv4 != b.ipv4 && a.ipv6 == derive(a.ipv4) && b.ipv6 == derive(b.ipv4)
    ensures Kept([Some(a), Some(b)], derive) == [a, b]
  {
    var rows: seq<Row> := [Some(a), Some(b)];
    assert rows[..1] == [Some(a)] && rows[..1][..0] == [];
    assert Kept(rows[..1], derive) == [a];
  }

  lemma WantedTwo(a: ExitPeer, b: ExitPeer)
    ensures WantedOf([a, b]) == map[a.publicKey := AllowedIpsFor(a), b.publicKey := AllowedIpsFor(b)]
  {
    hide AllowedIpsFor;
    assert [a, b][..1] == [a] && [a][..0] == [];
    assert WantedOf([a]) == map[a.publicKey := AllowedIpsFor(a)];
  }

  lemma TwoSets(j: Key, k: Key, x: seq<Prefix>, y: seq<Prefix>)
    requires j != k
    ensures IsPlan(TableOf(map[j := x, k := y]), map[], [], [Set(j, x), Set(k, y)])
  {
    var sets := [Set(j, x), Set(k, y)];
    assert sets[0] in sets && sets[1] in sets;
    assert KeysOf(sets) == {j, k};
    assert KeysOf([]) == {};
  }

  // ---------------------------------------------------------------------
  // The class
  // ---------------------------------------------------------------------

  datatype Health = Ok | Starting | Stale | Flushed

  /** Every prefix on the interface prints without a comma. */
  predicate Printable(t: Table) { forall k | k in t :: forall p | p in t[k] :: p != [] && COMMA !in p }

  /** The list's rows passed the shape checks of their addresses. */
  predicate Shaped(tick: Tick)
  {
    tick.fetch.Listed? ==>
      forall row | row in tick.fetch.rows :: row.Some? ==> COMMA !in row.value.ipv4 && COMMA !in row.value.ipv6
  }

  /** `wg show <iface> allowed-ips`, parsed. */
  method Show(t: Table) returns (l: Listing)
    requires Printable(t)
    ensures TableOf(l) == t && Parsed(l)
  {
    l := map[];
    var rest := t.Keys;
    while rest != {}
      invariant rest <= t.Keys && l.Keys == t.Keys - rest && Parsed(l)
      invariant forall k | k in l :: Sequences.Elements(l[k]) == t[k]
      decreases |rest|
    {
      var k :| k in rest;
      var ips := SortKeys(t[k]);
      l := l[k := ips];
      rest := rest - {k};
    }
  }

  lemma {:induction false} RunPrintable(t: Table, cs: seq<Change>)
    requires Printable(t) && forall c | c in cs && c.Set? :: Printed(c.allowedIps)
    ensures Printable(Run(t, cs))
    decreases |cs|
  {
    if cs != [] {
      assert cs[0] in cs;
      RunPrintable(Apply(t, cs[0]), cs[1..]);
    }
  }

  lemma PlanPrinted(desired: seq<ExitPeer>, actual: Table, changes: seq<Change>, removals: nat)
    requires PrintedPeers(desired) && removals <= |changes|
    requires IsPlan(TableOf(WantedOf(desired)), actual, changes[..removals], changes[removals..])
    ensures forall c | c in changes && c.Set? :: Printed(c.allowedIps)
  {
    WantedParsed(desired);
    hide WantedOf;
    forall c | c in changes && c.Set? ensures Printed(c.allowedIps) {
      assert changes == changes[..removals] + changes[removals..];
      assert c in changes[removals..];
      forall p | p in c.allowedIps ensures p != [] && COMMA !in p {
        assert p in Sequences.Elements(c.allowedIps);
        assert p in WantedOf(desired)[c.key];
      }
    }
  }

  lemma CarriedOut(desired: seq<ExitPeer>, t: Table, changes: seq<Change>, how: Commands, t': Table, ok: bool)
    requires PrintedPeers(desired) && Printable(t) && PlanFor(TableOf(WantedOf(desired)), t, changes)
    requires (t', ok) == AfterCommands(t, changes, how)
    ensures Reconciles(t, TableOf(WantedOf(desired)), how, t', ok) && Printable(t')
  {
    hide IsPlan, Run, Printable, WantedOf;
    var m :| 0 <= m <= |changes| && IsPlan(TableOf(WantedOf(desired)), t, changes[..m], changes[m..]);
    assert changes == changes[..m] + changes[m..];
    PlanPrinted(desired, t, changes, m);
    RunPrintable(t, changes);
    if !ok {
      RunPrintable(t, changes[..how.done]);
    }
  }

  lemma NothingWanted()
    ensures TableOf(WantedOf([])) == map[]
  {
  }

  lemma KeptPrinted(tick: Tick, derive: Derive)
    requires tick.fetch.Listed? && Shaped(tick)
    ensures PrintedPeers(Kept(tick.fetch.rows, derive))
  {
    KeptDistinct(tick.fetch.rows, derive);
  }

  class Agent {
    const config: Config
    const intervalMs: int
    var lastSuccessAt: Option<int>
    var lastPeers: Option<nat>
    var failures: nat
    var flushed: bool
    /** The WireGuard interface the agent drives. */
    var table: Table

    ghost function View(): State
      reads this
    {
      State(lastSuccessAt, lastPeers, failures, flushed, table)
    }

    constructor (config: Config, intervalMs: int, table: Table)
      ensures this.config == config && this.intervalMs == intervalMs && View() == Initial(table)
    {
      this.config, this.intervalMs, this.table := config, intervalMs, table;
      lastSuccessAt, lastPeers, failures, flushed := None, None, 0, false;
    }

    /** `apply`: the `wg` invocations one after the other, then conntrack; the first failure ends it. */
    method ApplyChanges(changes: seq<Change>, how: Commands) returns (ok: bool)
      modifies this`table
      ensures (table, ok) == AfterCommands(old(table), changes, how)
    {
      hide Run, Clauses;
      var commands := WgSetCommands(changes);
      NoClauses(table, commands, changes);
      var done := 0;
      for i := 0 to |commands|
        invariant done == |Clauses(commands[..i])| <= |changes|
        invariant table == Run(old(table), changes[..done])
        invariant how.FailAfter? ==> done <= how.done
      {
        BatchAt(commands, i);
        var next := done + |commands[i]|;
        if how.FailAfter? && how.done < next {
          RunBetween(old(table), changes, done, how.done);
          table := Run(table, changes[done..how.done]);
          return false;
        }
        RunBetween(old(table), changes, done, next);
        table := Run(table, commands[i]);
        done := next;
      }
      assert commands[..|commands|] == commands && changes[..|changes|] == changes;
      ok := !(how.FailAfter? && how.done == |changes| && changes != []);
    }

    /** Plan for `desired` and carry it out. */
    method ReconcileWith(desired: seq<ExitPeer>, how: Commands) returns (ok: bool)
      requires PrintedPeers(desired) && Printable(table)
      modifies this`table
      ensures Reconciles(old(table), TableOf(WantedOf(desired)), how, table, ok) && Printable(table)
    {
      hide PlanFor, AfterCommands, Printable, Disjoint, Run, TableOf;
      var actual := Show(table);
      var changes := PlanPeerChanges(desired, actual);
      ok := ApplyChanges(changes, how);
      CarriedOut(desired, old(table), changes, how, table, ok);
    }

    method DoTick(tick: Tick)
      requires Printable(table) && Shaped(tick)
      modifies this
      ensures Next(config, old(View()), tick, View()) && Printable(table)
    {
      hide Reconciles, Clashes, Printable, WantedOf, TableOf, AfterCommands;
      var ok := false;
      if tick.fetch.Listed? && |tick.fetch.rows| <= MAX_EXIT_PEERS && tick.show {
        var peers, _ := ParseRows(tick.fetch.rows, config.derive);
        KeptPrinted(tick, config.derive);
        ok := ReconcileWith(peers, tick.sync);
        if ok {
          lastSuccessAt, lastPeers, failures, flushed := Some(tick.now), Some(|peers|), 0, false;
          assert Syncs(config, old(table), tick, table, true);
          return;
        }
      }
      ghost var mid := table;
      assert Syncs(config, old(table), tick, mid, false);
      failures := failures + 1;
      var since := if lastSuccessAt.Some? then lastSuccessAt.value else config.startedAt;
      if tick.fetch.Refused? || tick.now - since > config.maxStaleMs {
        if tick.showAgain {
          var removed := ReconcileWith([], tick.flush);
          NothingWanted();
          assert Reconciles(mid, map[], tick.flush, table, removed);
          if removed {
            flushed, lastPeers := true, Some(0);
          }
        }
      }
      assert Fails(config, old(View()), tick, mid, View());
    }

    method ReportHealth(now: int) returns (h: Health)
      ensures h == Flushed <==> flushed
      ensures h == Starting <==> !flushed && lastSuccessAt.None?
      ensures h == Health.Ok
         <==> !flushed && lastSuccessAt.Some? && now - lastSuccessAt.value <= intervalMs * 3 + 15_000
    {
      if flushed { return Flushed; }
      if lastSuccessAt.None? { return Starting; }
      if now - lastSuccessAt.value <= intervalMs * 3 + 15_000 { return Health.Ok; }
      return Stale;
    }
  }

  lemma NoClauses(t: Table, commands: seq<seq<Change>>, changes: seq<Change>)
    ensures Clauses(commands[..0]) == [] && Run(t, changes[..0]) == t
  {
  }

  lemma {:induction false} ClausesPrefix(commands: seq<seq<Change>>, i: nat)
    requires i <= |commands|
    ensures Clauses(commands[..i]) <= Clauses(commands)
  {
    if i < |commands| {
      ClausesPrefix(commands[..|commands| - 1], i);
      assert commands[..|commands| - 1][..i] == commands[..i];
    } else {
      assert commands[..i] == commands;
    }
  }

  /** The `i`th invocation carries the clauses right after those of the earlier ones. */
  lemma BatchAt(commands: seq<seq<Change>>, i: nat)
    requires i < |commands|
    ensures var d := |Clauses(commands[..i])|;
            && |Clauses(commands[..i + 1])| == d + |commands[i]| <= |Clauses(commands)|
            && Clauses(commands)[d..d + |commands[i]|] == commands[i]
  {
    ClausesPrefix(commands, i + 1);
    assert commands[..i + 1][..i] == commands[..i];
    assert Clauses(commands[..i + 1]) == Clauses(commands[..i]) + commands[i];
    var d := |Clauses(commands[..i])|;
    assert Clauses(commands)[d..d + |commands[i]|] == Clauses(commands[..i + 1])[d..];
  }

  lemma RunBetween(t: Table, changes: seq<Change>, i: nat, j: nat)
    requires i <= j <= |changes|
    ensures Run(Run(t, changes[..i]), changes[i..j]) == Run(t, changes[..j])
  {
    RunConcat(t, changes[..i], changes[i..j]);
    assert changes[..j] == changes[..i] + changes[i..j];
  }
}
