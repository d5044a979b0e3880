/** The relay connections of one endpoint and key (TunnelManager of packages/client/src/tunnel.ts). */
module LinkSlots {
  import opened Wrappers
  import opened Sequences

  type LinkId = nat

  /**
   Connections are opened one at a time, at most `maxLinks` of them, and closed
   when the signed directory drops the relay. `links` and `connecting` are the
   manager's maps at this slot. `inFlight` and `live` are the connections that
   really are being made and really are open. Directory re-checks may overlap:
   `checks` holds, for each under way, the links it took before its lookup.
   */
  datatype Slot = Slot(
    links: seq<LinkId>, connecting: Option<LinkId>, inFlight: set<LinkId>, live: set<LinkId>,
    next: LinkId, checks: seq<seq<LinkId>>)

  const EMPTY := Slot([], None, {}, {}, 0, [])

  datatype Event =
    | Want(ready: bool)              // linkFor; is some tracked link with capacity?
    | Settled(link: LinkId, ok: bool)
    | Gone(link: LinkId)
    | CheckStarts
    | CheckEnds(check: nat, listed: bool)

  function Step(maxLinks: nat, s: Slot, e: Event): Slot
  {
    match e
    case Want(ready) =>
      if ready || s.connecting.Some? || |s.links| >= maxLinks then s
      else s.(connecting := Some(s.next), inFlight := s.inFlight + {s.next}, next := s.next + 1)
    case Settled(link, ok) =>
      if link !in s.inFlight then s
      else
        var done := s.(connecting := None, inFlight := s.inFlight - {link});
        if ok then done.(links := s.links + [link], live := s.live + {link}) else done
    case Gone(link) => s.(links := Without(s.links, link), live := s.live - {link})
    case CheckStarts => if s.links == [] then s else s.(checks := s.checks + [s.links])
    case CheckEnds(check, listed) =>
      if check >= |s.checks| then s
      else
        var rest := s.checks[..check] + s.checks[check + 1..];
        if listed then s.(checks := rest)
        else s.(checks := rest, live := s.live - Elements(s.checks[check]), links := [])
  }

  function Run(maxLinks: nat, es: seq<Event>): Slot
  {
    if es == [] then EMPTY else Step(maxLinks, Run(maxLinks, es[..|es| - 1]), es[|es| - 1])
  }

  /** All these links have been made. */
  predicate AllMade(links: seq<LinkId>, next: LinkId, inFlight: set<LinkId>)
  {
    forall l | l in links :: l < next && l !in inFlight
  }

  /** At most one connection in progress, and never more than `maxLinks` tracked, counting it. */
  predicate Limited(maxLinks: nat, s: Slot)
  {
    && s.inFlight == (if s.connecting.Some? then {s.connecting.value} else {})
    && |s.links| + |s.inFlight| <= maxLinks
    && (forall l | l in s.inFlight :: l < s.next && l !in s.links && l !in s.live)
    && (forall l | l in s.links :: l < s.next && l in s.live)
    && (forall l | l in s.live :: l < s.next)
    && Distinct(s.links)
    && (forall c | c in s.checks :: AllMade(c, s.next, s.inFlight))
  }

  lemma SettledLimited(maxLinks: nat, s: Slot, link: LinkId, ok: bool)
    requires Limited(maxLinks, s) && link in s.inFlight
    ensures Limited(maxLinks, Step(maxLinks, s, Settled(link, ok)))
  {
    var s' := Step(maxLinks, s, Settled(link, ok));
    assert s.inFlight == {link} && s'.inFlight == {};
    forall i, j | 0 <= i < j < |s'.links| ensures s'.links[i] != s'.links[j] {
      assert s.links[i] in s.links;
    }
  }

  lemma WantLimited(maxLinks: nat, s: Slot)
    requires Limited(maxLinks, s) && s.connecting.None? && |s.links| < maxLinks
    ensures Limited(maxLinks, Step(maxLinks, s, Want(false)))
  {
    assert s.inFlight + {s.next} == {s.next};
  }

  lemma GoneLimited(maxLinks: nat, s: Slot, link: LinkId)
    requires Limited(maxLinks, s)
    ensures Limited(maxLinks, Step(maxLinks, s, Gone(link)))
  {
    WithoutDistinct(s.links, link);
    var s' := Step(maxLinks, s, Gone(link));
    forall l | l in s'.links ensures l < s'.next && l in s'.live {
      assert l in s.links && l != link;
    }
    forall l | l in s'.inFlight ensures l < s'.next && l !in s'.links && l !in s'.live {
      assert l in s.inFlight;
    }
  }

  lemma StepLimited(maxLinks: nat, s: Slot, e: Event)
    requires Limited(maxLinks, s)
    ensures Limited(maxLinks, Step(maxLinks, s, e))
  {
    match e
    case Gone(link) => GoneLimited(maxLinks, s, link);
    case Want(ready) => if !ready && s.connecting.None? && |s.links| < maxLinks { WantLimited(maxLinks, s); }
    case Settled(link, ok) => if link in s.inFlight { SettledLimited(maxLinks, s, link, ok); }
    case CheckStarts =>
    case CheckEnds(_, _) =>
  }

  lemma {:induction false} SlotLimited(maxLinks: nat, es: seq<Event>)
    ensures Limited(maxLinks, Run(maxLinks, es))
  {
    if es != [] {
      SlotLimited(maxLinks, es[..|es| - 1]);
      StepLimited(maxLinks, Run(maxLinks, es[..|es| - 1]), es[|es| - 1]);
    }
  }

  /** A re-check found the relay unlisted, and had taken `l`. */
  predicate Unlists(s: Slot, e: Event, l: LinkId)
  {
    e.CheckEnds? && !e.listed && e.check < |s.checks| && l in s.checks[e.check]
  }

  predicate Deletes(s: Slot, e: Event) { e.CheckEnds? && !e.listed && e.check < |s.checks| }

  /**
   In every reachable state: a connection is begun exactly when one is wanted, none
   is under way and there is room; it opens exactly when it settles well, and ends
   exactly when it goes or a re-check that had taken it finds the relay unlisted;
   it is tracked from its opening until it goes or any re-check finds that.
   */
  lemma ConnectionsExact(maxLinks: nat, es: seq<Event>, e: Event, l: LinkId)
    ensures var s, s' := Run(maxLinks, es), Step(maxLinks, Run(maxLinks, es), e);
            && (l in s'.inFlight <==>
                  || (l in s.inFlight && !(e.Settled? && e.link == l))
                  || (e == Want(false) && s.inFlight == {} && |s.links| < maxLinks && l == s.next))
            && (l in s'.live <==>
                  || (l in s.live && e != Gone(l) && !Unlists(s, e, l))
                  || (l in s.inFlight && e == Settled(l, true)))
            && (l in s'.links <==>
                  || (l in s.links && e != Gone(l) && !Deletes(s, e))
                  || (l in s.inFlight && e == Settled(l, true)))
  {
    SlotLimited(maxLinks, es);
    hide Run, AllMade, Distinct;
    var s := Run(maxLinks, es);
    assert forall x | x in s.inFlight :: x !in s.live && x !in s.links;
    if e.Gone? {
      WithoutDistinct(s.links, e.link);
    }
  }

  /** Every open connection of the slot is one the manager tracks. */
  predicate Tracked(s: Slot) { s.live == Elements(s.links) }

  /** A re-check ends with the relay unlisted, and a connection was added since it took its links. */
  predicate Orphans(s: Slot, e: Event)
  {
    e.CheckEnds? && !e.listed && e.check < |s.checks| && exists l :: l in s.links && l !in s.checks[e.check]
  }

  /**
   Tracking survives a step exactly when the step is not such a re-check: then
   the connection is dropped from the map without being closed.
   */
  lemma TrackedIff(maxLinks: nat, s: Slot, e: Event)
    requires Limited(maxLinks, s) && Tracked(s)
    ensures Tracked(Step(maxLinks, s, e)) <==> !Orphans(s, e)
  {
    hide AllMade, Distinct;
    match e
    case Settled(link, ok) =>
      assert Elements(s.links + [link]) == Elements(s.links) + {link};
    case Gone(link) =>
      assert Elements(Without(s.links, link)) == Elements(s.links) - {link};
    case CheckEnds(check, listed) =>
      if check < |s.checks| && !listed {
        assert Elements<LinkId>([]) == {};
        assert s.live - Elements(s.checks[check]) == {} <==> forall l | l in s.links :: l in s.checks[check];
      }
    case Want(_) =>
    case CheckStarts =>
  }

  /** While tracking holds, `maxLinks` bounds the open connections themselves. */
  lemma TrackedBounds(maxLinks: nat, s: Slot)
    requires Limited(maxLinks, s) && Tracked(s)
    ensures |s.live| <= maxLinks
  {
    ElementsCount(s.links);
  }

  /**
   Over every run, with any re-checks at once: all connections stay tracked if and
   only if no re-check orphans one, and while they do at most `maxLinks` are open.
   */
  lemma {:induction false} TrackedRun(maxLinks: nat, es: seq<Event>, n: nat)
    requires n <= |es|
    ensures (forall m | 0 <= m <= n :: Tracked(Run(maxLinks, es[..m])))
       <==> (forall m | 0 <= m < n :: !Orphans(Run(maxLinks, es[..m]), es[m]))
    ensures Tracked(Run(maxLinks, es[..n])) ==> |Run(maxLinks, es[..n]).live| <= maxLinks
  {
    hide Run, Step, Tracked, Orphans, Limited;
    SlotLimited(maxLinks, es[..n]);
    if Tracked(Run(maxLinks, es[..n])) {
      TrackedBounds(maxLinks, Run(maxLinks, es[..n]));
    }
    if n == 0 {
      EmptyTracked(maxLinks, es);
    } else {
      TrackedRun(maxLinks, es, n - 1);
      SlotLimited(maxLinks, es[..n - 1]);
      RunNext(maxLinks, es, n - 1);
      if Tracked(Run(maxLinks, es[..n - 1])) {
        TrackedIff(maxLinks, Run(maxLinks, es[..n - 1]), es[n - 1]);
      }
    }
  }

  lemma EmptyTracked(maxLinks: nat, es: seq<Event>)
    ensures Tracked(Run(maxLinks, es[..0]))
  {
    assert Elements<LinkId>([]) == {};
  }

  /** The failing run, with room for two: the link added during the lookup stays open beside two newer ones. */
  lemma OrphanedConnections()
    ensures exists es :: |Run(2, es).live| == 3 && |Run(2, es).links| == 2
  {
    hide Step, Run;
    var es := [Want(false), Settled(0, true), CheckStarts, Want(false), Settled(1, true), CheckEnds(0, false),
               Want(false), Settled(2, true), Want(false), Settled(3, true)];
    var s3, s5 := Slot([0], None, {}, {0}, 1, [[0]]), Slot([0, 1], None, {}, {0, 1}, 2, [[0]]);
    var s6 := Slot([], None, {}, {1}, 2, []);
    Trace(2, es, 6, s6, s3, s5);
    var s8 := Slot([2], None, {}, {1, 2}, 3, []);
    var s10 := Slot([2, 3], None, {}, {1, 2, 3}, 4, []);
    OpenOne(2, es, 6, s6);
    assert s8 == Slot([2], None, {}, {1} + {2}, 3, []);
    OpenOne(2, es, 8, s8);
    assert es[..10] == es;
    assert s10.live == {1, 2} + {3};
    assert Run(2, es) == s10;
  }

  lemma RunNext(maxLinks: nat, es: seq<Event>, i: nat)
    requires i < |es|
    ensures Run(maxLinks, es[..i + 1]) == Step(maxLinks, Run(maxLinks, es[..i]), es[i])
  {
    assert es[..i + 1][..i] == es[..i];
  }

  /** Wanting and connecting one more link. */
  lemma OpenOne(maxLinks: nat, es: seq<Event>, i: nat, s: Slot)
    requires i + 2 <= |es| && Run(maxLinks, es[..i]) == s && es[i] == Want(false) && es[i + 1] == Settled(s.next, true)
    requires s.connecting.None? && s.inFlight == {} && |s.links| < maxLinks
    ensures Run(maxLinks, es[..i + 2])
         == s.(links := s.links + [s.next], live := s.live + {s.next}, next := s.next + 1)
  {
    RunNext(maxLinks, es, i);
    RunNext(maxLinks, es, i + 1);
    assert {s.next} - {s.next} == {};
  }

  lemma RunNone(maxLinks: nat, es: seq<Event>)
    ensures Run(maxLinks, es[..0]) == EMPTY
  {
  }

  lemma TakesLinks(maxLinks: nat, s: Slot)
    requires s.links != []
    ensures Step(maxLinks, s, CheckStarts) == s.(checks := s.checks + [s.links])
  {
  }

  lemma DropsLinks(maxLinks: nat, s: Slot)
    requires |s.checks| == 1
    ensures Step(maxLinks, s, CheckEnds(0, false))
            == s.(checks := [], live := s.live - Elements(s.checks[0]), links := [])
  {
  }

  lemma Trace(maxLinks: nat, es: seq<Event>, n: nat, s6: Slot, s3: Slot, s5: Slot)
    requires maxLinks == 2 && n == 6 <= |es|
    requires es[..6] == [Want(false), Settled(0, true), CheckStarts, Want(false), Settled(1, true), CheckEnds(0, false)]
    requires s3 == Slot([0], None, {}, {0}, 1, [[0]]) && s5 == Slot([0, 1], None, {}, {0, 1}, 2, [[0]])
    requires s6 == Slot([], None, {}, {1}, 2, [])
    ensures Run(maxLinks, es[..6]) == s6
  {
    hide Step, Run;
    var p := es[..6];
    assert Run(maxLinks, es[..0]) == EMPTY by { RunNone(maxLinks, es); }
    assert es[..0] == [] && forall i | 0 <= i < 6 :: es[i] == p[i];
    OpenOne(maxLinks, es, 0, EMPTY);
    assert EMPTY.links + [0] == [0] && EMPTY.live + {0} == {0};
    assert Run(maxLinks, es[..2]) == Slot([0], None, {}, {0}, 1, []);
    RunNext(maxLinks, es, 2);
    TakesLinks(maxLinks, Slot([0], None, {}, {0}, 1, []));
    assert Run(maxLinks, es[..3]) == s3;
    OpenOne(maxLinks, es, 3, s3);
    assert {0} + {1} == {0, 1};
    assert Run(maxLinks, es[..5]) == s5;
    RunNext(maxLinks, es, 5);
    DropsLinks(maxLinks, s5);
    assert {0, 1} - Elements([0]) == {1} by { assert Elements([0]) == {0}; }
  }

  // ---------------------------------------------------------------------
  // The class
  // ---------------------------------------------------------------------

  datatype Decision = Use(link: LinkId) | Wait | Full | Connect(link: LinkId)

  class LinkSlot {
    const maxLinks: nat
    var links: seq<LinkId>
    var connecting: Option<LinkId>
    var next: LinkId
    /** What each directory re-check under way holds of this slot across its lookup. */
    var checks: seq<seq<LinkId>>
    ghost var inFlight: set<LinkId>
    ghost var live: set<LinkId>

    ghost function View(): Slot
      reads this
    {
      Slot(links, connecting, inFlight, live, next, checks)
    }

    constructor (maxLinks: nat)
      ensures this.maxLinks == maxLinks && View() == EMPTY
    {
      this.maxLinks, links, connecting, next, inFlight, live, checks := maxLinks, [], None, 0, {}, {}, [];
    }

    /** One round of the loop in `linkFor`, up to its next await. */
    method Choose(hasCapacity: LinkId -> bool) returns (d: Decision)
      modifies this
      ensures View() == Step(maxLinks, old(View()), Want(exists l | l in links :: hasCapacity(l)))
      ensures d.Use? <==> exists l | l in old(links) :: hasCapacity(l)
      ensures d.Use? ==> exists i | 0 <= i < |links| ::
                           links[i] == d.link && hasCapacity(d.link) && forall j | 0 <= j < i :: !hasCapacity(links[j])
      ensures d.Wait? <==> !d.Use? && old(connecting).Some?
      ensures d.Full? <==> !d.Use? && old(connecting).None? && |old(links)| >= maxLinks
      ensures d.Connect? ==> connecting == Some(d.link) && d.link == old(next)
    {
      for i := 0 to |links|
        invariant View() == old(View())
        invariant forall j | 0 <= j < i :: !hasCapacity(links[j])
      {
        if hasCapacity(links[i]) {
          return Use(links[i]);
        }
      }
      if connecting.Some? {
        return Wait;
      }
      if |links| >= maxLinks {
        return Full;
      }
      connecting, inFlight := Some(next), inFlight + {next};
      next := next + 1;
      return Connect(next - 1);
    }

    /** The connection settled, and the entry of `connecting` is deleted. */
    method ConnectSettled(link: LinkId, ok: bool)
      requires Limited(maxLinks, View()) && link in inFlight
      modifies this
      ensures View() == Step(maxLinks, old(View()), Settled(link, ok)) && Limited(maxLinks, View())
    {
      hide Limited;
      StepLimited(maxLinks, View(), Settled(link, ok));
      if ok {
        links, live := links + [link], live + {link};
      }
      connecting, inFlight := None, inFlight - {link};
    }

    method LinkGone(gone: LinkId)
      modifies this
      ensures View() == Step(maxLinks, old(View()), Gone(gone))
    {
      var rest := [];
      for i := 0 to |links|
        invariant rest == Without(links[..i], gone) && View() == old(View())
      {
        assert links[..i + 1][..i] == links[..i];
        if links[i] != gone {
          rest := rest + [links[i]];
        }
      }
      assert links[..|links|] == links;
      links, live := rest, live - {gone};
    }

    /** `recheckLinks` reaches this slot, takes its links and asks the directory. */
    method StartCheck()
      modifies this
      ensures View() == Step(maxLinks, old(View()), CheckStarts)
    {
      if links != [] {
        checks := checks + [links];
      }
    }

    /** The directory answered: unless it lists the relay, the links taken are closed and the slot is deleted. */
    method EndCheck(check: nat, listed: bool)
      requires Limited(maxLinks, View()) && check < |checks|
      modifies this
      ensures View() == Step(maxLinks, old(View()), CheckEnds(check, listed)) && Limited(maxLinks, View())
    {
      hide Limited;
      StepLimited(maxLinks, View(), CheckEnds(check, listed));
      var taken := checks[check];
      checks := checks[..check] + checks[check + 1..];
      if listed {
        return;
      }
      for i := 0 to |taken|
        invariant View() == old(View()).(links := links, live := old(live) - Elements(taken[..i]),
                                               checks := old(checks)[..check] + old(checks)[check + 1..])
      {
        LinkGone(taken[i]);
        assert Elements(taken[..i + 1]) == Elements(taken[..i]) + {taken[i]};
      }
      assert taken[..|taken|] == taken;
      links := [];
    }
  }
}
