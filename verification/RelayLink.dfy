/**
 One connection to a relay and its circuits (RelayLink of
 packages/client/src/tunnel.ts).
 */
module RelayLink {
  import opened CircuitTable

  const MAX_CIRCUITS_PER_CONNECTION := 64
  const MAX_PENDING_OPENS := 32

  /** A circuit waiting for its answer, with the promise `openCircuit` returned, or an open one. */
  datatype Entry = Creating(promise: nat) | Open

  /** What was sent, and the point where the relay proved its key. */
  datatype Mark = Hello | Proof | Pong | Create(id: Id) | Destroy(id: Id)

  type Table = map<Id, Entry>

  /** `settled[p]` counts how often promise `p` was resolved or rejected. */
  datatype Link = Link(
    table: Table, pending: int, verified: bool, closed: bool, idleTimer: bool, settled: seq<nat>, log: seq<Mark>)

  const CONNECTED := Link(map[], 0, false, false, false, [], [Hello])

  predicate HasCapacity(l: Link)
  {
    l.verified && !l.closed && |l.table| < MAX_CIRCUITS_PER_CONNECTION && l.pending < MAX_PENDING_OPENS
  }

  function Settle(l: Link, p: nat): Link
    requires p < |l.settled|
  {
    l.(settled := l.settled[p := l.settled[p] + 1])
  }

  function Send(l: Link, m: Mark): Link { if l.closed then l else l.(log := l.log + [m]) }

  function IdleCheck(l: Link): Link
  {
    if l.closed || l.table != map[] || l.idleTimer then l else l.(idleTimer := true)
  }

  function Forget(l: Link, id: Id): Link
  {
    var l' := l.(table := l.table - {id},
                 pending := if id in l.table && l.table[id].Creating? then l.pending - 1 else l.pending);
    IdleCheck(l')
  }

  /** `openCircuit` with a fresh id; `sent` is what the socket says of the CIRCUIT_CREATE. */
  function OpenCircuit(l: Link, id: Id, sent: bool): Link
  {
    var p := |l.settled|;
    var l0 := l.(idleTimer := false, settled := l.settled + [0]);
    if id == RESERVED_CIRCUIT_ID || id in l.table || |l.table| >= MAX_CIRCUITS_PER_CONNECTION then Settle(l0, p)
    else
      var l1 := l0.(table := l.table[id := Creating(p)], pending := l.pending + 1);
      if sent then Send(l1, Create(id)) else Settle(Forget(l1, id), p)
  }

  function SettleAll(settled: seq<nat>, table: Table): (r: seq<nat>)
    ensures |r| == |settled|
  {
    seq(|settled|, p requires 0 <= p < |settled| =>
      if exists id | id in table :: table[id] == Creating(p) then settled[p] + 1 else settled[p])
  }

  function Teardown(l: Link): Link
  {
    if l.closed then l else l.(closed := true, settled := SettleAll(l.settled, l.table), table := map[])
  }

  datatype Event =
    | Ping
    | Answer(proves: bool)          // any other frame before the proof
    | OpenStream(id: Id, sent: bool)
    | OpenFails                     // no handshake can be built: the certificate has just expired
    | Timeout(id: Id)
    | Refused(id: Id)               // CIRCUIT_DESTROY for a circuit being created
    | Created(id: Id, confirmed: bool)
    | Done(id: Id)                  // an open circuit ends
    | Idle
    | Close

  predicate IsCreating(l: Link, id: Id) { id in l.table && l.table[id].Creating? && l.table[id].promise < |l.settled| }

  function OnAnswer(l: Link, proves: bool): Link
  {
    if l.closed || l.verified then l
    else if proves then l.(verified := true, log := l.log + [Proof])
    else Teardown(l)
  }

  /** `openStream` claims a circuit in the same step in which it saw capacity; the id is drawn until it is free. */
  function OnOpenStream(l: Link, id: Id, sent: bool): Link
  {
    if HasCapacity(l) && id != RESERVED_CIRCUIT_ID && id !in l.table then OpenCircuit(l, id, sent) else l
  }

  /** `openCircuit` stops the idle timer before it builds the handshake, which throws for an expired certificate. */
  function OnOpenFails(l: Link): Link { if HasCapacity(l) then l.(idleTimer := false) else l }

  function OnTimeout(l: Link, id: Id): Link
  {
    if !IsCreating(l, id) then l else Settle(Send(Forget(l, id), Destroy(id)), l.table[id].promise)
  }

  function OnRefused(l: Link, id: Id): Link
  {
    if !IsCreating(l, id) then l else Settle(Forget(l, id), l.table[id].promise)
  }

  function OnCreated(l: Link, id: Id, confirmed: bool): Link
  {
    if !IsCreating(l, id) then l
    else
      var l' := Settle(l.(pending := l.pending - 1), l.table[id].promise);
      if confirmed then l'.(table := (l.table - {id})[id := Open])
      else Send(l'.(table := l.table - {id}), Destroy(id))
  }

  function OnDone(l: Link, id: Id): Link
  {
    if id in l.table && l.table[id].Open? then IdleCheck(l.(table := l.table - {id})) else l
  }

  function OnIdle(l: Link): Link
  {
    if !l.idleTimer then l
    else if l.table == map[] then Teardown(l.(idleTimer := false)) else l.(idleTimer := false)
  }

  function Step(l: Link, e: Event): Link
  {
    match e
    case Ping => Send(l, Pong)
    case Answer(proves) => OnAnswer(l, proves)
    case OpenStream(id, sent) => OnOpenStream(l, id, sent)
    case OpenFails => OnOpenFails(l)
    case Timeout(id) => OnTimeout(l, id)
    case Refused(id) => OnRefused(l, id)
    case Created(id, confirmed) => OnCreated(l, id, confirmed)
    case Done(id) => OnDone(l, id)
    case Idle => OnIdle(l)
    case Close => Teardown(l)
  }

  function Run(es: seq<Event>): Link
  {
    if es == [] then CONNECTED else Step(Run(es[..|es| - 1]), es[|es| - 1])
  }

  // ---------------------------------------------------------------------
  // The table
  // ---------------------------------------------------------------------

  function CreatingIds(t: Table): set<Id> { set id | id in t && t[id].Creating? }

  /** While the link is open the count is right, and neither limit is exceeded. */
  predicate Counted(l: Link)
  {
    && RESERVED_CIRCUIT_ID !in l.table
    && (if l.closed then l.table == map[]
        else l.pending == |CreatingIds(l.table)| && l.pending <= MAX_PENDING_OPENS
             && |l.table| <= MAX_CIRCUITS_PER_CONNECTION)
  }

  lemma AddCreating(t: Table, id: Id, p: nat)
    requires id !in t
    ensures |CreatingIds(t[id := Creating(p)])| == |CreatingIds(t)| + 1 && |t[id := Creating(p)]| == |t| + 1
  {
    assert CreatingIds(t[id := Creating(p)]) == CreatingIds(t) + {id};
    AddSize(t, id, Creating(p));
  }

  lemma RemoveEntry(t: Table, id: Id)
    requires id in t
    ensures |CreatingIds(t - {id})| == |CreatingIds(t)| - (if t[id].Creating? then 1 else 0) && |t - {id}| == |t| - 1
  {
    assert CreatingIds(t - {id}) == CreatingIds(t) - {id};
    RemoveSize(t, id);
  }

  /** Re-adding a created circuit as open never finds the table full or the id taken. */
  lemma Promote(t: Table, id: Id)
    requires id in t && t[id].Creating? && |t| <= MAX_CIRCUITS_PER_CONNECTION
    ensures id !in t - {id} && |t - {id}| < MAX_CIRCUITS_PER_CONNECTION
    ensures |(t - {id})[id := Open]| == |t| && |CreatingIds((t - {id})[id := Open])| == |CreatingIds(t)| - 1
  {
    RemoveEntry(t, id);
    AddSize(t - {id}, id, Open);
    assert CreatingIds((t - {id})[id := Open]) == CreatingIds(t - {id});
  }

  lemma OpenCounted(l: Link, id: Id, sent: bool)
    requires Counted(l)
    ensures Counted(OnOpenStream(l, id, sent))
  {
    hide CreatingIds;
    if HasCapacity(l) && id != RESERVED_CIRCUIT_ID && id !in l.table {
      AddCreating(l.table, id, |l.settled|);
      RemoveEntry(l.table[id := Creating(|l.settled|)], id);
    }
  }

  lemma ForgetCounted(l: Link, id: Id)
    requires Counted(l) && IsCreating(l, id)
    ensures Counted(OnTimeout(l, id)) && Counted(OnRefused(l, id))
  {
    hide CreatingIds;
    RemoveEntry(l.table, id);
  }

  lemma CreatedCounted(l: Link, id: Id, confirmed: bool)
    requires Counted(l) && IsCreating(l, id)
    ensures Counted(OnCreated(l, id, confirmed))
  {
    hide CreatingIds;
    RemoveEntry(l.table, id);
    Promote(l.table, id);
  }

  lemma DoneCounted(l: Link, id: Id)
    requires Counted(l) && id in l.table && l.table[id].Open?
    ensures Counted(OnDone(l, id))
  {
    hide CreatingIds;
    RemoveEntry(l.table, id);
  }

  lemma StepCounted(l: Link, e: Event)
    requires Counted(l)
    ensures Counted(Step(l, e))
  {
    hide CreatingIds, OnOpenStream;
    match e
    case OpenStream(id, sent) => OpenCounted(l, id, sent);
    case Timeout(id) => if IsCreating(l, id) { ForgetCounted(l, id); }
    case Refused(id) => if IsCreating(l, id) { ForgetCounted(l, id); }
    case Done(id) => if id in l.table && l.table[id].Open? { DoneCounted(l, id); }
    case Created(id, confirmed) => if IsCreating(l, id) { CreatedCounted(l, id, confirmed); }
    case Ping =>
    case Answer(_) =>
    case OpenFails =>
    case Idle =>
    case Close =>
  }

  // ---------------------------------------------------------------------
  // Promises
  // ---------------------------------------------------------------------

  predicate Waits(t: Table, p: nat) { exists id | id in t :: t[id] == Creating(p) }

  /** An unsettled promise waits in the table, a settled one does not, and no two entries share one. */
  ghost predicate Promised(t: Table, settled: seq<nat>)
  {
    && (forall p | 0 <= p < |settled| :: settled[p] == if Waits(t, p) then 0 else 1)
    && (forall id | id in t && t[id].Creating? :: t[id].promise < |settled|)
    && (forall i, j | i in t && j in t && i != j && t[i].Creating? && t[j].Creating? :: t[i].promise != t[j].promise)
  }

  lemma NewPromise(t: Table, settled: seq<nat>, id: Id)
    requires Promised(t, settled) && id !in t
    ensures Promised(t[id := Creating(|settled|)], settled + [0])
  {
    var t', s' := t[id := Creating(|settled|)], settled + [0];
    forall p | 0 <= p < |s'| ensures s'[p] == if Waits(t', p) then 0 else 1 {
      assert p == |settled| ==> t'[id] == Creating(p);
      if p < |settled| {
        WaitsSame(t, t', p, id);
      }
    }
  }

  lemma WaitsSame(t: Table, t': Table, p: nat, id: Id)
    requires t' - {id} == t - {id}
    requires (id in t ==> t[id] != Creating(p)) && (id in t' ==> t'[id] != Creating(p))
    ensures Waits(t, p) <==> Waits(t', p)
  {
    if Waits(t, p) {
      var x :| x in t && t[x] == Creating(p);
      assert x in (t - {id}) && (t - {id})[x] == (t' - {id})[x];
      assert t'[x] == Creating(p);
    }
    if Waits(t', p) {
      var x :| x in t' && t'[x] == Creating(p);
      assert x in (t' - {id}) && (t - {id})[x] == (t' - {id})[x];
      assert t[x] == Creating(p);
    }
  }

  /** Settling the promise of an entry as it leaves the table, or as it opens. */
  lemma PromiseKept(t: Table, settled: seq<nat>, id: Id, t': Table)
    requires Promised(t, settled) && id in t && t[id].Creating?
    requires t' == t - {id} || t' == (t - {id})[id := Open]
    ensures Promised(t', settled[t[id].promise := settled[t[id].promise] + 1])
  {
    var q := t[id].promise;
    var s' := settled[q := settled[q] + 1];
    assert Waits(t, q);
    assert forall x | x in t' && t'[x].Creating? :: x != id && x in t && t'[x] == t[x];
    assert t' - {id} == t - {id};
    forall p | 0 <= p < |s'| ensures s'[p] == if Waits(t', p) then 0 else 1 {
      if p != q {
        WaitsSame(t, t', p, id);
      }
    }
  }

  lemma OpenEnds(t: Table, settled: seq<nat>, id: Id)
    requires Promised(t, settled) && id in t && t[id].Open?
    ensures Promised(t - {id}, settled)
  {
    forall p | 0 <= p < |settled| ensures settled[p] == if Waits(t - {id}, p) then 0 else 1 {
      WaitsSame(t, t - {id}, p, id);
    }
  }

  lemma AllSettled(t: Table, settled: seq<nat>)
    requires Promised(t, settled)
    ensures Promised(map[], SettleAll(settled, t))
    ensures forall p | 0 <= p < |settled| :: SettleAll(settled, t)[p] == 1
  {
  }

  ghost predicate LinkPromised(l: Link) { Promised(l.table, l.settled) }

  lemma OpenPromised(l: Link, id: Id, sent: bool)
    requires LinkPromised(l)
    ensures LinkPromised(OnOpenStream(l, id, sent))
  {
    hide Promised;
    if HasCapacity(l) && id != RESERVED_CIRCUIT_ID && id !in l.table {
      NewPromise(l.table, l.settled, id);
      var t := l.table[id := Creating(|l.settled|)];
      PromiseKept(t, l.settled + [0], id, t - {id});
    }
  }

  lemma LeavePromised(l: Link, id: Id, confirmed: bool)
    requires LinkPromised(l) && IsCreating(l, id)
    ensures LinkPromised(OnTimeout(l, id)) && LinkPromised(OnRefused(l, id))
            && LinkPromised(OnCreated(l, id, confirmed))
  {
    hide Promised;
    PromiseKept(l.table, l.settled, id, l.table - {id});
    PromiseKept(l.table, l.settled, id, (l.table - {id})[id := Open]);
  }

  lemma TeardownPromised(l: Link)
    requires LinkPromised(l)
    ensures LinkPromised(Teardown(l))
  {
    hide Promised, SettleAll;
    AllSettled(l.table, l.settled);
  }

  lemma StepPromised(l: Link, e: Event)
    requires LinkPromised(l)
    ensures LinkPromised(Step(l, e))
  {
    hide Promised, SettleAll, OnOpenStream;
    match e
    case OpenStream(id, sent) => OpenPromised(l, id, sent);
    case Timeout(id) => if IsCreating(l, id) { LeavePromised(l, id, false); }
    case Refused(id) => if IsCreating(l, id) { LeavePromised(l, id, false); }
    case Created(id, confirmed) => if IsCreating(l, id) { LeavePromised(l, id, confirmed); }
    case Done(id) => if id in l.table && l.table[id].Open? { OpenEnds(l.table, l.settled, id); }
    case Idle => TeardownPromised(l.(idleTimer := false));
    case Answer(_) => TeardownPromised(l);
    case Close => TeardownPromised(l);
    case Ping =>
    case OpenFails =>
  }

  // ---------------------------------------------------------------------
  // Nothing before the proof
  // ---------------------------------------------------------------------

  /** The proof came before every CIRCUIT_CREATE, at most once, and exactly when the link is verified. */
  ghost predicate Proven(verified: bool, log: seq<Mark>)
  {
    && (verified <==> Proof in log)
    && (forall i | 0 <= i < |log| && log[i].Create? :: Proof in log[..i])
    && (forall i, j | 0 <= i < j < |log| && log[i] == Proof :: log[j] != Proof)
  }

  lemma ProvenSnoc(verified: bool, log: seq<Mark>, m: Mark)
    requires Proven(verified, log) && (m == Proof ==> !verified) && (m.Create? ==> verified)
    ensures Proven(verified || m == Proof, log + [m])
  {
    var log' := log + [m];
    forall i | 0 <= i < |log'| && log'[i].Create? ensures Proof in log'[..i] {
      assert log'[..i] == if i == |log| then log else log[..i];
    }
  }

  lemma StepProven(l: Link, e: Event)
    requires Proven(l.verified, l.log)
    ensures Proven(Step(l, e).verified, Step(l, e).log)
  {
    hide Proven, SettleAll;
    match e
    case Ping => ProvenSnoc(l.verified, l.log, Pong);
    case Answer(proves) => if !l.verified { ProvenSnoc(l.verified, l.log, Proof); }
    case OpenStream(id, sent) => if l.verified { ProvenSnoc(l.verified, l.log, Create(id)); }
    case Timeout(id) => ProvenSnoc(l.verified, l.log, Destroy(id));
    case Created(id, _) => ProvenSnoc(l.verified, l.log, Destroy(id));
    case OpenFails =>
    case Refused(_) =>
    case Done(_) =>
    case Idle =>
    case Close =>
  }

  /**
   Over every sequence of events: `pending` is the number of circuits being
   created and at most 32, the table holds at most 64, every promise is settled
   exactly when its circuit is no longer being created and never twice, and no
   CIRCUIT_CREATE precedes the relay's proof.
   */
  lemma {:induction false} Bookkeeping(es: seq<Event>)
    ensures var l := Run(es); Counted(l) && LinkPromised(l) && Proven(l.verified, l.log)
  {
    hide Step;
    if es != [] {
      var l := Run(es[..|es| - 1]);
      Bookkeeping(es[..|es| - 1]);
      hide Counted, Promised, Proven;
      StepCounted(l, es[|es| - 1]);
      StepPromised(l, es[|es| - 1]);
      StepProven(l, es[|es| - 1]);
    } else {
      assert CreatingIds(map[]) == {};
    }
  }

  /** When the link is gone every promise ever made has been settled, once. */
  lemma ClosedSettlesAll(es: seq<Event>, p: nat)
    requires Run(es).closed && p < |Run(es).settled|
    ensures Run(es).settled[p] == 1
  {
    Bookkeeping(es);
  }

  // ---------------------------------------------------------------------
  // What each event does
  // ---------------------------------------------------------------------

  predicate Awaited(l: Link, id: Id) { id in l.table && l.table[id].Creating? }

  predicate InUse(l: Link, id: Id) { id in l.table && l.table[id].Open? }

  /** The relay is proven, fewer than 64 circuits are held and fewer than 32 awaited, and the id is free. */
  predicate Claims(l: Link, id: Id)
  {
    && l.verified && !l.closed && |l.table| < 64 && |CreatingIds(l.table)| < 32
    && id != RESERVED_CIRCUIT_ID && id !in l.table
  }

  /** What an event must put on the wire, or teach about the relay. */
  function Owed(l: Link, e: Event): seq<Mark>
  {
    if l.closed then []
    else
      match e
      case Ping => [Pong]
      case Answer(proves) => if proves && !l.verified then [Proof] else []
      case OpenStream(id, sent) => if sent && Claims(l, id) then [Create(id)] else []
      case Timeout(id) => if Awaited(l, id) then [Destroy(id)] else []
      case Created(id, confirmed) => if Awaited(l, id) && !confirmed then [Destroy(id)] else []
      case _ => []
  }

  /** The events that end the link. */
  predicate Ends(l: Link, e: Event)
  {
    e == Close || (e == Answer(false) && !l.verified) || (e == Idle && l.idleTimer && l.table == map[])
  }

  /** An awaited circuit is answered, refused or given up. */
  predicate Answers(e: Event, id: Id) { (e.Timeout? || e.Refused? || e.Created?) && e.id == id }

  /** What a reachable link's counters say of its table. */
  ghost predicate Sound(l: Link)
  {
    && (l.closed ==> l.table == map[])
    && (!l.closed ==> l.pending == |CreatingIds(l.table)|)
    && forall id :: Awaited(l, id) <==> IsCreating(l, id)
  }

  lemma ReachableSound(es: seq<Event>)
    ensures Sound(Run(es))
  {
    Bookkeeping(es);
    hide Run, CreatingIds;
  }

  lemma OpenExact(l: Link, id: Id, sent: bool)
    requires Sound(l)
    ensures var l' := Step(l, OpenStream(id, sent));
            && l'.log == l.log + Owed(l, OpenStream(id, sent))
            && l'.closed == l.closed && l'.verified == l.verified
            && l'.table == if sent && Claims(l, id) then l.table[id := Creating(|l.settled|)] else l.table
  {
    hide CreatingIds;
    assert id !in l.table ==> l.table[id := Creating(|l.settled|)] - {id} == l.table;
  }

  /**
   In every reachable state an event sends exactly what it owes: CIRCUIT_DESTROY
   for a circuit that timed out or failed key confirmation and for no other,
   CIRCUIT_CREATE exactly for a circuit that can be claimed.
   */
  lemma SentExact(es: seq<Event>, e: Event)
    ensures Step(Run(es), e).log == Run(es).log + Owed(Run(es), e)
  {
    var l := Run(es);
    ReachableSound(es);
    hide Run, SettleAll, CreatingIds, OnOpenStream;
    if e.OpenStream? {
      OpenExact(l, e.id, e.sent);
    }
  }

  /**
   In every reachable state: the link is closed exactly after an event that ends
   it; a circuit is open exactly if it was and did not end, or was awaited and is
   now confirmed; it is awaited exactly if it was and is not answered, or was just
   asked for; and the relay counts as proven exactly from its proof on.
   */
  lemma CircuitsExact(es: seq<Event>, e: Event, id: Id)
    ensures var l, l' := Run(es), Step(Run(es), e);
            && (l'.closed <==> l.closed || Ends(l, e))
            && (l'.verified <==> l.verified || (e == Answer(true) && !l.closed))
            && (InUse(l', id) <==>
                  && !l'.closed
                  && ((InUse(l, id) && e != Done(id)) || (Awaited(l, id) && e == Created(id, true))))
            && (Awaited(l', id) <==>
                  && !l'.closed
                  && ((Awaited(l, id) && !Answers(e, id)) || (e == OpenStream(id, true) && Claims(l, id))))
  {
    var l := Run(es);
    ReachableSound(es);
    hide Run, CreatingIds;
    if e.OpenStream? {
      OpenExact(l, e.id, e.sent);
    } else {
      TableExact(l, e, id);
    }
    hide Step, Sound;
  }

  lemma TableExact(l: Link, e: Event, id: Id)
    requires Sound(l) && !e.OpenStream?
    ensures var l' := Step(l, e);
            && (l'.closed <==> l.closed || Ends(l, e))
            && (l'.verified <==> l.verified || (e == Answer(true) && !l.closed))
            && (l'.closed ==> l'.table == map[])
            && (!l'.closed ==>
                  && (id in l'.table <==>
                        && id in l.table && !(InUse(l, id) && e == Done(id))
                        && !(Awaited(l, id) && Answers(e, id) && e != Created(id, true)))
                  && (id in l'.table ==> l'.table[id] == if e == Created(id, true) then Open else l.table[id]))
  {
    hide CreatingIds, SettleAll, OnOpenStream;
  }

  // ---------------------------------------------------------------------
  // Idle links
  // ---------------------------------------------------------------------

  /** A link that has lost its last circuit is on its way to being closed. */
  predicate Retiring(l: Link) { l.closed || l.table != map[] || l.idleTimer }

  predicate TimerOnlyWhenEmpty(l: Link) { l.idleTimer && !l.closed ==> l.table == map[] }

  lemma HoldsSome(t: Table, id: Id, entry: Entry)
    ensures t[id := entry] != map[]
  {
    assert id in t[id := entry];
  }

  lemma TimerStep(l: Link, e: Event)
    requires TimerOnlyWhenEmpty(l)
    ensures TimerOnlyWhenEmpty(Step(l, e))
  {
    hide SettleAll;
    match e
    case OpenStream(id, sent) => HoldsSome(l.table, id, Creating(|l.settled|));
    case Ping =>
    case Answer(_) =>
    case OpenFails =>
    case Timeout(_) =>
    case Refused(_) =>
    case Created(_, _) =>
    case Done(_) =>
    case Idle =>
    case Close =>
  }

  lemma {:induction false} TimerRun(es: seq<Event>)
    ensures TimerOnlyWhenEmpty(Run(es))
  {
    hide Step;
    if es != [] {
      TimerRun(es[..|es| - 1]);
      TimerStep(Run(es[..|es| - 1]), es[|es| - 1]);
    }
  }

  lemma OnlyEntry(t: Table, id: Id)
    requires id in t
    ensures t - {id} == map[] <==> t.Keys == {id}
  {
    assert (t - {id}).Keys == t.Keys - {id};
    assert t - {id} == map[] <==> (t - {id}).Keys == {};
  }

  /** The two ways in which an open link loses its last hold without a timer. */
  predicate Abandons(l: Link, e: Event)
  {
    || (e.Created? && !e.confirmed && IsCreating(l, e.id) && l.table.Keys == {e.id} && !l.closed)
    || (e.OpenFails? && HasCapacity(l) && l.table == map[])
  }

  /** What puts an open, empty link without a timer on its way again: a circuit, or the end of the link. */
  predicate Engages(l: Link, e: Event)
  {
    || (e.OpenStream? && HasCapacity(l) && e.id != RESERVED_CIRCUIT_ID)
    || e.Close? || (e.Answer? && !e.proves && !l.verified)
  }

  /**
   In every reachable state and for every event: a link that is closed, in use or
   about to be closed for being idle stays so, except exactly when its only
   circuit fails key confirmation, or when no handshake can be built on it while
   it is empty. A link that is none of these, as it is when fresh, becomes so only
   by a circuit or by its end.
   */
  lemma RetiringIff(es: seq<Event>, e: Event)
    ensures var l := Run(es); Retiring(Step(l, e)) <==> if Retiring(l) then !Abandons(l, e) else Engages(l, e)
  {
    hide Step, Retiring, Abandons, Engages, Run;
    TimerRun(es);
    if Retiring(Run(es)) {
      RetiringStep(Run(es), e);
    } else {
      EngagingStep(Run(es), e);
    }
  }

  lemma RetiringStep(l: Link, e: Event)
    requires Retiring(l) && TimerOnlyWhenEmpty(l)
    ensures Retiring(Step(l, e)) <==> !Abandons(l, e)
  {
    hide SettleAll;
    match e
    case OpenStream(id, sent) => HoldsSome(l.table, id, Creating(|l.settled|));
    case Created(id, confirmed) =>
      if IsCreating(l, id) {
        OnlyEntry(l.table, id);
        HoldsSome(l.table - {id}, id, Open);
      }
    case Ping =>
    case Answer(_) =>
    case OpenFails =>
    case Timeout(_) =>
    case Refused(_) =>
    case Done(_) =>
    case Idle =>
    case Close =>
  }

  lemma EngagingStep(l: Link, e: Event)
    requires !Retiring(l)
    ensures Retiring(Step(l, e)) <==> Engages(l, e)
  {
    hide SettleAll;
    match e
    case OpenStream(id, sent) => HoldsSome(l.table, id, Creating(|l.settled|));
    case Ping =>
    case Answer(_) =>
    case OpenFails =>
    case Timeout(_) =>
    case Created(_, _) =>
    case Refused(_) =>
    case Done(_) =>
    case Idle =>
    case Close =>
  }

  /** Open, empty and for good: the idle event finds no timer. */
  predicate Stranded(l: Link) { !Retiring(l) && l.verified && l.table == map[] && !l.closed && Step(l, Idle) == l }

  lemma RunThen(es: seq<Event>, e: Event)
    ensures Run(es + [e]) == Step(Run(es), e) && Run([]) == CONNECTED
  {
    assert (es + [e])[..|es|] == es;
  }

  /** Such a run: the only circuit fails key confirmation. */
  lemma IdleForGood()
    ensures Stranded(Run([Answer(true), OpenStream(1, true), Created(1, false)]))
  {
    hide SettleAll, Run;
    var creating := FirstCircuit();
    RunThen([Answer(true), OpenStream(1, true)], Created(1, false));
    assert [Answer(true), OpenStream(1, true)] + [Created(1, false)]
      == [Answer(true), OpenStream(1, true), Created(1, false)];
    assert creating.table - {1} == map[];
  }

  /**
   And another: the link has emptied and its timer runs, when a certificate expires
   just before its circuit is opened.
   */
  lemma TimerLostForGood()
    ensures var es := [Answer(true), OpenStream(1, true), Timeout(1)];
            Run(es).idleTimer && Retiring(Run(es)) && Stranded(Run(es + [OpenFails]))
    ensures Stranded(Run([Answer(true), OpenFails]))
  {
    hide SettleAll, Run;
    var creating := FirstCircuit();
    var es := [Answer(true), OpenStream(1, true), Timeout(1)];
    RunThen([Answer(true), OpenStream(1, true)], Timeout(1));
    assert [Answer(true), OpenStream(1, true)] + [Timeout(1)] == es;
    assert creating.table - {1} == map[];
    RunThen(es, OpenFails);
    RunThen([Answer(true)], OpenFails);
    assert [Answer(true)] + [OpenFails] == [Answer(true), OpenFails];
  }

  lemma FirstCircuit() returns (l: Link)
    ensures l == Run([Answer(true), OpenStream(1, true)])
    ensures l == Link(map[1 := Creating(0)], 1, true, false, false, [0], [Hello, Proof, Create(1)])
    ensures Run([Answer(true)]) == Link(map[], 0, true, false, false, [], [Hello, Proof])
  {
    hide SettleAll, Run;
    RunThen([], Answer(true));
    assert [] + [Answer(true)] == [Answer(true)];
    RunThen([Answer(true)], OpenStream(1, true));
    assert [Answer(true)] + [OpenStream(1, true)] == [Answer(true), OpenStream(1, true)];
    l := Step(Run([Answer(true)]), OpenStream(1, true));
  }

  // ---------------------------------------------------------------------
  // The class
  // ---------------------------------------------------------------------

  /** Frames from the relay, as far as the bookkeeping reads them. */
  datatype Incoming =
    | PingFrame
    | AckFrame(proves: bool)                      // HELLO_ACK, or any other frame where one was due
    | DestroyFrame(circuit: Id)
    | CreatedFrame(circuit: Id, confirmed: bool)  // `confirmed`: the handshake finished

  class RelayConnection {
    const circuits: CircuitTable<Entry>
    var pending: int
    var verified: bool
    var closed: bool
    var idleTimer: bool
    /** How many promises were made; each entry carries the number of its own. */
    var promises: nat
    ghost var settled: seq<nat>
    ghost var log: seq<Mark>

    ghost function View(): Link
      reads this, circuits
    {
      Link(circuits.circuits, pending, verified, closed, idleTimer, settled, log)
    }

    ghost predicate WellFormed()
      reads this, circuits
    {
      promises == |settled| && circuits.Valid() && circuits.maxCircuits == MAX_CIRCUITS_PER_CONNECTION
    }

    ghost predicate Valid()
      reads this, circuits
    {
      WellFormed() && Counted(View()) && LinkPromised(View())
    }

    constructor ()
      ensures Valid() && fresh(circuits) && View() == CONNECTED
    {
      circuits := new CircuitTable<Entry>(MAX_CIRCUITS_PER_CONNECTION);
      pending, verified, closed, idleTimer, promises, settled, log := 0, false, false, false, 0, [], [Hello];
      new;
      assert CreatingIds(map[]) == {};
    }

    method CheckIdle()
      modifies this`idleTimer
      ensures View() == IdleCheck(old(View()))
    {
      if !closed && circuits.circuits == map[] && !idleTimer {
        idleTimer := true;
      }
    }

    method ForgetCircuit(id: Id)
      requires circuits.Valid()
      modifies this, circuits
      ensures circuits.Valid() && View() == Forget(old(View()), id) && promises == old(promises)
    {
      hide IdleCheck;
      var entry := circuits.Delete(id);
      if entry.Some? && entry.value.Creating? {
        pending := pending - 1;
      }
      assert View() == old(View()).(table := circuits.circuits, pending := pending);
      CheckIdle();
    }

    ghost method Mark1(m: Mark)
      modifies this`log
      ensures View() == Send(old(View()), m)
    {
      if !closed {
        log := log + [m];
      }
    }

    ghost method SettlePromise(p: nat)
      requires p < |settled|
      modifies this`settled
      ensures View() == Settle(old(View()), p)
    {
      settled := settled[p := settled[p] + 1];
    }

    /**
     `openCircuit`, whatever the table holds: a full one refuses and rejects the
     promise. It throws, having stopped the timer, when the handshake is not `built`.
     */
    method OpenOn(id: Id, built: bool, sent: bool)
      requires WellFormed()
      modifies this, circuits
      ensures WellFormed()
      ensures View() == if built then OpenCircuit(old(View()), id, sent) else old(View()).(idleTimer := false)
    {
      idleTimer := false;
      if !built {
        return;
      }
      var p := promises;
      promises, settled := promises + 1, settled + [0];
      var added := circuits.Add(id, Creating(p));
      if !added {
        SettlePromise(p);
        return;
      }
      pending := pending + 1;
      if sent {
        Mark1(Create(id));
      } else {
        ForgetCircuit(id);
        SettlePromise(p);
      }
    }

    /** `openStream` opens a circuit in the very step in which it sees `hasCapacity`; `id` is drawn until it is free. */
    method OpenStreamOn(id: Id, built: bool, sent: bool) returns (taken: bool)
      requires Valid() && id != RESERVED_CIRCUIT_ID && id !in circuits.circuits
      modifies this, circuits
      ensures Valid() && View() == Step(old(View()), if built then OpenStream(id, sent) else OpenFails)
      ensures taken == (built && HasCapacity(old(View())))
    {
      hide Counted, Promised, OpenCircuit;
      ghost var e := if built then OpenStream(id, sent) else OpenFails;
      StepCounted(View(), e);
      StepPromised(View(), e);
      var room := verified && !closed && |circuits.circuits| < MAX_CIRCUITS_PER_CONNECTION
        && pending < MAX_PENDING_OPENS;
      if room {
        OpenOn(id, built, sent);
      }
      taken := built && room;
    }

    /** The handshake timer of a circuit still being created. */
    method HandshakeTimeout(id: Id)
      requires Valid() && IsCreating(View(), id)
      modifies this, circuits
      ensures Valid() && View() == Step(old(View()), Timeout(id))
    {
      hide Counted, Promised, SettleAll;
      StepCounted(View(), Timeout(id));
      StepPromised(View(), Timeout(id));
      ghost var p := circuits.circuits[id].promise;
      ForgetCircuit(id);
      Mark1(Destroy(id));
      SettlePromise(p);
    }

    /** An open circuit ended: the hook `onDone`. */
    method CircuitDone(id: Id)
      requires Valid() && id in circuits.circuits && circuits.circuits[id].Open?
      modifies this, circuits
      ensures Valid() && View() == Step(old(View()), Done(id))
    {
      hide Counted, Promised, SettleAll;
      StepCounted(View(), Done(id));
      StepPromised(View(), Done(id));
      var _ := circuits.Delete(id);
      CheckIdle();
    }

    method TeardownAll()
      requires Valid()
      modifies this, circuits
      ensures Valid() && View() == Teardown(old(View()))
    {
      hide Counted, Promised, SettleAll;
      StepCounted(View(), Close);
      StepPromised(View(), Close);
      if closed {
        return;
      }
      closed := true;
      var all := circuits.Drain();
      settled := SettleAll(settled, all);
    }

    /** `dispatch`, for the frames that concern the table. */
    method Dispatch(frame: Incoming)
      requires Valid() && !closed
      modifies this, circuits
      ensures Valid()
      ensures View() == Step(old(View()), EventOf(old(View()), frame))
    {
      hide Counted, Promised, SettleAll;
      ghost var e := EventOf(View(), frame);
      StepCounted(View(), e);
      StepPromised(View(), e);
      match frame {
        case PingFrame => Mark1(Pong);
        case AckFrame(proves) =>
          if !verified {
            if proves {
              verified, log := true, log + [Proof];
            } else {
              TeardownAll();
            }
          }
        case DestroyFrame(id) =>
          if !verified {
            TeardownAll();
          } else if id in circuits.circuits && circuits.circuits[id].Creating? {
            CreatingInRange(View(), id);
            ghost var p := circuits.circuits[id].promise;
            ForgetCircuit(id);
            SettlePromise(p);
          }
        case CreatedFrame(id, confirmed) =>
          if !verified {
            TeardownAll();
          } else if id in circuits.circuits && circuits.circuits[id].Creating? {
            CreatingInRange(View(), id);
            Reopen(id, confirmed);
          }
      }
    }

    method Reopen(id: Id, confirmed: bool)
      requires circuits.Valid() && circuits.maxCircuits == MAX_CIRCUITS_PER_CONNECTION && IsCreating(View(), id)
      modifies this, circuits
      ensures circuits.Valid() && View() == OnCreated(old(View()), id, confirmed) && promises == old(promises)
    {
      Promote(circuits.circuits, id);
      SettlePromise(circuits.circuits[id].promise);
      pending := pending - 1;
      var _ := circuits.Delete(id);
      if confirmed {
        var readded := circuits.Add(id, Open);
        assert readded;
      } else {
        Mark1(Destroy(id));
      }
    }
  }

  lemma CreatingInRange(l: Link, id: Id)
    requires LinkPromised(l) && id in l.table && l.table[id].Creating?
    ensures IsCreating(l, id)
  {
  }

  /** What a frame means to the bookkeeping; before the proof every frame but PING must be the proof. */
  function EventOf(l: Link, f: Incoming): Event
  {
    match f
    case PingFrame => Ping
    case AckFrame(proves) => Answer(proves)
    case DestroyFrame(id) => if l.verified then Refused(id) else Answer(false)
    case CreatedFrame(id, confirmed) => if l.verified then Created(id, confirmed) else Answer(false)
  }
}
