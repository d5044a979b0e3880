/** The connection machine of a service node (packages/client/src/service-node.ts). */
module ServiceNode {
  import opened Bytes
  import opened Wrappers

  type Challenge = Bytes

  /** A candidate; `key` is `None` only for an operator's explicit relay. */
  datatype Relay = Relay(endpoint: string, key: Option<Bytes>)

  datatype Phase = Connecting | Authenticating | Serving | Stopped

  datatype Auth = Auth(endpoint: string, challenge: Challenge)

  /**
   What happened on one connection: the candidate dialed and its place in the
   list, the frames the relay delivered and what they established, what was sent,
   and how it ended. `epoch` counts the directory refreshes before it was dialed.
   */
  datatype Conn = Conn(
    relay: Relay, candidates: seq<Relay>, index: nat, epoch: nat, frames: seq<RelayFrame>,
    challenge: Option<Challenge>, proven: bool, auths: seq<Auth>, serving: bool, conflict: bool,
    closed: bool, failed: bool)

  /**
   Dial a relay, make it prove its listed key, answer its challenge with AUTH,
   serve, fail over, and follow the signed directory. Closing a socket runs the
   close handler at once (packages/client/src/overlay/frame-socket.ts), and no
   frame is delivered after a close.
   */
  datatype Node = Node(
    phase: Phase, connected: bool, timer: bool, relays: seq<Relay>, index: nat,
    verified: bool, challenge: Option<Challenge>, authSent: bool, served: bool, conflict: bool,
    paused: bool, stopped: bool, epoch: nat, conns: seq<Conn>)

  function Initial(relays: seq<Relay>): Node
  {
    Node(Connecting, false, true, relays, 0, false, None, false, false, false, false, false, 0, [])
  }

  /** The record of the current connection, changed. */
  function Last(n: Node): Conn
    requires n.conns != []
  {
    n.conns[|n.conns| - 1]
  }

  function Record(n: Node, c: Conn): Node
    requires n.conns != []
  {
    n.(conns := n.conns[..|n.conns| - 1] + [c])
  }

  // ---------------------------------------------------------------------
  // The handlers
  // ---------------------------------------------------------------------

  function Schedule(n: Node): Node
  {
    if n.stopped || n.paused then n else n.(phase := Connecting, timer := true)
  }

  function FreshConn(n: Node): Conn
    requires n.index < |n.relays|
  {
    Conn(n.relays[n.index], n.relays, n.index, n.epoch, [], None, false, [], false, false, false, false)
  }

  /** `connect`; `opens` is false when opening the socket throws. */
  function Connect(n: Node, opens: bool): Node
    requires n.index < |n.relays|
  {
    if n.stopped || n.paused then n.(timer := false)
    else if !opens then Schedule(Reset(n))
    else Reset(n).(phase := Authenticating, connected := true, conns := n.conns + [FreshConn(n)])
  }

  /** A new connection starts from nothing; a relay without a listed key has nothing to prove. */
  function Reset(n: Node): Node
    requires n.index < |n.relays|
  {
    n.(timer := false, phase := Connecting, verified := n.relays[n.index].key.None?, challenge := None,
       authSent := false, served := false, conflict := false)
  }

  function NextIndex(n: Node): nat
  {
    if !n.served && !n.conflict && |n.relays| > 1 then (n.index + 1) % |n.relays| else n.index
  }

  /** `onRelayClosed` for the current socket. */
  function Closed(n: Node): Node
    requires n.conns != []
  {
    var ended := Record(n, Last(n).(closed := true, failed := !n.served && !n.conflict));
    Schedule(ended.(connected := false, phase := if n.stopped then n.phase else Connecting, index := NextIndex(n)))
  }

  function CloseSocket(n: Node): Node { if n.connected && n.conns != [] then Closed(n) else n }

  function MaybeAuthenticate(n: Node): Node
    requires n.conns != [] && n.index < |n.relays|
  {
    if n.challenge.None? || !n.verified || n.authSent then n
    else
      var auth := Auth(n.relays[n.index].endpoint, n.challenge.value);
      Record(n, Last(n).(auths := Last(n).auths + [auth])).(authSent := true)
  }

  function StoreChallenge(n: Node, challenge: Option<Challenge>): Node
    requires n.conns != [] && n.index < |n.relays|
  {
    if n.challenge.Some? then n
    else if challenge.None? then CloseSocket(n)
    else MaybeAuthenticate(Record(n, Last(n).(challenge := challenge)).(challenge := challenge))
  }

  function VerifyRelay(n: Node, valid: bool): Node
    requires n.conns != [] && n.index < |n.relays|
  {
    if !valid then CloseSocket(n)
    else MaybeAuthenticate(Record(n, Last(n).(proven := true)).(verified := true))
  }

  datatype RelayFrame =
    | PingFrame
    | HelloFrame(challenge: Option<Challenge>)  // `None` when malformed
    | AckFrame(valid: bool)                     // a HELLO_ACK, valid for the key dialed
    | ErrorFrame(alreadyRegistered: bool)
    | AuthOkFrame
    | OtherFrame

  function OnUnproven(n: Node, f: RelayFrame): Node
    requires n.conns != [] && n.index < |n.relays|
  {
    match f
    case HelloFrame(challenge) => StoreChallenge(n, challenge)
    case AckFrame(valid) => VerifyRelay(n, valid)
    case _ => CloseSocket(n)
  }

  function OnProven(n: Node, f: RelayFrame): Node
    requires n.conns != [] && n.index < |n.relays|
  {
    match f
    case ErrorFrame(already) =>
      if already && n.authSent && n.phase != Serving then Record(n, Last(n).(conflict := true)).(conflict := true)
      else n
    case HelloFrame(challenge) => if n.phase == Authenticating then StoreChallenge(n, challenge) else n
    case AuthOkFrame =>
      if n.phase == Authenticating && n.authSent then
        Record(n, Last(n).(serving := true)).(phase := Serving, served := true)
      else n
    case _ => n
  }

  /** The frame is delivered on the current connection. */
  function Deliver(n: Node, f: RelayFrame): Node
    requires n.conns != []
  {
    Record(n, Last(n).(frames := Last(n).frames + [f]))
  }

  function OnFrame(n: Node, f: RelayFrame): Node
    requires n.conns != [] && n.index < |n.relays|
  {
    if f.PingFrame? then n
    else if n.phase == Authenticating && !n.verified then OnUnproven(n, f)
    else OnProven(n, f)
  }

  function IndexOf(relays: seq<Relay>, r: Relay): (i: int)
    ensures i < |relays| && (i >= 0 ==> relays[i] == r) && (i < 0 <==> r !in relays)
    ensures forall j | 0 <= j < i :: relays[j] != r
  {
    if relays == [] then -1
    else if relays[0] == r then 0
    else
      var rest := IndexOf(relays[1..], r);
      assert relays == [relays[0]] + relays[1..];
      if rest < 0 then -1 else rest + 1
  }

  /** `refreshRelays` once its lookup is done; no candidate when there is no verified directory. */
  function Refresh(n: Node, next: seq<Relay>, opens: bool): Node
    requires n.index < |n.relays|
  {
    if n.stopped then n
    else if next == [] then CloseSocket(n.(paused := true))
    else
      var still := IndexOf(next, n.relays[n.index]);
      var m := n.(relays := next, paused := false, epoch := n.epoch + 1);
      if still >= 0 then
        var kept := m.(index := still);
        if n.paused && !n.connected && !n.timer then Connect(kept, opens) else kept
      else
        var first := m.(index := 0);
        if n.connected then CloseSocket(first.(served := true))
        else if !n.timer then Connect(first, opens)
        else first
  }

  function StopNode(n: Node): Node
  {
    CloseSocket(n.(stopped := true, phase := Stopped, timer := false))
  }

  datatype Event =
    | Receive(frame: RelayFrame)
    | SocketClosed
    | TimerFires(opens: bool)
    | Refreshed(next: seq<Relay>, opens: bool)
    | HandshakeTimeout
    | Stop

  /** Frames and closes come from the current socket; the timer fires only while it is pending. */
  function Step(n: Node, e: Event): Node
  {
    if n.index >= |n.relays| then n
    else
      match e
      case Receive(f) => if n.connected && n.conns != [] then OnFrame(Deliver(n, f), f) else n
      case SocketClosed => CloseSocket(n)
      case TimerFires(opens) => if n.timer then Connect(n, opens) else n
      case Refreshed(next, opens) => Refresh(n, next, opens)
      case HandshakeTimeout => if n.served then n else CloseSocket(n)
      case Stop => StopNode(n)
  }

  function Run(relays: seq<Relay>, es: seq<Event>): Node
  {
    if es == [] then Initial(relays) else Step(Run(relays, es[..|es| - 1]), es[|es| - 1])
  }

  // ---------------------------------------------------------------------
  // The invariant
  // ---------------------------------------------------------------------

  /** What one connection may ever do. */
  predicate Honest(c: Conn)
  {
    && |c.auths| <= 1
    && (c.auths != [] ==>
          && c.challenge == Some(c.auths[0].challenge) && c.auths[0].endpoint == c.relay.endpoint
          && (c.relay.key.Some? ==> c.proven))
    && (c.serving || c.conflict ==> c.auths != [])
    && c.index < |c.candidates| && c.relay == c.candidates[c.index]
  }

  predicate AllHonest(conns: seq<Conn>) { forall i | 0 <= i < |conns| :: Honest(conns[i]) }

  /** The fields say what the record of the current connection says. */
  predicate Current(n: Node)
  {
    n.connected ==>
      && n.conns != [] && !Last(n).closed && !n.stopped && !n.paused && !n.timer
      && (n.phase == Authenticating || n.phase == Serving)
      && n.index < |n.relays| && n.relays[n.index] == Last(n).relay
      && n.challenge == Last(n).challenge && (n.authSent <==> Last(n).auths != [])
      && (n.verified <==> Last(n).relay.key.None? || Last(n).proven)
      && (n.served <==> Last(n).serving) && (n.conflict <==> Last(n).conflict)
      && (n.phase == Serving <==> n.served)
  }

  /** Exactly one of an open socket and a pending timer, unless stopped or paused. */
  predicate NotWedged(n: Node)
  {
    && !(n.connected && n.timer)
    && (!n.stopped && !n.paused ==> n.connected || n.timer)
    && (n.stopped ==> !n.connected && !n.timer) && (n.stopped <==> n.phase == Stopped)
    && (n.paused ==> !n.connected)
    && (!n.connected && !n.stopped ==> n.phase == Connecting)
  }

  predicate Inv(n: Node)
  {
    n.index < |n.relays| && AllHonest(n.conns) && NotWedged(n) && (n.connected ==> n.conns != []) && Current(n)
  }

  lemma RecordHonest(n: Node, c: Conn)
    requires n.conns != [] && AllHonest(n.conns) && Honest(c)
    ensures AllHonest(Record(n, c).conns) && Record(n, c).conns != [] && Last(Record(n, c)) == c
  {
  }

  lemma LastHonest(n: Node)
    requires n.conns != [] && AllHonest(n.conns)
    ensures Honest(Last(n))
  {
  }

  lemma ConnectInv(n: Node, opens: bool)
    requires n.index < |n.relays| && AllHonest(n.conns) && !n.connected
    requires (n.stopped <==> n.phase == Stopped) && (!n.stopped ==> n.phase == Connecting)
    ensures Inv(Connect(n, opens))
  {
    assert Honest(FreshConn(n));
    var m := Connect(n, opens);
    assert forall i | 0 <= i < |n.conns| :: Honest(n.conns[i]);
  }

  lemma ClosedInv(n: Node)
    requires n.index < |n.relays| && AllHonest(n.conns) && n.conns != [] && !n.timer
    requires n.stopped <==> n.phase == Stopped
    ensures Inv(Closed(n)) && !Closed(n).connected
  {
    LastHonest(n);
    RecordHonest(n, Last(n).(closed := true, failed := !n.served && !n.conflict));
  }

  lemma CloseSocketInv(n: Node)
    requires Inv(n)
    ensures Inv(CloseSocket(n))
  {
    hide Closed, AllHonest, Honest;
    if n.connected {
      ClosedInv(n);
    }
  }

  /** The AUTH goes out with the challenge of this connection, to the candidate this connection dialed. */
  lemma MaybeAuthenticateInv(n: Node)
    requires Inv(n) && n.connected
    ensures Inv(MaybeAuthenticate(n))
  {
    LastHonest(n);
    if n.challenge.Some? && n.verified && !n.authSent {
      var c := Last(n).(auths := [Auth(n.relays[n.index].endpoint, n.challenge.value)]);
      assert Last(n).auths + [Auth(n.relays[n.index].endpoint, n.challenge.value)] == c.auths;
      RecordHonest(n, c);
    }
  }

  lemma StoreChallengeInv(n: Node, challenge: Option<Challenge>)
    requires Inv(n) && n.connected
    ensures Inv(StoreChallenge(n, challenge))
  {
    hide MaybeAuthenticate, CloseSocket, AllHonest;
    CloseSocketInv(n);
    LastHonest(n);
    if n.challenge.None? && challenge.Some? {
      RecordHonest(n, Last(n).(challenge := challenge));
      MaybeAuthenticateInv(Record(n, Last(n).(challenge := challenge)).(challenge := challenge));
    }
  }

  lemma VerifyRelayInv(n: Node, valid: bool)
    requires Inv(n) && n.connected
    ensures Inv(VerifyRelay(n, valid))
  {
    hide MaybeAuthenticate, CloseSocket, AllHonest;
    CloseSocketInv(n);
    LastHonest(n);
    if valid {
      RecordHonest(n, Last(n).(proven := true));
      MaybeAuthenticateInv(Record(n, Last(n).(proven := true)).(verified := true));
    }
  }

  lemma OnProvenInv(n: Node, f: RelayFrame)
    requires Inv(n) && n.connected
    ensures Inv(OnProven(n, f))
  {
    hide StoreChallenge, AllHonest;
    LastHonest(n);
    match f
    case HelloFrame(challenge) => StoreChallengeInv(n, challenge);
    case ErrorFrame(already) =>
      if already && n.authSent && n.phase != Serving { RecordHonest(n, Last(n).(conflict := true)); }
    case AuthOkFrame =>
      if n.phase == Authenticating && n.authSent { RecordHonest(n, Last(n).(serving := true)); }
    case _ =>
  }

  lemma OnFrameInv(n: Node, f: RelayFrame)
    requires Inv(n) && n.connected
    ensures Inv(OnFrame(n, f))
  {
    hide StoreChallenge, VerifyRelay, OnProven, CloseSocket, Inv;
    assert Inv(n) && n.conns != [] && n.index < |n.relays| by { InvBasics(n); }
    OnProvenInv(n, f);
    CloseSocketInv(n);
    match f
    case HelloFrame(challenge) => StoreChallengeInv(n, challenge);
    case AckFrame(valid) => VerifyRelayInv(n, valid);
    case _ =>
  }

  lemma DeliverInv(n: Node, f: RelayFrame)
    requires Inv(n) && n.connected
    ensures Inv(Deliver(n, f)) && Deliver(n, f).connected
  {
    LastHonest(n);
    RecordHonest(n, Last(n).(frames := Last(n).frames + [f]));
    hide AllHonest;
  }

  lemma InvBasics(n: Node)
    requires Inv(n)
    ensures n.index < |n.relays| && (n.connected ==> n.conns != [])
  {
  }

  /**
   A refresh that still lists the current candidate keeps pointing at that endpoint
   and key, and keeps the connection.
   */
  lemma RefreshKeepsCandidate(n: Node, next: seq<Relay>, opens: bool)
    requires n.index < |n.relays| && !n.stopped && n.relays[n.index] in next
    ensures var m := Refresh(n, next, opens);
            && m.relays == next && m.index < |next| && next[m.index] == n.relays[n.index] && !m.paused
            && (n.connected && !n.paused ==> m == n.(relays := next, index := m.index, epoch := n.epoch + 1))
  {
  }

  /** One that no longer lists it leaves it at once, for the first new candidate; none at all detaches the node. */
  lemma RefreshLeavesDelisted(n: Node, next: seq<Relay>, opens: bool)
    requires Inv(n) && !n.stopped && n.relays[n.index] !in next
    ensures var m := Refresh(n, next, opens);
            && (n.connected ==> !m.connected)
            && (next == [] ==> m.paused && !m.connected)
            && (next != [] ==> m.relays == next && m.index == 0 && !m.paused)
  {
    hide AllHonest;
  }

  lemma AdoptInv(n: Node, m: Node, opens: bool)
    requires Inv(n) && !n.stopped && m.index < |m.relays|
    requires m == n.(relays := m.relays, index := m.index, paused := false, epoch := m.epoch)
    ensures !n.connected ==> Inv(Connect(m, opens)) && (n.timer ==> Inv(m))
    ensures n.connected ==> Inv(Closed(m.(served := true)))
    ensures n.connected && m.relays[m.index] == n.relays[n.index] ==> Inv(m)
  {
    hide Connect, Closed, AllHonest;
    if n.connected {
      ClosedInv(m.(served := true));
    } else {
      ConnectInv(m, opens);
    }
  }

  lemma RefreshInv(n: Node, next: seq<Relay>, opens: bool)
    requires Inv(n)
    ensures Inv(Refresh(n, next, opens))
  {
    hide Connect, Closed, AllHonest, Honest;
    if !n.stopped && next != [] {
      var still := IndexOf(next, n.relays[n.index]);
      AdoptInv(n, n.(relays := next, paused := false, epoch := n.epoch + 1, index := if still >= 0 then still else 0),
               opens);
    } else if !n.stopped && n.connected {
      ClosedInv(n.(paused := true)) by { StillCurrent(n); }
    }
  }

  lemma StillCurrent(n: Node)
    requires Inv(n) && n.connected
    ensures n.conns != [] && !n.timer
  {
  }

  lemma StopInv(n: Node)
    requires Inv(n)
    ensures Inv(StopNode(n))
  {
    hide Closed, AllHonest;
    if n.connected {
      ClosedInv(n.(stopped := true, phase := Stopped, timer := false));
    }
  }

  lemma StepInv(n: Node, e: Event)
    requires Inv(n)
    ensures Inv(Step(n, e))
  {
    hide OnFrame, CloseSocket, Connect, Refresh, StopNode, AllHonest;
    match e
    case Receive(f) => if n.connected { DeliverInv(n, f); OnFrameInv(Deliver(n, f), f); }
    case SocketClosed => CloseSocketInv(n);
    case HandshakeTimeout => CloseSocketInv(n);
    case TimerFires(opens) => if n.timer { ConnectInv(n, opens); }
    case Refreshed(next, opens) => RefreshInv(n, next, opens);
    case Stop => StopInv(n);
  }

  /**
   In every run of a service node: AUTH is sent at most once per connection,
   only after that connection delivered a challenge and, for a relay with a
   listed key, a valid proof of that key, and it names the endpoint dialed;
   serving and conflict come only after AUTH; the candidate index is in range;
   and the node is never wedged.
   */
  lemma {:induction false} RunInv(relays: seq<Relay>, es: seq<Event>)
    requires relays != []
    ensures Inv(Run(relays, es))
  {
    hide Step;
    if es != [] {
      RunInv(relays, es[..|es| - 1]);
      StepInv(Run(relays, es[..|es| - 1]), es[|es| - 1]);
    }
  }

  /** An unproven relay never suppresses fail-over: whatever it sent, its connection ends as a failure. */
  lemma UnprovenFailsOver(relays: seq<Relay>, es: seq<Event>)
    requires relays != [] && Run(relays, es).connected && Run(relays, es).conns != []
    requires Last(Run(relays, es)).relay.key.Some? && !Last(Run(relays, es)).proven
    ensures var n := Run(relays, es);
            var m := CloseSocket(n);
            m.conns != [] && Last(m).failed && m.index == if |n.relays| > 1 then (n.index + 1) % |n.relays| else n.index
  {
    hide Run, CloseSocket, Inv;
    RunInv(relays, es);
    UnprovenClose(Run(relays, es));
  }

  lemma UnprovenClose(n: Node)
    requires Inv(n) && n.connected && Last(n).relay.key.Some? && !Last(n).proven
    ensures var m := CloseSocket(n);
            m.conns != [] && Last(m).failed && m.index == if |n.relays| > 1 then (n.index + 1) % |n.relays| else n.index
  {
    LastHonest(n);
    hide AllHonest;
  }

  // ---------------------------------------------------------------------
  // What the frames of a connection decide
  // ---------------------------------------------------------------------

  predicate NoHello(fs: seq<RelayFrame>) { forall i | 0 <= i < |fs| :: !fs[i].HelloFrame? }

  /** The first HELLO is well-formed and carries the challenge `x`. */
  predicate Challenges(fs: seq<RelayFrame>, x: Challenge)
  {
    exists i | 0 <= i < |fs| :: fs[i] == HelloFrame(Some(x)) && NoHello(fs[..i])
  }

  /** The relay has no key to prove, or proved it. */
  predicate Proves(r: Relay, fs: seq<RelayFrame>) { r.key.None? || AckFrame(true) in fs }

  /** AUTH is due: a challenge and a proof, in either order. */
  ghost predicate AuthDue(r: Relay, fs: seq<RelayFrame>) { Proves(r, fs) && exists x :: Challenges(fs, x) }

  /** AUTH_OK came when AUTH had been due. */
  ghost predicate Serves(r: Relay, fs: seq<RelayFrame>)
  {
    exists i | 0 <= i < |fs| :: fs[i] == AuthOkFrame && AuthDue(r, fs[..i])
  }

  /** ALREADY_REGISTERED came when AUTH had been due and was not accepted yet. */
  ghost predicate Conflicts(r: Relay, fs: seq<RelayFrame>)
  {
    exists i | 0 <= i < |fs| :: fs[i] == ErrorFrame(true) && AuthDue(r, fs[..i]) && !Serves(r, fs[..i])
  }

  /** A malformed first challenge, or anything but a HELLO and the proof from a relay that has one to give. */
  predicate Refused(r: Relay, fs: seq<RelayFrame>, f: RelayFrame)
  {
    || (f == HelloFrame(None) && NoHello(fs))
    || (!Proves(r, fs) && !f.PingFrame? && !f.HelloFrame? && f != AckFrame(true))
  }

  /** A connection did exactly what its frames ask for. */
  ghost predicate Explained(c: Conn)
  {
    && (forall x :: c.challenge == Some(x) <==> Challenges(c.frames, x))
    && (c.proven <==> c.relay.key.Some? && AckFrame(true) in c.frames)
    && (AuthDue(c.relay, c.frames) <==> |c.auths| == 1)
    && (c.serving <==> Serves(c.relay, c.frames)) && (c.conflict <==> Conflicts(c.relay, c.frames))
    && (forall i | 0 <= i < |c.frames| && Refused(c.relay, c.frames[..i], c.frames[i]) ::
          c.closed && i == |c.frames| - 1)
  }

  ghost predicate AllExplained(conns: seq<Conn>) { forall i | 0 <= i < |conns| :: Explained(conns[i]) }

  lemma HelloSnoc(fs: seq<RelayFrame>, f: RelayFrame, x: Challenge)
    ensures Challenges(fs + [f], x) <==> Challenges(fs, x) || (f == HelloFrame(Some(x)) && NoHello(fs))
  {
    var all := fs + [f];
    assert forall i | 0 <= i <= |fs| :: all[..i] == fs[..i];
    if i :| 0 <= i < |fs| && fs[i] == HelloFrame(Some(x)) && NoHello(fs[..i]) {
      assert all[i] == HelloFrame(Some(x)) && NoHello(all[..i]);
    }
    if f == HelloFrame(Some(x)) && NoHello(fs) {
      assert fs[..|fs|] == fs && all[|fs|] == f && NoHello(all[..|fs|]);
    }
  }

  /** What one more frame adds. */
  lemma FramesSnoc(r: Relay, fs: seq<RelayFrame>, f: RelayFrame)
    ensures NoHello(fs + [f]) <==> NoHello(fs) && !f.HelloFrame?
    ensures AckFrame(true) in fs + [f] <==> AckFrame(true) in fs || f == AckFrame(true)
    ensures Serves(r, fs + [f]) <==> Serves(r, fs) || (f == AuthOkFrame && AuthDue(r, fs))
    ensures Conflicts(r, fs + [f]) <==> Conflicts(r, fs) || (f == ErrorFrame(true) && AuthDue(r, fs) && !Serves(r, fs))
  {
    hide AuthDue;
    var all := fs + [f];
    assert forall i | 0 <= i <= |fs| :: all[..i] == fs[..i];
    assert fs[..|fs|] == fs && all[|fs|] == f;
    assert forall i | 0 <= i < |fs| :: all[i] == fs[i];
    assert NoHello(all) ==> !all[|fs|].HelloFrame?;
    assert f == AuthOkFrame && AuthDue(r, fs) ==> AuthDue(r, all[..|fs|]);
    assert f == ErrorFrame(true) && AuthDue(r, fs) && !Serves(r, fs) ==> !Serves(r, all[..|fs|]);
  }

  /** While a connection is open it has a challenge as soon as any HELLO came. */
  lemma {:induction false} NoChallengeNoHello(c: Conn, k: nat)
    requires Explained(c) && !c.closed && c.challenge.None? && k <= |c.frames|
    ensures NoHello(c.frames[..k])
  {
    if k > 0 {
      NoChallengeNoHello(c, k - 1);
      var f := c.frames[k - 1];
      assert c.frames[..k] == c.frames[..k - 1] + [f];
      if f.HelloFrame? {
        assert !Refused(c.relay, c.frames[..k - 1], f);
        assert Challenges(c.frames, f.challenge.value);
      }
      FramesSnoc(c.relay, c.frames[..k - 1], f);
    }
  }

  lemma DueIff(c: Conn)
    requires forall x :: c.challenge == Some(x) <==> Challenges(c.frames, x)
    requires c.proven <==> c.relay.key.Some? && AckFrame(true) in c.frames
    ensures AuthDue(c.relay, c.frames) <==> c.challenge.Some? && (c.relay.key.None? || c.proven)
  {
    if c.challenge.Some? {
      assert Challenges(c.frames, c.challenge.value);
    }
  }

  /** One more frame, and the record that goes with it. */
  lemma ExplainedNext(c: Conn, c': Conn, f: RelayFrame)
    requires Explained(c) && !c.closed && c'.relay == c.relay && c'.frames == c.frames + [f]
    requires c'.challenge == if c.challenge.None? && f.HelloFrame? then f.challenge else c.challenge
    requires c'.proven <==> c.proven || (c.relay.key.Some? && f == AckFrame(true))
    requires |c'.auths| == 1 <==> c'.challenge.Some? && (c.relay.key.None? || c'.proven)
    requires c'.serving <==> c.serving || (f == AuthOkFrame && |c.auths| == 1)
    requires c'.conflict <==> c.conflict || (f == ErrorFrame(true) && |c.auths| == 1 && !c.serving)
    requires Refused(c.relay, c.frames, f) ==> c'.closed
    ensures Explained(c')
  {
    hide Refused;
    FramesSnoc(c.relay, c.frames, f);
    if c.challenge.None? {
      NoChallengeNoHello(c, |c.frames|);
      assert c.frames[..|c.frames|] == c.frames;
    }
    forall x ensures c'.challenge == Some(x) <==> Challenges(c'.frames, x) {
      HelloSnoc(c.frames, f, x);
      if c.challenge.Some? && f == HelloFrame(Some(x)) && NoHello(c.frames) {
        assert Challenges(c.frames, c.challenge.value);
      }
    }
    DueIff(c');
    assert forall i | 0 <= i <= |c.frames| :: c'.frames[..i] == c.frames[..i];
    assert forall i | 0 <= i < |c.frames| :: !Refused(c.relay, c.frames[..i], c.frames[i]);
    forall i | 0 <= i < |c'.frames| && Refused(c'.relay, c'.frames[..i], c'.frames[i])
      ensures c'.closed && i == |c'.frames| - 1
    {
      if i == |c.frames| {
        assert c.frames[..i] == c.frames;
      }
    }
  }

  lemma RefusedIff(c: Conn, f: RelayFrame)
    requires Explained(c) && !c.closed
    ensures Refused(c.relay, c.frames, f)
       <==> || (f == HelloFrame(None) && c.challenge.None?)
            || (c.relay.key.Some? && !c.proven && !f.PingFrame? && !f.HelloFrame? && f != AckFrame(true))
  {
    if c.challenge.None? {
      NoChallengeNoHello(c, |c.frames|);
      assert c.frames[..|c.frames|] == c.frames;
    } else {
      assert Challenges(c.frames, c.challenge.value);
    }
  }

  /** The handlers give the connection that record; a refused frame closes it. */
  lemma FrameExplained(n: Node, f: RelayFrame)
    requires Inv(n) && n.connected && Explained(Last(n))
    ensures var m := OnFrame(Deliver(n, f), f);
            && m.conns != [] && m.conns[..|m.conns| - 1] == n.conns[..|n.conns| - 1] && Explained(Last(m))
            && (m.connected <==> !Refused(Last(n).relay, Last(n).frames, f))
  {
    hide AllHonest, Explained, Refused;
    LastHonest(n);
    var c, m := Last(n), OnFrame(Deliver(n, f), f);
    RefusedIff(c, f);
    DueWhenSent(n);
    assert |m.conns| == |n.conns|;
    ExplainedNext(c, Last(m), f);
  }

  lemma DueWhenSent(n: Node)
    requires Inv(n) && n.connected && Explained(Last(n))
    ensures n.authSent <==> n.challenge.Some? && n.verified
    ensures |Last(n).auths| == 1 <==> n.authSent
  {
    LastHonest(n);
    DueIff(Last(n));
  }

  /** Ending a connection, or a new one, changes nothing of this. */
  lemma ClosedExplained(n: Node)
    requires AllExplained(n.conns) && n.conns != []
    ensures AllExplained(Closed(n).conns)
  {
    hide Explained;
    var c := Last(n).(closed := true, failed := !n.served && !n.conflict);
    assert Explained(Last(n)) && n.conns[|n.conns| - 1] == Last(n);
    assert Explained(c) by { EndExplained(Last(n), c); }
    assert Closed(n).conns == n.conns[..|n.conns| - 1] + [c];
  }

  lemma EndExplained(c: Conn, c': Conn)
    requires Explained(c) && c' == c.(closed := true, failed := c'.failed)
    ensures Explained(c')
  {
  }

  lemma ConnectExplained(n: Node, opens: bool)
    requires AllExplained(n.conns) && n.index < |n.relays|
    ensures AllExplained(Connect(n, opens).conns)
  {
    hide Explained;
    assert Explained(FreshConn(n)) by { FreshExplained(n); }
  }

  lemma FreshExplained(n: Node)
    requires n.index < |n.relays|
    ensures Explained(FreshConn(n))
  {
  }

  lemma CloseSocketExplained(n: Node)
    requires AllExplained(n.conns)
    ensures AllExplained(CloseSocket(n).conns)
  {
    hide Closed, AllExplained;
    if n.conns != [] {
      ClosedExplained(n);
    }
  }

  lemma ReceiveExplained(n: Node, f: RelayFrame)
    requires Inv(n) && n.connected && AllExplained(n.conns)
    ensures AllExplained(OnFrame(Deliver(n, f), f).conns)
  {
    hide OnFrame, Explained, AllHonest, Current, NotWedged, Refused;
    assert n.conns[|n.conns| - 1] == Last(n);
    FrameExplained(n, f);
    var m := OnFrame(Deliver(n, f), f);
    assert m.conns == m.conns[..|m.conns| - 1] + [Last(m)];
    forall i | 0 <= i < |m.conns| ensures Explained(m.conns[i]) {
      if i < |m.conns| - 1 {
        assert m.conns[i] == m.conns[..|m.conns| - 1][i] == n.conns[i];
      }
    }
  }

  lemma RefreshExplained(n: Node, next: seq<Relay>, opens: bool)
    requires n.index < |n.relays| && AllExplained(n.conns)
    ensures AllExplained(Refresh(n, next, opens).conns)
  {
    hide Connect, CloseSocket, AllExplained;
    CloseSocketExplained(n.(paused := true));
    if next != [] {
      var still := IndexOf(next, n.relays[n.index]);
      var m := n.(relays := next, paused := false, epoch := n.epoch + 1, index := if still >= 0 then still else 0);
      ConnectExplained(m, opens);
      CloseSocketExplained(m.(served := true));
    }
  }

  lemma StepExplained(n: Node, e: Event)
    requires Inv(n) && AllExplained(n.conns)
    ensures AllExplained(Step(n, e).conns)
  {
    hide OnFrame, Connect, CloseSocket, Refresh, AllExplained, AllHonest, Current, NotWedged;
    match e
    case Receive(f) => if n.connected { ReceiveExplained(n, f); }
    case TimerFires(opens) => ConnectExplained(n, opens);
    case Refreshed(next, opens) => RefreshExplained(n, next, opens);
    case Stop => CloseSocketExplained(n.(stopped := true, phase := Stopped, timer := false));
    case _ => CloseSocketExplained(n);
  }

  /**
   In every run, every connection did exactly what its frames ask for: the
   challenge of its first HELLO is recorded; AUTH went out if and only if a
   challenge and, for a relay with a listed key, a valid proof came, in either
   order; it served if and only if AUTH_OK came after that; it met a conflict if
   and only if ALREADY_REGISTERED came between; and a refused frame closed it.
   */
  lemma {:induction false} RunExplained(relays: seq<Relay>, es: seq<Event>)
    requires relays != []
    ensures AllExplained(Run(relays, es).conns)
    ensures var n := Run(relays, es);
            n.connected ==>
              && n.conns != []
              && (AuthDue(Last(n).relay, Last(n).frames) <==> Last(n).auths != [])
              && (n.phase == Serving <==> Serves(Last(n).relay, Last(n).frames))
  {
    hide Step, Explained, AllHonest, AuthDue, Serves;
    if es != [] {
      RunExplained(relays, es[..|es| - 1]);
      RunInv(relays, es[..|es| - 1]);
      StepExplained(Run(relays, es[..|es| - 1]), es[|es| - 1]);
    }
    RunInv(relays, es);
    CurrentExplained(Run(relays, es));
  }

  lemma CurrentExplained(n: Node)
    requires Inv(n) && AllExplained(n.conns)
    ensures n.connected ==>
              && n.conns != []
              && (AuthDue(Last(n).relay, Last(n).frames) <==> Last(n).auths != [])
              && (n.phase == Serving <==> Serves(Last(n).relay, Last(n).frames))
  {
    hide AuthDue, Serves, Conflicts, Refused, Challenges;
    if n.connected {
      LastHonest(n);
      assert Explained(Last(n));
    }
  }

  /**
   How a connection ends: when the socket does, when the handshake timer finds it
   unserved, when the node is stopped. Ended, stopped and timed out, it waits for
   its timer, unless stopped for good.
   */
  lemma EndsAndWaits(n: Node)
    requires Inv(n) && n.connected
    ensures var m := Step(n, SocketClosed); !m.connected && m.timer && Last(m).closed
    ensures Step(n, HandshakeTimeout) == if n.served then n else Step(n, SocketClosed)
    ensures var m := Step(n, Stop); !m.connected && !m.timer && m.stopped && Last(m).closed
  {
    hide AllHonest;
  }

  /** A stopped node never acts again. */
  lemma StoppedForGood(n: Node, e: Event)
    requires Inv(n) && n.stopped
    ensures Step(n, e) == n
  {
    hide AllHonest;
  }

  // ---------------------------------------------------------------------
  // Fail-over visits every candidate
  // ---------------------------------------------------------------------

  /**
   After a connection that ended, the next dial of the same list: the next
   candidate if it neither served nor met a conflict, the same one otherwise.
   */
  predicate Follows(c: Conn, index: nat, candidates: seq<Relay>)
  {
    && candidates == c.candidates && c.closed && (c.failed <==> !c.serving && !c.conflict)
    && (c.candidates != [] ==> index == if c.failed then (c.index + 1) % |c.candidates| else c.index)
  }

  predicate Rotates(conns: seq<Conn>)
  {
    forall i | 0 <= i && i + 1 < |conns| && conns[i].epoch == conns[i + 1].epoch ::
      Follows(conns[i], conns[i + 1].index, conns[i + 1].candidates)
  }

  /** Where the node will dial next follows from the last connection, unless a refresh came between. */
  predicate Poised(n: Node)
  {
    && Rotates(n.conns)
    && (n.conns != [] ==>
          && Last(n).epoch <= n.epoch
          && (Last(n).epoch == n.epoch ==>
                && n.relays == Last(n).candidates
                && if n.connected then n.index == Last(n).index && !Last(n).failed
                   else Follows(Last(n), n.index, n.relays)))
  }

  /** Handlers that only fill in the record of the current connection. */
  lemma RecordPoised(n: Node, c: Conn)
    requires Poised(n) && n.conns != [] && n.connected
    requires Last(n).(frames := c.frames, challenge := c.challenge, proven := c.proven, auths := c.auths,
                      serving := c.serving, conflict := c.conflict) == c
    ensures Poised(Record(n, c))
  {
    var conns := Record(n, c).conns;
    forall i | 0 <= i && i + 1 < |conns| && conns[i].epoch == conns[i + 1].epoch
      ensures Follows(conns[i], conns[i + 1].index, conns[i + 1].candidates)
    {
      assert conns[i] == n.conns[i];
    }
  }

  lemma ClosedPoised(n: Node)
    requires Poised(n) && n.conns != [] && n.connected && n.index < |n.relays|
    requires Last(n).epoch == n.epoch ==> n.served == Last(n).serving && n.conflict == Last(n).conflict
    ensures Poised(Closed(n))
  {
    var c := Last(n).(closed := true, failed := !n.served && !n.conflict);
    var m := Closed(n);
    assert m.conns == n.conns[..|n.conns| - 1] + [c];
    forall i | 0 <= i && i + 1 < |m.conns| && m.conns[i].epoch == m.conns[i + 1].epoch
      ensures Follows(m.conns[i], m.conns[i + 1].index, m.conns[i + 1].candidates)
    {
      assert m.conns[i] == n.conns[i];
    }
    if c.epoch == n.epoch && |n.relays| == 1 {
      assert (n.index + 1) % 1 == 0;
    }
  }

  lemma ConnectPoised(n: Node, opens: bool)
    requires Poised(n) && n.index < |n.relays| && !n.connected
    ensures Poised(Connect(n, opens))
  {
    var m := Connect(n, opens);
    if m.connected {
      assert m.conns == n.conns + [FreshConn(n)];
      forall i | 0 <= i && i + 1 < |m.conns| && m.conns[i].epoch == m.conns[i + 1].epoch
        ensures Follows(m.conns[i], m.conns[i + 1].index, m.conns[i + 1].candidates)
      {
        if i + 1 < |n.conns| {
          assert m.conns[i] == n.conns[i] && m.conns[i + 1] == n.conns[i + 1];
        }
      }
    }
  }

  lemma CloseSocketPoised(n: Node)
    requires Poised(n) && Inv(n)
    ensures Poised(CloseSocket(n))
  {
    hide Closed, Poised, AllHonest;
    if n.connected && n.conns != [] { ClosedPoised(n); }
  }

  lemma MaybeAuthenticatePoised(n: Node)
    requires Poised(n) && n.conns != [] && n.index < |n.relays| && n.connected
    ensures Poised(MaybeAuthenticate(n))
  {
    hide Rotates;
    if n.challenge.Some? && n.verified && !n.authSent {
      RecordPoised(n, Last(n).(auths := Last(n).auths + [Auth(n.relays[n.index].endpoint, n.challenge.value)]));
    }
  }

  lemma StoreChallengePoised(n: Node, challenge: Option<Challenge>)
    requires Poised(n) && Inv(n) && n.connected
    ensures Poised(StoreChallenge(n, challenge))
  {
    hide MaybeAuthenticate, CloseSocket, AllHonest, Rotates;
    CloseSocketPoised(n);
    if n.challenge.None? && challenge.Some? {
      RecordPoised(n, Last(n).(challenge := challenge));
      MaybeAuthenticatePoised(Record(n, Last(n).(challenge := challenge)).(challenge := challenge));
    }
  }

  lemma VerifyRelayPoised(n: Node, valid: bool)
    requires Poised(n) && Inv(n) && n.connected
    ensures Poised(VerifyRelay(n, valid))
  {
    hide MaybeAuthenticate, CloseSocket, AllHonest, Rotates;
    CloseSocketPoised(n);
    if valid {
      RecordPoised(n, Last(n).(proven := true));
      MaybeAuthenticatePoised(Record(n, Last(n).(proven := true)).(verified := true));
    }
  }

  lemma OnFramePoised(n: Node, f: RelayFrame)
    requires Poised(n) && Inv(n) && n.connected
    ensures Poised(OnFrame(n, f))
  {
    hide StoreChallenge, VerifyRelay, CloseSocket, AllHonest, Rotates;
    CloseSocketPoised(n);
    match f
    case HelloFrame(challenge) => StoreChallengePoised(n, challenge);
    case AckFrame(valid) => VerifyRelayPoised(n, valid);
    case ErrorFrame(_) => RecordPoised(n, Last(n).(conflict := true));
    case AuthOkFrame => RecordPoised(n, Last(n).(serving := true));
    case _ =>
  }

  lemma RefreshPoised(n: Node, next: seq<Relay>, opens: bool)
    requires Poised(n) && Inv(n)
    ensures Poised(Refresh(n, next, opens))
  {
    hide Connect, Closed, Rotates, NotWedged, AllHonest, Follows;
    if !n.stopped && next != [] {
      var still := IndexOf(next, n.relays[n.index]);
      var m := n.(relays := next, paused := false, epoch := n.epoch + 1);
      if still >= 0 {
        if !n.connected { ConnectPoised(m.(index := still), opens); }
      } else if n.connected {
        ClosedPoised(m.(index := 0, served := true));
      } else {
        ConnectPoised(m.(index := 0), opens);
      }
    } else if !n.stopped && n.connected {
      ClosedPoised(n.(paused := true));
    }
  }

  lemma StepPoised(n: Node, e: Event)
    requires Poised(n) && Inv(n)
    ensures Poised(Step(n, e))
  {
    hide OnFrame, Connect, Refresh, Closed, AllHonest, Rotates;
    match e
    case Receive(f) =>
      if n.connected {
        DeliverInv(n, f);
        RecordPoised(n, Last(n).(frames := Last(n).frames + [f]));
        OnFramePoised(Deliver(n, f), f);
      }
    case SocketClosed => CloseSocketPoised(n);
    case HandshakeTimeout => CloseSocketPoised(n);
    case TimerFires(opens) => if n.timer { ConnectPoised(n, opens); }
    case Refreshed(next, opens) => RefreshPoised(n, next, opens);
    case Stop => if n.connected { ClosedPoised(n.(stopped := true, phase := Stopped, timer := false)); }
  }

  lemma {:induction false} RunPoised(relays: seq<Relay>, es: seq<Event>)
    requires relays != []
    ensures Poised(Run(relays, es))
  {
    hide Step, Inv;
    if es != [] {
      RunPoised(relays, es[..|es| - 1]);
      RunInv(relays, es[..|es| - 1]);
      StepPoised(Run(relays, es[..|es| - 1]), es[|es| - 1]);
    }
  }

  /** Connections `a` to `a + k` all failed and no refresh came between their dials. */
  predicate FailedStreak(conns: seq<Conn>, a: nat, k: nat)
  {
    a + k < |conns| && forall i | a <= i <= a + k :: conns[i].epoch == conns[a].epoch && (i < a + k ==> conns[i].failed)
  }

  /** The index `k` places further on in a list of `n`, for `k` below `n`. */
  function Along(i: nat, k: nat, n: nat): int { if i + k < n then i + k else i + k - n }

  lemma NextIsAlong(i: nat, n: nat)
    requires i < n
    ensures (i + 1) % n == Along(i, 1, n)
  {
    if i + 1 == n {
      assert n % n == 0;
    }
  }

  lemma {:induction false} StreakIndex(conns: seq<Conn>, a: nat, k: nat)
    requires Rotates(conns) && AllHonest(conns) && FailedStreak(conns, a, k) && k < |conns[a].candidates|
    ensures conns[a + k].candidates == conns[a].candidates
    ensures conns[a + k].index == Along(conns[a].index, k, |conns[a].candidates|)
  {
    assert Honest(conns[a]);
    if k > 0 {
      StreakIndex(conns, a, k - 1);
      var i := a + k - 1;
      assert Honest(conns[i]) && Follows(conns[i], conns[i + 1].index, conns[i + 1].candidates);
      NextIsAlong(conns[i].index, |conns[a].candidates|);
    }
  }

  /**
   `n` consecutive unserved, conflict-free connections without a refresh visit
   all `n` candidates: each one is dialed within the streak.
   */
  lemma FailOverVisitsAll(relays: seq<Relay>, es: seq<Event>, a: nat, target: nat)
    requires relays != []
    requires var conns := Run(relays, es).conns;
             && a < |conns| && target < |conns[a].candidates| && FailedStreak(conns, a, |conns[a].candidates| - 1)
    ensures var conns := Run(relays, es).conns;
            exists i | a <= i < a + |conns[a].candidates| && i < |conns|
              :: conns[i].relay == conns[a].candidates[target]
  {
    RunPoised(relays, es);
    RunInv(relays, es);
    StreakVisits(Run(relays, es).conns, a, target);
  }

  lemma StreakVisits(conns: seq<Conn>, a: nat, target: nat)
    requires Rotates(conns) && AllHonest(conns)
    requires a < |conns| && target < |conns[a].candidates| && FailedStreak(conns, a, |conns[a].candidates| - 1)
    ensures exists i | a <= i < a + |conns[a].candidates| && i < |conns|
            :: conns[i].relay == conns[a].candidates[target]
  {
    var n, i := |conns[a].candidates|, conns[a].index;
    assert Honest(conns[a]);
    var k := if target >= i then target - i else target - i + n;
    assert FailedStreak(conns, a, k);
    StreakIndex(conns, a, k);
    assert Honest(conns[a + k]);
  }

  // ---------------------------------------------------------------------
  // A socket that cannot even be opened
  // ---------------------------------------------------------------------

  function OpenFailures(k: nat): seq<Event> { seq(k, _ => TimerFires(false)) }

  /**
   When opening the socket throws, nothing fails over: however often it
   happens, the node keeps the candidate it had, and never dials another.
   */
  lemma {:induction false} OpenFailureKeepsCandidate(relays: seq<Relay>, k: nat)
    requires relays != []
    ensures var n := Run(relays, OpenFailures(k)); n.index == 0 && n.conns == [] && n.timer && !n.paused && !n.stopped
    ensures Run(relays, OpenFailures(k)).relays == relays
  {
    if k > 0 {
      OpenFailureKeepsCandidate(relays, k - 1);
      assert OpenFailures(k)[..k - 1] == OpenFailures(k - 1);
    }
  }

  /**
   From any state waiting to connect, an attempt that ends without an answer
   moves on to the next candidate if and only if its socket could be opened.
   */
  lemma AttemptMovesOnIff(n: Node, opens: bool)
    requires Inv(n) && n.timer && !n.paused && !n.stopped && |n.relays| > 1
    ensures var m := Step(Step(n, TimerFires(opens)), SocketClosed);
            && Inv(m) && m.timer && m.relays == n.relays
            && m.index == (if opens then (n.index + 1) % |n.relays| else n.index)
            && (m.index == (n.index + 1) % |n.relays| <==> opens)
  {
    hide Inv;
    assert n.index < |n.relays| && !n.connected by { TimerMeansIdle(n); }
    NextIsAlong(n.index, |n.relays|);
    StepInv(n, TimerFires(opens));
    StepInv(Step(n, TimerFires(opens)), SocketClosed);
  }

  lemma TimerMeansIdle(n: Node)
    requires Inv(n) && n.timer
    ensures n.index < |n.relays| && !n.connected
  {
  }

  // ---------------------------------------------------------------------
  // The class
  // ---------------------------------------------------------------------

  /** What the current connection has established; reset as a whole by `connect`. */
  datatype Attempt = Attempt(verified: bool, challenge: Option<Challenge>, authSent: bool, served: bool, conflict: bool)

  class ServiceNodeMachine {
    var phase: Phase
    var connected: bool
    var timer: bool
    var relays: seq<Relay>
    var index: nat
    var attempt: Attempt
    var paused: bool
    var stopped: bool
    ghost var epoch: nat
    ghost var conns: seq<Conn>

    ghost function View(): Node
      reads this
    {
      Node(phase, connected, timer, relays, index, attempt.verified, attempt.challenge, attempt.authSent,
           attempt.served, attempt.conflict, paused, stopped, epoch, conns)
    }

    /** Until the first connection the machine is as if its reconnect timer were pending. */
    constructor (relays: seq<Relay>)
      requires relays != []
      ensures View() == Initial(relays) && Inv(View())
    {
      phase, connected, timer, this.relays, index := Connecting, false, true, relays, 0;
      attempt := Attempt(false, None, false, false, false);
      paused, stopped, epoch, conns := false, false, 0, [];
    }

    method ScheduleReconnect()
      modifies this
      ensures View() == Schedule(old(View()))
    {
      if stopped || paused {
        return;
      }
      phase, timer := Connecting, true;
    }

    method ConnectNow(opens: bool)
      requires index < |relays|
      modifies this
      ensures View() == Connect(old(View()), opens)
    {
      if stopped || paused {
        timer := false;
        return;
      }
      ghost var dialed := FreshConn(View());
      timer, phase := false, if opens then Authenticating else Connecting;
      attempt := Attempt(relays[index].key.None?, None, false, false, false);
      if opens {
        connected, conns := true, conns + [dialed];
      } else {
        timer := true;
      }
    }

    method OnRelayClosed()
      requires connected && conns != []
      modifies this
      ensures View() == Closed(old(View()))
    {
      hide Schedule;
      conns := conns[..|conns| - 1]
        + [conns[|conns| - 1].(closed := true, failed := !attempt.served && !attempt.conflict)];
      connected, phase := false, if stopped then phase else Connecting;
      if !attempt.served && !attempt.conflict && |relays| > 1 {
        index := (index + 1) % |relays|;
      }
      ScheduleReconnect();
    }

    method CloseTheSocket()
      requires connected ==> conns != []
      modifies this
      ensures View() == CloseSocket(old(View()))
    {
      if connected {
        OnRelayClosed();
      }
    }

    method MaybeSendAuth() returns (sent: Option<Auth>)
      requires connected && conns != [] && index < |relays|
      modifies this
      ensures View() == MaybeAuthenticate(old(View()))
      ensures sent.Some? <==> !old(attempt).authSent && old(attempt).verified && old(attempt).challenge.Some?
      ensures sent.Some? ==> sent.value == Auth(relays[index].endpoint, old(attempt).challenge.value)
    {
      if attempt.challenge.None? || !attempt.verified || attempt.authSent {
        return None;
      }
      attempt := attempt.(authSent := true);
      sent := Some(Auth(relays[index].endpoint, attempt.challenge.value));
      conns := conns[..|conns| - 1] + [conns[|conns| - 1].(auths := conns[|conns| - 1].auths + [sent.value])];
    }

    method StoreTheChallenge(received: Option<Challenge>)
      requires connected && conns != [] && index < |relays|
      modifies this
      ensures View() == StoreChallenge(old(View()), received)
    {
      if attempt.challenge.Some? {
        return;
      }
      if received.None? {
        CloseTheSocket();
        return;
      }
      attempt := attempt.(challenge := received);
      conns := conns[..|conns| - 1] + [conns[|conns| - 1].(challenge := received)];
      var _ := MaybeSendAuth();
    }

    method VerifyTheRelay(valid: bool)
      requires connected && conns != [] && index < |relays|
      modifies this
      ensures View() == VerifyRelay(old(View()), valid)
    {
      if !valid {
        CloseTheSocket();
        return;
      }
      attempt := attempt.(verified := true);
      conns := conns[..|conns| - 1] + [conns[|conns| - 1].(proven := true)];
      var _ := MaybeSendAuth();
    }

    method OnFrameArrived(f: RelayFrame)
      requires Inv(View()) && connected
      modifies this
      ensures Inv(View()) && View() == Step(old(View()), Receive(f))
    {
      hide Inv, OnFrame, CloseSocket, Connect, Refresh, StopNode;
      InvBasics(View());
      StepInv(View(), Receive(f));
      conns := conns[..|conns| - 1] + [conns[|conns| - 1].(frames := conns[|conns| - 1].frames + [f])];
      HandleFrame(f);
    }

    method HandleFrame(f: RelayFrame)
      requires connected && conns != [] && index < |relays|
      modifies this
      ensures View() == OnFrame(old(View()), f)
    {
      hide StoreChallenge, VerifyRelay, CloseSocket;
      if f.PingFrame? {
        return;
      }
      if phase == Authenticating && !attempt.verified {
        if f.HelloFrame? {
          StoreTheChallenge(f.challenge);
        } else if f.AckFrame? {
          VerifyTheRelay(f.valid);
        } else {
          CloseTheSocket();
        }
        return;
      }
      match f {
        case ErrorFrame(already) =>
          if already && attempt.authSent && phase != Serving {
            attempt := attempt.(conflict := true);
            conns := conns[..|conns| - 1] + [conns[|conns| - 1].(conflict := true)];
          }
        case HelloFrame(received) =>
          if phase == Authenticating {
            StoreTheChallenge(received);
          }
        case AuthOkFrame =>
          if phase == Authenticating && attempt.authSent {
            phase, attempt := Serving, attempt.(served := true);
            conns := conns[..|conns| - 1] + [conns[|conns| - 1].(serving := true)];
          }
        case _ =>
      }
    }

    method RefreshRelays(next: seq<Relay>, opens: bool)
      requires Inv(View())
      modifies this
      ensures Inv(View()) && View() == Step(old(View()), Refreshed(next, opens))
    {
      hide Inv, Connect, CloseSocket, OnFrame, StopNode;
      InvBasics(View());
      StepInv(View(), Refreshed(next, opens));
      if stopped {
        return;
      }
      if next == [] {
        Detach();
        return;
      }
      var still := IndexOf(next, relays[index]);
      if still >= 0 {
        KeepCandidate(next, still, opens);
      } else {
        LeaveCandidate(next, opens);
      }
    }

    /** No relay may be used. */
    method Detach()
      requires connected ==> conns != []
      modifies this
      ensures View() == CloseSocket(old(View()).(paused := true))
    {
      hide CloseSocket;
      paused := true;
      CloseTheSocket();
    }

    /** The current candidate is still listed, at `still`. */
    method KeepCandidate(next: seq<Relay>, still: nat, opens: bool)
      requires !stopped && still < |next|
      modifies this
      ensures var m := old(View()).(relays := next, paused := false, epoch := old(epoch) + 1, index := still);
              View() == if old(paused) && !old(connected) && !old(timer) then Connect(m, opens) else m
    {
      hide Connect;
      var resume := paused && !connected && !timer;
      relays, paused, epoch, index := next, false, epoch + 1, still;
      if resume {
        ConnectNow(opens);
      }
    }

    /** It is not: leave it for the first of the new list. */
    method LeaveCandidate(next: seq<Relay>, opens: bool)
      requires !stopped && next != [] && (connected ==> conns != [])
      modifies this
      ensures var m := old(View()).(relays := next, paused := false, epoch := old(epoch) + 1, index := 0);
              View() == if old(connected) then CloseSocket(m.(served := true))
                        else if !old(timer) then Connect(m, opens) else m
    {
      hide Connect, CloseSocket;
      relays, paused, epoch, index := next, false, epoch + 1, 0;
      if connected {
        attempt := attempt.(served := true);
        CloseTheSocket();
      } else if !timer {
        ConnectNow(opens);
      }
    }

    /** The relay, or the network, ended the current socket. */
    method SocketEnded()
      requires Inv(View())
      modifies this
      ensures Inv(View()) && View() == Step(old(View()), SocketClosed)
    {
      hide Inv, CloseSocket;
      InvBasics(View());
      StepInv(View(), SocketClosed);
      CloseTheSocket();
    }

    /** The handshake timer: a connection that is not serving by now is given up. */
    method HandshakeTimerFires()
      requires Inv(View())
      modifies this
      ensures Inv(View()) && View() == Step(old(View()), HandshakeTimeout)
    {
      hide Inv, CloseSocket;
      InvBasics(View());
      StepInv(View(), HandshakeTimeout);
      if !attempt.served {
        CloseTheSocket();
      }
    }

    method ReconnectTimerFires(opens: bool)
      requires Inv(View()) && timer
      modifies this
      ensures Inv(View()) && View() == Step(old(View()), TimerFires(opens))
    {
      hide Inv, Connect;
      InvBasics(View());
      StepInv(View(), TimerFires(opens));
      ConnectNow(opens);
    }

    method StopRunning()
      requires Inv(View())
      modifies this
      ensures Inv(View()) && View() == Step(old(View()), Stop)
    {
      hide Inv, CloseSocket, OnFrame, Connect, Refresh;
      InvBasics(View());
      StepInv(View(), Stop);
      stopped, phase, timer := true, Stopped, false;
      assert View() == old(View()).(stopped := true, phase := Stopped, timer := false);
      CloseTheSocket();
    }
  }
}
