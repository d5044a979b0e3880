/**
 The SOCKS5 front end (packages/client/src/socks.ts; sections 3 and 4 of
 RFC 1928): the handshake is parsed as bytes arrive.
 */
module Socks {
  import opened Bytes

  const VERSION: byte := 5
  const CMD_CONNECT: byte := 1
  const ATYP_IPV4: byte := 1
  const ATYP_DOMAIN: byte := 3
  const ATYP_IPV6: byte := 4
  const NO_AUTH: byte := 0
  const NONE_ACCEPTABLE: byte := 0xFF
  const MAX_HANDSHAKE_BYTES := 1024

  datatype Greeting = GreetingIncomplete | BadVersion | Greeting(noAuthOffered: bool, consumed: nat)

  datatype Request = RequestIncomplete | Connect(domain: Bytes, port: nat, consumed: nat) | Reject(rep: byte)

  function ParseGreeting(b: Bytes): (g: Greeting)
    ensures g.Greeting? ==> g.consumed <= |b|
  {
    if |b| < 1 then GreetingIncomplete
    else if b[0] != VERSION then BadVersion
    else if |b| < 2 || |b| < 2 + (b[1] as int) then GreetingIncomplete
    else Greeting(NO_AUTH in b[2..2 + (b[1] as int)], 2 + (b[1] as int))
  }

  function ParseRequest(b: Bytes): (r: Request)
    ensures r.Connect? ==> r.consumed <= |b|
  {
    if |b| < 4 then RequestIncomplete
    else if b[0] != VERSION then Reject(1)
    else if b[1] != CMD_CONNECT then Reject(7)
    else if b[3] == ATYP_IPV4 || b[3] == ATYP_IPV6 then Reject(2)
    else if b[3] != ATYP_DOMAIN then Reject(8)
    else if |b| < 5 || |b| < 5 + (b[4] as int) + 2 then RequestIncomplete
    else
      var n: int := b[4];
      Connect(b[5..5 + n], (b[5 + n] as int) * 256 + b[6 + n], 7 + n)
  }

  /** An incomplete greeting or request is far below the bound on handshake bytes. */
  lemma IncompleteIsShort(b: Bytes)
    ensures ParseGreeting(b).GreetingIncomplete? ==> |b| < 257
    ensures ParseRequest(b).RequestIncomplete? ==> |b| < 262
  {
    assert |b| >= 2 ==> b[1] <= 255;
    assert |b| >= 5 ==> b[4] <= 255;
  }

  /** Once decided, more bytes change nothing. */
  lemma GreetingStable(b: Bytes, more: Bytes)
    requires !ParseGreeting(b).GreetingIncomplete?
    ensures ParseGreeting(b + more) == ParseGreeting(b)
  {
    if ParseGreeting(b).Greeting? {
      assert (b + more)[2..2 + b[1]] == b[2..2 + b[1]];
    }
  }

  lemma RequestStable(b: Bytes, more: Bytes)
    requires !ParseRequest(b).RequestIncomplete?
    ensures ParseRequest(b + more) == ParseRequest(b)
  {
    if ParseRequest(b).Connect? {
      assert (b + more)[5..5 + b[4]] == b[5..5 + b[4]];
    }
  }

  // ---------------------------------------------------------------------
  // In one piece
  // ---------------------------------------------------------------------

  /** `Connected` carries the bytes that belong to the tunnel. */
  datatype Outcome =
    | Pending
    | Destroyed
    | NoMethod
    | Refused(rep: byte)
    | Connected(domain: Bytes, port: nat, data: Bytes)

  function RequestOutcome(b: Bytes): Outcome
  {
    match ParseRequest(b)
    case RequestIncomplete => Pending
    case Reject(rep) => Refused(rep)
    case Connect(domain, port, consumed) => Connected(domain, port, b[consumed..])
  }

  /** What a whole client stream means. */
  function OneShot(stream: Bytes): Outcome
  {
    match ParseGreeting(stream)
    case GreetingIncomplete => Pending
    case BadVersion => Destroyed
    case Greeting(noAuth, consumed) => if noAuth then RequestOutcome(stream[consumed..]) else NoMethod
  }

  /** The method selection a client is sent. */
  function MethodReply(stream: Bytes): Bytes
  {
    match ParseGreeting(stream)
    case Greeting(noAuth, _) => if noAuth then [VERSION, NO_AUTH] else [VERSION, NONE_ACCEPTABLE]
    case GreetingIncomplete => []
    case BadVersion => []
  }

  // ---------------------------------------------------------------------
  // What a client writes
  // ---------------------------------------------------------------------

  /** Version, the number of methods, the methods. */
  function GreetingBytes(methods: Bytes): Bytes
    requires |methods| <= 255
  {
    [VERSION, |methods|] + methods
  }

  /** Version, CONNECT, a reserved byte, the domain with its length, the port with its high byte first. */
  function RequestBytes(reserved: byte, domain: Bytes, port: nat): Bytes
    requires |domain| <= 255 && port <= 0xFFFF
  {
    [VERSION, CMD_CONNECT, reserved, ATYP_DOMAIN, |domain|] + domain + [port / 256, port % 256]
  }

  /** A greeting is read from exactly the bytes that begin with one. */
  lemma GreetingRead(methods: Bytes, more: Bytes)
    requires |methods| <= 255
    ensures ParseGreeting(GreetingBytes(methods) + more) == Greeting(NO_AUTH in methods, |GreetingBytes(methods)|)
  {
    var b := GreetingBytes(methods) + more;
    assert b[2..2 + |methods|] == methods;
  }

  lemma GreetingWritten(b: Bytes) returns (methods: Bytes)
    requires ParseGreeting(b).Greeting?
    ensures |methods| <= 255 && GreetingBytes(methods) == b[..ParseGreeting(b).consumed]
  {
    methods := b[2..2 + b[1]];
    assert b[..2] == [VERSION, b[1]];
    assert b[..2 + b[1]] == b[..2] + methods;
  }

  /** A CONNECT of a domain and a port reads back as them, whatever follows it. */
  lemma RequestRead(reserved: byte, domain: Bytes, port: nat, more: Bytes)
    requires |domain| <= 255 && port <= 0xFFFF
    ensures var bytes := RequestBytes(reserved, domain, port);
            ParseRequest(bytes + more) == Connect(domain, port, |bytes|)
  {
    var b, n := RequestBytes(reserved, domain, port) + more, |domain|;
    assert b[5..5 + n] == domain;
    assert b[5 + n] == port / 256 && b[6 + n] == port % 256;
  }

  /** And what is read as a CONNECT is one: the bytes begin with the request for that domain and port. */
  lemma RequestWritten(b: Bytes)
    requires ParseRequest(b).Connect?
    ensures var r := ParseRequest(b);
            |r.domain| <= 255 && r.port <= 0xFFFF && RequestBytes(b[2], r.domain, r.port) <= b
  {
    var r, n := ParseRequest(b), |ParseRequest(b).domain|;
    var hi, lo := b[5 + n], b[6 + n];
    PortBytes(hi, lo);
    assert b[..7 + n] == b[..5] + b[5..5 + n] + b[5 + n..7 + n];
    assert b[..5] == [VERSION, CMD_CONNECT, b[2], ATYP_DOMAIN, n];
    assert b[5 + n..7 + n] == [hi, lo];
  }

  lemma PortBytes(hi: byte, lo: byte)
    ensures (hi * 256 + lo) / 256 == hi && (hi * 256 + lo) % 256 == lo && hi * 256 + lo <= 0xFFFF
  {
  }

  /** A client that offers no authentication and asks for a domain and a port. */
  lemma HandshakeRead(greeting: Bytes, request: Bytes, data: Bytes, domain: Bytes, port: nat)
    requires ParseGreeting(greeting + (request + data)) == Greeting(true, |greeting|)
    requires ParseRequest(request + data) == Connect(domain, port, |request|)
    ensures OneShot(greeting + (request + data)) == Connected(domain, port, data)
    ensures MethodReply(greeting + (request + data)) == [VERSION, NO_AUTH]
  {
    hide ParseGreeting, ParseRequest;
    assert (greeting + (request + data))[|greeting|..] == request + data;
    assert (request + data)[|request|..] == data;
  }

  /** In any split: it gets them, and what it sent after its request is the tunnel's. */
  lemma HandshakeConnects(chunks: seq<Bytes>, methods: Bytes, reserved: byte, domain: Bytes, port: nat, data: Bytes)
    requires |methods| <= 255 && NO_AUTH in methods && |domain| <= 255 && port <= 0xFFFF
    requires Stream(chunks) == GreetingBytes(methods) + (RequestBytes(reserved, domain, port) + data)
    ensures Feed(chunks).outcome == Connected(domain, port, data) && Feed(chunks).reply == [VERSION, NO_AUTH]
  {
    hide OneShot, MethodReply, ParseGreeting, ParseRequest, GreetingBytes, RequestBytes, Feed, Stream;
    var greeting, request := GreetingBytes(methods), RequestBytes(reserved, domain, port);
    ChunksRefineStream(chunks);
    GreetingRead(methods, request + data);
    RequestRead(reserved, domain, port, data);
    HandshakeRead(greeting, request, data, domain, port);
  }

  /** Every other request is refused for the first of these that fails: version, command, kind of address. */
  lemma RequestRefused(b: Bytes)
    requires |b| >= 4
    ensures ParseRequest(b) == Reject(1) <==> b[0] != 5
    ensures ParseRequest(b) == Reject(7) <==> b[0] == 5 && b[1] != 1
    ensures ParseRequest(b) == Reject(2) <==> b[0] == 5 && b[1] == 1 && b[3] in {1, 4}
    ensures ParseRequest(b) == Reject(8) <==> b[0] == 5 && b[1] == 1 && b[3] !in {1, 3, 4}
  {
  }

  // ---------------------------------------------------------------------
  // Chunk by chunk
  // ---------------------------------------------------------------------

  datatype Phase = AwaitGreeting | AwaitRequest | Done

  datatype Connection = Connection(phase: Phase, buffer: Bytes, outcome: Outcome, reply: Bytes)

  const NEW := Connection(AwaitGreeting, [], Pending, [])

  function StillIncomplete(c: Connection): Connection
  {
    if |c.buffer| <= MAX_HANDSHAKE_BYTES then c else c.(phase := Done, outcome := Destroyed)
  }

  function OnRequest(c: Connection): Connection
  {
    match ParseRequest(c.buffer)
    case RequestIncomplete => StillIncomplete(c)
    case Reject(rep) => c.(phase := Done, outcome := Refused(rep))
    case Connect(domain, port, consumed) =>
      c.(phase := Done, buffer := [], outcome := Connected(domain, port, c.buffer[consumed..]))
  }

  function OnGreeting(c: Connection): Connection
  {
    match ParseGreeting(c.buffer)
    case GreetingIncomplete => StillIncomplete(c)
    case BadVersion => c.(phase := Done, outcome := Destroyed)
    case Greeting(noAuth, consumed) =>
      if !noAuth then c.(phase := Done, outcome := NoMethod, reply := c.reply + [VERSION, NONE_ACCEPTABLE])
      else OnRequest(c.(phase := AwaitRequest, buffer := c.buffer[consumed..], reply := c.reply + [VERSION, NO_AUTH]))
  }

  /** `onData`; after the CONNECT the chunks go to the tunnel, behind the early bytes. */
  function OnData(c: Connection, chunk: Bytes): Connection
  {
    match c.phase
    case Done =>
      if c.outcome.Connected? then c.(outcome := c.outcome.(data := c.outcome.data + chunk)) else c
    case AwaitGreeting => OnGreeting(c.(buffer := c.buffer + chunk))
    case AwaitRequest => OnRequest(c.(buffer := c.buffer + chunk))
  }

  function Feed(chunks: seq<Bytes>): Connection
  {
    if chunks == [] then NEW else OnData(Feed(chunks[..|chunks| - 1]), chunks[|chunks| - 1])
  }

  function Stream(chunks: seq<Bytes>): Bytes
  {
    if chunks == [] then [] else Stream(chunks[..|chunks| - 1]) + chunks[|chunks| - 1]
  }

  /** The connection is where the bytes received so far put it. */
  ghost predicate Tracks(c: Connection, stream: Bytes)
  {
    && c.outcome == OneShot(stream) && c.reply == MethodReply(stream)
    && match c.phase
       case AwaitGreeting => ParseGreeting(stream).GreetingIncomplete? && c.buffer == stream
       case AwaitRequest =>
         ParseGreeting(stream).Greeting? && ParseGreeting(stream).noAuthOffered
         && c.buffer == stream[ParseGreeting(stream).consumed..] && ParseRequest(c.buffer).RequestIncomplete?
       case Done => c.outcome != Pending
  }

  /** With the greeting consumed, the request step puts the connection where the stream says. */
  lemma RequestTracks(c: Connection, stream: Bytes)
    requires ParseGreeting(stream).Greeting? && ParseGreeting(stream).noAuthOffered
    requires c.phase == AwaitRequest && c.outcome == Pending && c.buffer == stream[ParseGreeting(stream).consumed..]
    requires c.reply == MethodReply(stream)
    ensures Tracks(OnRequest(c), stream)
  {
    hide ParseGreeting, ParseRequest;
    IncompleteIsShort(c.buffer);
  }

  lemma GreetingTracks(c: Connection, stream: Bytes)
    requires c == Connection(AwaitGreeting, stream, Pending, [])
    ensures Tracks(OnGreeting(c), stream)
  {
    hide ParseGreeting, ParseRequest;
    IncompleteIsShort(stream);
    var g := ParseGreeting(stream);
    if g.Greeting? && g.noAuthOffered {
      RequestTracks(Connection(AwaitRequest, stream[g.consumed..], Pending, [] + [VERSION, NO_AUTH]), stream);
    }
  }

  lemma DoneStays(stream: Bytes, chunk: Bytes)
    requires OneShot(stream) != Pending
    ensures OneShot(stream + chunk) ==
              if OneShot(stream).Connected? then OneShot(stream).(data := OneShot(stream).data + chunk)
              else OneShot(stream)
    ensures MethodReply(stream + chunk) == MethodReply(stream)
  {
    GreetingStable(stream, chunk);
    var g := ParseGreeting(stream);
    hide ParseGreeting, ParseRequest;
    if g.Greeting? && g.noAuthOffered {
      var rest := stream[g.consumed..];
      assert (stream + chunk)[g.consumed..] == rest + chunk;
      RequestStable(rest, chunk);
      var r := ParseRequest(rest);
      if r.Connect? {
        assert (rest + chunk)[r.consumed..] == rest[r.consumed..] + chunk;
      }
    }
  }

  lemma DataTracks(c: Connection, stream: Bytes, chunk: Bytes)
    requires Tracks(c, stream)
    ensures Tracks(OnData(c, chunk), stream + chunk)
  {
    match c.phase
    case Done => DoneStays(stream, chunk);
    case AwaitGreeting =>
      assert c == Connection(AwaitGreeting, stream, Pending, []);
      GreetingTracks(c.(buffer := c.buffer + chunk), stream + chunk);
    case AwaitRequest =>
      GreetingStable(stream, chunk);
      var consumed := ParseGreeting(stream).consumed;
      assert (stream + chunk)[consumed..] == c.buffer + chunk;
      RequestTracks(c.(buffer := c.buffer + chunk), stream + chunk);
  }

  /**
   The incremental handshake refines the one-shot one: for any stream and any
   split into chunks the outcome, domain and port are those of the whole stream,
   and the early bytes followed by the later chunks are exactly what comes after
   the CONNECT. In particular the size guard never ends a legal client.
   */
  lemma {:induction false} ChunksRefineStream(chunks: seq<Bytes>)
    ensures Tracks(Feed(chunks), Stream(chunks)) && Feed(chunks).outcome == OneShot(Stream(chunks))
  {
    hide OnData, OneShot;
    if chunks == [] {
      NewTracks();
    } else {
      ChunksRefineStream(chunks[..|chunks| - 1]);
      DataTracks(Feed(chunks[..|chunks| - 1]), Stream(chunks[..|chunks| - 1]), chunks[|chunks| - 1]);
    }
  }

  lemma NewTracks()
    ensures Tracks(NEW, [])
  {
  }

  /** So two splits of one stream end alike. */
  lemma SplitsAgree(a: seq<Bytes>, b: seq<Bytes>)
    requires Stream(a) == Stream(b)
    ensures Feed(a).outcome == Feed(b).outcome && Feed(a).reply == Feed(b).reply
  {
    ChunksRefineStream(a);
    ChunksRefineStream(b);
  }

  // ---------------------------------------------------------------------
  // The connection handler
  // ---------------------------------------------------------------------

  class Handler {
    var phase: Phase
    var buffer: Bytes
    var outcome: Outcome
    var reply: Bytes

    ghost function View(): Connection
      reads this
    {
      Connection(phase, buffer, outcome, reply)
    }

    constructor ()
      ensures View() == NEW
    {
      phase, buffer, outcome, reply := AwaitGreeting, [], Pending, [];
    }

    method CheckSize()
      modifies this
      ensures View() == StillIncomplete(old(View()))
    {
      if |buffer| <= MAX_HANDSHAKE_BYTES {
        return;
      }
      phase, outcome := Done, Destroyed;
    }

    method Receive(chunk: Bytes)
      modifies this
      ensures View() == OnData(old(View()), chunk)
    {
      hide ParseGreeting, ParseRequest;
      if phase == Done {
        if outcome.Connected? {
          outcome := outcome.(data := outcome.data + chunk);
        }
        return;
      }
      buffer := buffer + chunk;
      if phase == AwaitGreeting {
        var greeting := ParseGreeting(buffer);
        if greeting.GreetingIncomplete? {
          CheckSize();
          return;
        }
        if greeting.BadVersion? {
          phase, outcome := Done, Destroyed;
          return;
        }
        if !greeting.noAuthOffered {
          phase, outcome, reply := Done, NoMethod, reply + [VERSION, NONE_ACCEPTABLE];
          return;
        }
        reply := reply + [VERSION, NO_AUTH];
        buffer := buffer[greeting.consumed..];
        phase := AwaitRequest;
      }
      var request := ParseRequest(buffer);
      if request.RequestIncomplete? {
        CheckSize();
        return;
      }
      phase := Done;
      if request.Reject? {
        outcome := Refused(request.rep);
        return;
      }
      outcome := Connected(request.domain, request.port, buffer[request.consumed..]);
      buffer := [];
    }
  }
}
