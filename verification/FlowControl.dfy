/**
 Credit windows (packages/protocol/src/flow-control.ts): a window per stream
 and one per circuit, shared by every stream of the circuit.
 */
module FlowControl {
  import opened Wrappers

  const MAX_WINDOW_CREDIT: int := 0xFFFF_FFFF

  /** A window as a value; what is not available is outstanding. */
  datatype Window = Window(initial: nat, available: int)

  predicate InRange(w: Window) { 0 <= w.available <= w.initial }

  function Outstanding(w: Window): int { w.initial - w.available }

  predicate IsCredit(bytes: int) { 0 <= bytes <= MAX_WINDOW_CREDIT }

  function Consumed(w: Window, bytes: int): Window { w.(available := w.available - bytes) }

  function Granted(w: Window, bytes: int): Window
  {
    w.(available := if bytes >= w.initial - w.available then w.initial else w.available + bytes)
  }

  // ---------------------------------------------------------------------
  // A circuit and its streams
  // ---------------------------------------------------------------------

  datatype Circuit = Circuit(window: Window, streams: seq<Window>)

  datatype Event = Consume(stream: nat, bytes: int) | Grant(stream: nat, bytes: int) | Open(initial: nat)

  function Sendable(c: Circuit, s: nat): int
    requires s < |c.streams|
  {
    if c.streams[s].available <= c.window.available then c.streams[s].available else c.window.available
  }

  /** Refused amounts and unknown streams change nothing. */
  function Step(c: Circuit, e: Event): Circuit
  {
    match e
    case Consume(s, bytes) =>
      if s >= |c.streams| || !IsCredit(bytes) || bytes > Sendable(c, s) then c
      else Circuit(Consumed(c.window, bytes), c.streams[s := Consumed(c.streams[s], bytes)])
    case Grant(s, bytes) =>
      if s >= |c.streams| || !IsCredit(bytes) then c
      else Circuit(Granted(c.window, bytes), c.streams[s := Granted(c.streams[s], bytes)])
    case Open(initial) =>
      if initial == 0 || !IsCredit(initial) then c
      else c.(streams := c.streams + [Window(initial, initial)])
  }

  function Run(c: Circuit, es: seq<Event>): Circuit
  {
    if es == [] then c else Step(Run(c, es[..|es| - 1]), es[|es| - 1])
  }

  function Total(ws: seq<Window>): int
  {
    if ws == [] then 0 else Total(ws[..|ws| - 1]) + Outstanding(ws[|ws| - 1])
  }

  lemma {:induction false} TotalUpdate(ws: seq<Window>, i: nat, w: Window)
    requires i < |ws|
    ensures Total(ws[i := w]) == Total(ws) - Outstanding(ws[i]) + Outstanding(w)
  {
    var n := |ws| - 1;
    if i == n {
      assert ws[i := w][..n] == ws[..n];
    } else {
      TotalUpdate(ws[..n], i, w);
      assert ws[i := w][..n] == ws[..n][i := w];
    }
  }

  predicate AllInRange(ws: seq<Window>) { forall i | 0 <= i < |ws| :: InRange(ws[i]) }

  lemma {:induction false} TotalNonNegative(ws: seq<Window>)
    requires AllInRange(ws)
    ensures Total(ws) >= 0 && forall i | 0 <= i < |ws| :: Outstanding(ws[i]) <= Total(ws)
  {
    if ws != [] {
      TotalNonNegative(ws[..|ws| - 1]);
    }
  }

  /** Both windows of stream `s` admit `bytes`. */
  predicate Admits(c: Circuit, s: nat, bytes: int)
  {
    s < |c.streams| && 0 <= bytes <= 0xFFFF_FFFF && bytes <= c.streams[s].available && bytes <= c.window.available
  }

  /** What the accepted sends of stream `s` add up to. */
  function Sent(c: Circuit, es: seq<Event>, s: nat): int
  {
    if es == [] then 0
    else
      var n := |es| - 1;
      Sent(c, es[..n], s)
      + if es[n].Consume? && es[n].stream == s && Admits(Run(c, es[..n]), s, es[n].bytes) then es[n].bytes else 0
  }

  /** What the well-formed grants to stream `s` add up to. */
  function Credited(c: Circuit, es: seq<Event>, s: nat): int
  {
    if es == [] then 0
    else
      var n := |es| - 1;
      var e := es[n];
      Credited(c, es[..n], s)
      + if e.Grant? && e.stream == s < |Run(c, es[..n]).streams| && 0 <= e.bytes <= 0xFFFF_FFFF then e.bytes else 0
  }

  /** Streams are opened with a window of 1 to 2^32 - 1, which they keep. */
  lemma StepStreams(c: Circuit, e: Event)
    ensures |Step(c, e).streams| == |c.streams| + if e.Open? && 0 < e.initial <= 0xFFFF_FFFF then 1 else 0
    ensures forall s | 0 <= s < |c.streams| :: Step(c, e).streams[s].initial == c.streams[s].initial
    ensures |Step(c, e).streams| > |c.streams| ==> Step(c, e).streams[|c.streams|] == Window(e.initial, e.initial)
  {
  }

  /**
   The account of a stream over any run: as long as no stream is granted more than
   it has outstanding, what it has outstanding is what it sent less what it was
   credited, and a send goes through exactly if both windows admit it.
   */
  lemma {:induction false} StreamAccount(initial: nat, es: seq<Event>, s: nat)
    requires ModestRun(Circuit(Window(initial, initial), []), es)
    ensures var c := Circuit(Window(initial, initial), []);
            if s < |Run(c, es).streams| then Outstanding(Run(c, es).streams[s]) == Sent(c, es, s) - Credited(c, es, s)
            else Sent(c, es, s) == 0 == Credited(c, es, s)
  {
    var c := Circuit(Window(initial, initial), []);
    if es != [] {
      var n := |es| - 1;
      StreamAccount(initial, es[..n], s);
      StepStreams(Run(c, es[..n]), es[n]);
    }
  }

  /** Every window in [0, initial], and the circuit never accounts for more than its streams together. */
  predicate Sound(c: Circuit)
  {
    InRange(c.window) && AllInRange(c.streams) && Outstanding(c.window) <= Total(c.streams)
  }

  /** The circuit accounts for exactly what its streams have outstanding. */
  predicate Exact(c: Circuit) { Sound(c) && Outstanding(c.window) == Total(c.streams) }

  lemma StepSound(c: Circuit, e: Event)
    requires Sound(c)
    ensures Sound(Step(c, e))
  {
    TotalNonNegative(c.streams);
    match e
    case Consume(s, bytes) =>
      if s < |c.streams| { TotalUpdate(c.streams, s, Consumed(c.streams[s], bytes)); }
    case Grant(s, bytes) =>
      if s < |c.streams| { TotalUpdate(c.streams, s, Granted(c.streams[s], bytes)); }
    case Open(initial) =>
      assert (c.streams + [Window(initial, initial)])[..|c.streams|] == c.streams;
  }

  /** Over any interleaving of consumes, grants and new streams. */
  lemma {:induction false} RunSound(initial: nat, es: seq<Event>)
    ensures Sound(Run(Circuit(Window(initial, initial), []), es))
  {
    if es != [] {
      RunSound(initial, es[..|es| - 1]);
      StepSound(Run(Circuit(Window(initial, initial), []), es[..|es| - 1]), es[|es| - 1]);
    }
  }

  /** What the other streams have outstanding. */
  function Others(c: Circuit, s: nat): int
    requires s < |c.streams|
  {
    Total(c.streams) - Outstanding(c.streams[s])
  }

  /** A grant keeps the account exact iff it is no more than the stream has outstanding, or no other stream has any. */
  lemma GrantExactIff(c: Circuit, s: nat, bytes: int)
    requires Exact(c) && s < |c.streams| && IsCredit(bytes)
    ensures Exact(Step(c, Grant(s, bytes))) <==> bytes <= Outstanding(c.streams[s]) || Others(c, s) == 0
  {
    StepSound(c, Grant(s, bytes));
    TotalNonNegative(c.streams);
    TotalUpdate(c.streams, s, Granted(c.streams[s], bytes));
    OthersNonNegative(c.streams, s);
  }

  lemma OthersNonNegative(ws: seq<Window>, i: nat)
    requires AllInRange(ws) && i < |ws|
    ensures Total(ws) - Outstanding(ws[i]) >= 0
  {
    TotalNonNegative(ws);
  }

  /** A consume debits both windows by the same amount or neither, and never spoils the account. */
  lemma ConsumeExact(c: Circuit, s: nat, bytes: int)
    requires Exact(c)
    ensures Exact(Step(c, Consume(s, bytes)))
  {
    StepSound(c, Consume(s, bytes));
    if s < |c.streams| {
      TotalUpdate(c.streams, s, Consumed(c.streams[s], bytes));
    }
  }

  /** The event never grants a stream more than it has outstanding. */
  predicate Modest(c: Circuit, e: Event)
  {
    e.Grant? && e.stream < |c.streams| ==> e.bytes <= Outstanding(c.streams[e.stream])
  }

  predicate ModestRun(c: Circuit, es: seq<Event>)
  {
    es == [] || (ModestRun(c, es[..|es| - 1]) && Modest(Run(c, es[..|es| - 1]), es[|es| - 1]))
  }

  /** All streams together have no more outstanding than the circuit window allows. */
  predicate WithinCeiling(c: Circuit) { Total(c.streams) <= c.window.initial }

  /** From equal accounts, modest grants keep the accounts equal and the ceiling. */
  lemma {:induction false} ModestKeepsCeiling(c: Circuit, es: seq<Event>)
    requires Exact(c) && ModestRun(c, es)
    ensures Exact(Run(c, es)) && Run(c, es).window.initial == c.window.initial && WithinCeiling(Run(c, es))
  {
    if es != [] {
      var n := |es| - 1;
      ModestKeepsCeiling(c, es[..n]);
      var d := Run(c, es[..n]);
      match es[n]
      case Consume(s, bytes) => ConsumeExact(d, s, bytes);
      case Grant(s, bytes) =>
        if s < |d.streams| && IsCredit(bytes) { GrantExactIff(d, s, bytes); }
      case Open(first) =>
        StepSound(d, es[n]);
        assert (d.streams + [Window(first, first)])[..|d.streams|] == d.streams;
    }
  }

  /**
   As long as no stream is granted more than it has outstanding, the circuit
   window is a ceiling for all its streams together.
   */
  lemma CircuitIsCeiling(initial: nat, es: seq<Event>)
    requires ModestRun(Circuit(Window(initial, initial), []), es)
    ensures var c := Run(Circuit(Window(initial, initial), []), es);
            Exact(c) && c.window.initial == initial && WithinCeiling(c)
  {
    ModestKeepsCeiling(Circuit(Window(initial, initial), []), es);
  }

  /** Where the circuit accounts for less than its streams, one more stream can go past the ceiling. */
  lemma Overrun(c: Circuit) returns (es: seq<Event>)
    requires Sound(c) && !Exact(c) && 0 < c.window.initial && IsCredit(c.window.initial)
    ensures ModestRun(c, es) && !WithinCeiling(Run(c, es))
  {
    hide Run, Total;
    var w, rest := Window(c.window.initial, c.window.initial), c.window.available;
    var open, send := Open(c.window.initial), Consume(|c.streams|, c.window.available);
    var d := c.(streams := c.streams + [w]);
    RunThen(c, [], open);
    RunThen(c, [open], send);
    assert [] + [open] == [open] && Run(c, [open]) == d;
    es := [open] + [send];
    assert es[..1] == [open] && [open][..0] == [];
    assert ModestRun(c, []) && ModestRun(c, [open]);
    TotalSnoc(c.streams, w);
    TotalUpdate(d.streams, |c.streams|, Consumed(w, rest));
  }

  lemma TotalSnoc(ws: seq<Window>, w: Window)
    ensures Total(ws + [w]) == Total(ws) + Outstanding(w)
  {
    assert (ws + [w])[..|ws|] == ws;
  }

  /**
   After a grant, every later run of modest grants keeps all streams within the
   circuit window if and only if the grant was no more than its stream had
   outstanding, or no other stream had any.
   */
  lemma CeilingIff(c: Circuit, s: nat, bytes: int)
    requires Exact(c) && s < |c.streams| && IsCredit(bytes) && 0 < c.window.initial && IsCredit(c.window.initial)
    ensures var d := Step(c, Grant(s, bytes));
            (forall es | ModestRun(d, es) :: WithinCeiling(Run(d, es)))
            <==> bytes <= Outstanding(c.streams[s]) || Others(c, s) == 0
  {
    hide ModestRun, Run, WithinCeiling, Total;
    var d := Step(c, Grant(s, bytes));
    GrantExactIff(c, s, bytes);
    StepSound(c, Grant(s, bytes));
    if Exact(d) {
      forall es | ModestRun(d, es) ensures WithinCeiling(Run(d, es)) {
        ModestKeepsCeiling(d, es);
      }
    } else {
      var es := Overrun(d);
    }
  }

  /** An excessive grant to one stream lets the others exceed the circuit window. */
  lemma OverGrantBreaksCeiling()
    ensures var es := [Open(10), Open(10), Consume(0, 10), Grant(1, 10), Consume(1, 10)];
            Total(Run(Circuit(Window(10, 10), []), es).streams) == 20
  {
    hide Run, Total;
    var c0 := Circuit(Window(10, 10), []);
    var full, none := Window(10, 10), Window(10, 0);
    RunThen(c0, [], Open(10));
    assert [] + [Open(10)] == [Open(10)] && Run(c0, [Open(10)]) == Circuit(full, [full]);
    RunThen(c0, [Open(10)], Open(10));
    assert [Open(10)] + [Open(10)] == [Open(10), Open(10)];
    var two := [Open(10), Open(10)];
    assert Run(c0, two) == Circuit(full, [full, full]);
    RunThen(c0, two, Consume(0, 10));
    assert Run(c0, two + [Consume(0, 10)]) == Circuit(none, [none, full]);
    RunThen(c0, two + [Consume(0, 10)], Grant(1, 10));
    assert Run(c0, two + [Consume(0, 10)] + [Grant(1, 10)]) == Circuit(full, [none, full]);
    RunThen(c0, two + [Consume(0, 10)] + [Grant(1, 10)], Consume(1, 10));
    assert two + [Consume(0, 10)] + [Grant(1, 10)] + [Consume(1, 10)]
        == [Open(10), Open(10), Consume(0, 10), Grant(1, 10), Consume(1, 10)];
    assert [none, full][1 := none] == [none, none];
    TotalOfTwo(none, none);
  }

  lemma RunThen(c: Circuit, es: seq<Event>, e: Event)
    ensures Run(c, es + [e]) == Step(Run(c, es), e) && Run(c, []) == c
  {
    assert (es + [e])[..|es|] == es;
  }

  lemma TotalOfTwo(a: Window, b: Window)
    ensures Total([a, b]) == Outstanding(a) + Outstanding(b)
  {
    assert [a, b][..1] == [a] && [a][..0] == [];
    assert Total([a]) == Outstanding(a) by { assert Total([]) == 0; }
  }

  // ---------------------------------------------------------------------
  // The classes
  // ---------------------------------------------------------------------

  class FlowWindow {
    const initial: nat
    var available: int

    ghost function View(): Window
      reads this
    {
      Window(initial, available)
    }

    ghost predicate Valid()
      reads this
    {
      InRange(View())
    }

    /** The constructor of the code refuses an initial window that is not a positive credit. */
    constructor (initial: nat)
      requires IsCredit(initial) && initial > 0
      ensures Valid() && View() == Window(initial, initial)
    {
      this.initial, available := initial, initial;
    }

    /** `None` when the amount is not a credit, which throws. */
    method Consume(bytes: int) returns (ok: Option<bool>)
      requires Valid()
      modifies this
      ensures Valid() && (ok.None? <==> !IsCredit(bytes))
      ensures ok == Some(true) <==> IsCredit(bytes) && bytes <= old(available)
      ensures View() == if ok == Some(true) then Consumed(old(View()), bytes) else old(View())
    {
      if !IsCredit(bytes) {
        return None;
      }
      if bytes > available {
        return Some(false);
      }
      available := available - bytes;
      return Some(true);
    }

    method Grant(bytes: int) returns (ok: bool)
      requires Valid()
      modifies this
      ensures Valid() && ok == IsCredit(bytes)
      ensures View() == if ok then Granted(old(View()), bytes) else old(View())
    {
      if !IsCredit(bytes) {
        return false;
      }
      available := if bytes >= initial - available then initial else available + bytes;
      return true;
    }
  }

  class StreamFlow {
    const circuit: FlowWindow
    const stream: FlowWindow

    ghost predicate Valid()
      reads this, circuit, stream
    {
      circuit != stream && circuit.Valid() && stream.Valid()
    }

    constructor (circuit: FlowWindow, streamWindow: nat)
      requires circuit.Valid() && IsCredit(streamWindow) && streamWindow > 0
      ensures Valid() && fresh(stream) && this.circuit == circuit && stream.View() == Window(streamWindow, streamWindow)
    {
      this.circuit := circuit;
      stream := new FlowWindow(streamWindow);
    }

    /** Debit both windows, or neither. */
    method Consume(bytes: int) returns (ok: Option<bool>)
      requires Valid()
      modifies circuit, stream
      ensures Valid() && (ok.None? <==> !IsCredit(bytes))
      ensures ok == Some(true) <==> IsCredit(bytes) && bytes <= old(stream.available) && bytes <= old(circuit.available)
      ensures if ok == Some(true)
              then stream.View() == Consumed(old(stream.View()), bytes)
                && circuit.View() == Consumed(old(circuit.View()), bytes)
              else stream.View() == old(stream.View()) && circuit.View() == old(circuit.View())
    {
      if !IsCredit(bytes) {
        return None;
      }
      var sendable := if stream.available <= circuit.available then stream.available else circuit.available;
      if bytes > sendable {
        return Some(false);
      }
      var _ := stream.Consume(bytes);
      var _ := circuit.Consume(bytes);
      return Some(true);
    }

    method Grant(bytes: int) returns (ok: bool)
      requires Valid()
      modifies circuit, stream
      ensures Valid() && ok == IsCredit(bytes)
      ensures stream.View() == (if ok then Granted(old(stream.View()), bytes) else old(stream.View()))
      ensures circuit.View() == (if ok then Granted(old(circuit.View()), bytes) else old(circuit.View()))
    {
      if !IsCredit(bytes) {
        return false;
      }
      var _ := stream.Grant(bytes);
      var _ := circuit.Grant(bytes);
      return true;
    }
  }

  /** Any number of stream flows over one circuit window object, no two sharing a stream window. */
  class Multiplexer {
    const circuit: FlowWindow
    var flows: seq<StreamFlow>

    ghost predicate Shape()
      reads this
    {
      && (forall i | 0 <= i < |flows| :: flows[i].circuit == circuit && flows[i].stream != circuit)
      && (forall i, j | 0 <= i < j < |flows| :: flows[i].stream != flows[j].stream)
    }

    ghost function Windows(): set<object>
      reads this
    {
      {circuit} + (set f | f in flows :: f.stream)
    }

    ghost function View(): Circuit
      reads this, Windows()
    {
      Circuit(circuit.View(), seq(|flows|, i requires 0 <= i < |flows| && flows[i].stream in Windows()
                                             reads this, Windows() => flows[i].stream.View()))
    }

    ghost predicate Valid()
      reads this, Windows()
    {
      Shape() && circuit.Valid() && forall f | f in flows :: f.stream.Valid()
    }

    constructor (initial: nat)
      requires IsCredit(initial) && initial > 0
      ensures Valid() && fresh(Windows()) && View() == Circuit(Window(initial, initial), [])
    {
      circuit := new FlowWindow(initial);
      flows := [];
    }

    method OpenStream(streamWindow: nat)
      requires Valid() && IsCredit(streamWindow) && streamWindow > 0
      modifies this
      ensures Valid() && fresh(Windows() - old(Windows())) && View() == Step(old(View()), Open(streamWindow))
    {
      var f := new StreamFlow(circuit, streamWindow);
      flows := flows + [f];
    }

    method Send(s: nat, bytes: int) returns (ok: Option<bool>)
      requires Valid() && s < |flows|
      modifies Windows()
      ensures Valid() && View() == Step(old(View()), Consume(s, bytes))
    {
      assert flows[s] in flows;
      ok := flows[s].Consume(bytes);
    }

    method Credit(s: nat, bytes: int) returns (ok: bool)
      requires Valid() && s < |flows|
      modifies Windows()
      ensures Valid() && View() == Step(old(View()), Grant(s, bytes))
    {
      assert flows[s] in flows;
      ok := flows[s].Grant(bytes);
    }
  }
}
