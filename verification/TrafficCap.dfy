/**
 Monthly traffic accounting and throttling of an exit
 (apps/exit/src/traffic-cap.ts). Counts are unbounded here; months are numbers
 in calendar order.
 */
module TrafficCap {
  import opened Wrappers
  import Sequences

  type Month = nat

  datatype Reading = Reading(rx: nat, tx: nat, boot: string)

  /** The counting part of the persisted state. */
  datatype Ledger = Ledger(month: Month, bytes: nat, last: Reading)

  datatype CapState = CapState(ledger: Ledger, warned: bool)

  function Sum(r: Reading): nat { r.rx + r.tx }

  predicate Restarted(last: Reading, r: Reading)
  {
    r.boot != last.boot || r.rx < last.rx || r.tx < last.tx
  }

  /** The bytes one reading adds. */
  function Delta(last: Reading, r: Reading): nat
  {
    if Restarted(last, r) then Sum(r) else (r.rx - last.rx) + (r.tx - last.tx)
  }

  /** What a ledger has counted of `month`. */
  function Carry(l: Ledger, month: Month): nat { if l.month == month then l.bytes else 0 }

  function Charge(l: Ledger, r: Reading, month: Month): Ledger
  {
    Ledger(month, Carry(l, month) + Delta(l.last, r), r)
  }

  /** `advanceCap`. */
  function AdvanceCap(state: Option<CapState>, r: Reading, month: Month): CapState
  {
    match state
    case None => CapState(Ledger(month, 0, r), false)
    case Some(s) => CapState(Charge(s.ledger, r, month), s.ledger.month == month && s.warned)
  }

  // ---------------------------------------------------------------------
  // Conservation
  // ---------------------------------------------------------------------

  datatype Sample = Sample(reading: Reading, month: Month)

  function Fold(l: Ledger, samples: seq<Sample>): Ledger
  {
    if samples == [] then l
    else Charge(Fold(l, samples[..|samples| - 1]), samples[|samples| - 1].reading, samples[|samples| - 1].month)
  }

  /** All bytes the readings show beyond `last`, whatever the months. */
  function Deltas(last: Reading, samples: seq<Sample>): nat
    decreases |samples|
  {
    if samples == [] then 0 else Delta(last, samples[0].reading) + Deltas(samples[0].reading, samples[1..])
  }

  /** The totals of the months that ended during the fold. */
  function Closed(l: Ledger, samples: seq<Sample>): nat
  {
    if samples == [] then 0
    else
      var n := |samples| - 1;
      var before := Fold(l, samples[..n]);
      Closed(l, samples[..n]) + if before.month == samples[n].month then 0 else before.bytes
  }

  function LastOf(last: Reading, samples: seq<Sample>): Reading
  {
    if samples == [] then last else samples[|samples| - 1].reading
  }

  lemma {:induction false} DeltasSnoc(last: Reading, samples: seq<Sample>, s: Sample)
    ensures Deltas(last, samples + [s]) == Deltas(last, samples) + Delta(LastOf(last, samples), s.reading)
    decreases |samples|
  {
    if samples == [] {
      assert [s][1..] == [];
    } else {
      DeltasSnoc(samples[0].reading, samples[1..], s);
      assert (samples + [s])[1..] == samples[1..] + [s];
    }
  }

  /** No byte is lost or counted twice: the months add up to everything the readings show. */
  lemma {:induction false} MonthsAddUp(l: Ledger, samples: seq<Sample>)
    ensures Fold(l, samples).last == LastOf(l.last, samples)
    ensures Closed(l, samples) + Fold(l, samples).bytes == l.bytes + Deltas(l.last, samples)
  {
    if samples != [] {
      var n := |samples| - 1;
      MonthsAddUp(l, samples[..n]);
      DeltasSnoc(l.last, samples[..n], samples[n]);
      assert samples == samples[..n] + [samples[n]];
    }
  }

  /** One boot of the uplink: the counters never fall and no restart is visible. */
  predicate Segment(first: Reading, samples: seq<Sample>)
    decreases |samples|
  {
    samples == [] || (!Restarted(first, samples[0].reading) && Segment(samples[0].reading, samples[1..]))
  }

  /** Within a boot the total telescopes to last minus first. */
  lemma {:induction false} SegmentTelescopes(first: Reading, samples: seq<Sample>)
    requires Segment(first, samples)
    ensures Deltas(first, samples) == Sum(LastOf(first, samples)) - Sum(first)
    ensures !Restarted(first, LastOf(first, samples))
    decreases |samples|
  {
    if samples != [] {
      SegmentTelescopes(samples[0].reading, samples[1..]);
    }
  }

  function Joined(segments: seq<seq<Sample>>): seq<Sample>
  {
    if segments == [] then [] else segments[0] + Joined(segments[1..])
  }

  /** Later boots, each entered by a visible restart. */
  predicate Boots(last: Reading, segments: seq<seq<Sample>>)
    decreases |segments|
  {
    segments == [] ||
    (&& segments[0] != [] && Restarted(last, segments[0][0].reading)
     && Segment(segments[0][0].reading, segments[0][1..])
     && Boots(LastOf(last, segments[0]), segments[1..]))
  }

  function FinalCounters(segments: seq<seq<Sample>>): nat
  {
    if segments == [] || segments[0] == [] then 0
    else Sum(segments[0][|segments[0]| - 1].reading) + FinalCounters(segments[1..])
  }

  lemma {:induction false} DeltasConcat(last: Reading, a: seq<Sample>, b: seq<Sample>)
    ensures Deltas(last, a + b) == Deltas(last, a) + Deltas(LastOf(last, a), b)
    decreases |a|
  {
    if a == [] {
      assert a + b == b;
    } else {
      DeltasConcat(a[0].reading, a[1..], b);
      assert (a + b)[1..] == a[1..] + b;
    }
  }

  /** Over boots the total is what the first shows beyond its start, plus the final counters of each later one. */
  lemma {:induction false} BootsAddUp(last: Reading, segments: seq<seq<Sample>>)
    requires Boots(last, segments)
    ensures Deltas(last, Joined(segments)) == FinalCounters(segments)
    decreases |segments|
  {
    if segments != [] {
      var s := segments[0];
      DeltasConcat(last, s, Joined(segments[1..]));
      SegmentTelescopes(s[0].reading, s[1..]);
      BootsAddUp(LastOf(last, s), segments[1..]);
    }
  }

  // What the uplink really carried: boots have names, and within one the counters only grow.

  predicate SameBoot(first: Reading, samples: seq<Sample>)
    decreases |samples|
  {
    samples == [] ||
    (&& samples[0].reading.boot == first.boot
     && first.rx <= samples[0].reading.rx && first.tx <= samples[0].reading.tx
     && SameBoot(samples[0].reading, samples[1..]))
  }

  /** Each further boot has another name than the one before, or its counters are below where those ended. */
  predicate LaterBoots(last: Reading, boots: seq<seq<Sample>>)
    decreases |boots|
  {
    boots == [] ||
    (&& boots[0] != []
     && (var r := boots[0][0].reading; r.boot != last.boot || r.rx < last.rx || r.tx < last.tx)
     && SameBoot(boots[0][0].reading, boots[0][1..])
     && LaterBoots(boots[0][|boots[0]| - 1].reading, boots[1..]))
  }

  lemma {:induction false} SameBootSegment(first: Reading, samples: seq<Sample>)
    ensures SameBoot(first, samples) <==> Segment(first, samples)
    decreases |samples|
  {
    if samples != [] {
      SameBootSegment(samples[0].reading, samples[1..]);
    }
  }

  lemma {:induction false} LaterBootsVisible(last: Reading, boots: seq<seq<Sample>>)
    ensures LaterBoots(last, boots) <==> Boots(last, boots)
    decreases |boots|
  {
    if boots != [] && boots[0] != [] {
      var s := boots[0];
      SameBootSegment(s[0].reading, s[1..]);
      LaterBootsVisible(s[|s| - 1].reading, boots[1..]);
    }
  }

  /** What one boot carried after `first`, and all of what the later ones did, is in the months, once. */
  lemma UplinkAddsUp(l: Ledger, samples: seq<Sample>, boots: seq<seq<Sample>>)
    requires SameBoot(l.last, samples) && LaterBoots(LastOf(l.last, samples), boots)
    ensures var all, end := samples + Joined(boots), LastOf(l.last, samples);
            Closed(l, all) + Fold(l, all).bytes
            == l.bytes + (end.rx - l.last.rx) + (end.tx - l.last.tx) + FinalCounters(boots)
  {
    SameBootSegment(l.last, samples);
    LaterBootsVisible(LastOf(l.last, samples), boots);
    SegmentTelescopes(l.last, samples);
    BootsAddUp(LastOf(l.last, samples), boots);
    DeltasConcat(l.last, samples, Joined(boots));
    MonthsAddUp(l, samples + Joined(boots));
  }

  /**
   Within a month, for a reading followed by one of the same boot that is not
   lower, skipping the first makes no difference exactly when the restart it
   would show, if any, still shows in the second.
   */
  lemma SkipIff(l: Ledger, r: Reading, r': Reading, month: Month)
    requires !Restarted(r, r')
    ensures Charge(Charge(l, r, month), r', month) == Charge(l, r', month)
       <==> (Restarted(l.last, r) <==> Restarted(l.last, r'))
  {
  }

  /** So within one month and boot only the last reading matters, whichever earlier ones were taken. */
  lemma {:induction false} OnlyLastMatters(l: Ledger, samples: seq<Sample>, month: Month)
    requires samples != [] && Segment(l.last, samples) && forall s | s in samples :: s.month == month
    ensures Fold(l, samples) == Charge(l, LastOf(l.last, samples), month)
  {
    var n := |samples| - 1;
    SegmentPrefix(l.last, samples, n);
    SegmentTelescopes(l.last, samples);
    if n > 0 {
      OnlyLastMatters(l, samples[..n], month);
      SegmentTelescopes(l.last, samples[..n]);
      SkipIff(l, samples[n - 1].reading, samples[n].reading, month);
    }
  }

  lemma {:induction false} SegmentPrefix(first: Reading, samples: seq<Sample>, n: nat)
    requires Segment(first, samples) && n < |samples|
    ensures Segment(first, samples[..n]) && !Restarted(LastOf(first, samples[..n]), samples[n].reading)
    decreases |samples|
  {
    if n > 0 {
      SegmentPrefix(samples[0].reading, samples[1..], n - 1);
      assert samples[..n][1..] == samples[1..][..n - 1];
    }
  }

  /** The last reading that shows a restart, or -1. */
  function LastRestart(first: Reading, samples: seq<Sample>): (j: int)
    ensures -1 <= j < |samples|
  {
    if samples == [] then -1
    else
      var n := |samples| - 1;
      if Restarted(LastOf(first, samples[..n]), samples[n].reading) then n else LastRestart(first, samples[..n])
  }

  /** What was shown before the last restart, and then the counters as they are now. */
  lemma {:induction false} DeltasFromLastRestart(first: Reading, samples: seq<Sample>)
    ensures var j, last := LastRestart(first, samples), LastOf(first, samples);
            if j < 0 then Deltas(first, samples) == Sum(last) - Sum(first) && !Restarted(first, last)
            else Deltas(first, samples) == Deltas(first, samples[..j]) + Sum(last)
  {
    if samples != [] {
      var n := |samples| - 1;
      DeltasFromLastRestart(first, samples[..n]);
      DeltasSnoc(first, samples[..n], samples[n]);
      assert samples == samples[..n] + [samples[n]];
      var j := LastRestart(first, samples[..n]);
      assert 0 <= j ==> samples[..n][..j] == samples[..j];
    }
  }

  /** Where the readings of the last month begin, since the clock last showed another. */
  function MonthStart(samples: seq<Sample>): (i: nat)
    requires samples != []
    ensures i < |samples|
  {
    var n := |samples| - 1;
    if n == 0 || samples[n - 1].month != samples[n].month then n else MonthStart(samples[..n])
  }

  /**
   The count of a month is what its own readings show, beyond what the ledger had
   of it if no other month came between.
   */
  lemma {:induction false} MonthCount(l: Ledger, samples: seq<Sample>)
    requires samples != []
    ensures var i, month := MonthStart(samples), samples[|samples| - 1].month;
            Fold(l, samples) ==
              Ledger(month,
                     (if i == 0 then Carry(l, month) else 0) + Deltas(LastOf(l.last, samples[..i]), samples[i..]),
                     LastOf(l.last, samples))
  {
    var n, i := |samples| - 1, MonthStart(samples);
    if n > 0 {
      MonthCount(l, samples[..n]);
    }
    if i < n {
      assert samples[..n][..i] == samples[..i] && samples[..n][i..] == samples[i..n];
      assert samples[i..] == samples[i..n] + [samples[n]];
      DeltasSnoc(LastOf(l.last, samples[..i]), samples[i..n], samples[n]);
    } else {
      assert samples[n..] == [samples[n]] && [samples[n]][1..] == [];
    }
  }

  lemma {:induction false} OneMonthStart(samples: seq<Sample>, month: Month)
    requires samples != [] && forall s | s in samples :: s.month == month
    ensures MonthStart(samples) == 0
  {
    var n := |samples| - 1;
    if n > 0 {
      assert samples[n - 1] in samples && samples[n] in samples;
      OneMonthStart(samples[..n], month);
    }
  }

  /**
   How many bytes of the month are forgotten at the reading `x` when the count
   resumes from the ledger `loaded`, if any, and not from `start` and the readings
   `lost`: without a ledger, all the month shows; with one, what the month had
   before its last counter restart and what `loaded` will subtract from the
   counters, less what `loaded` has of the month.
   */
  function LostBytes(loaded: Option<Ledger>, start: Ledger, lost: seq<Sample>, x: Sample): int
  {
    var all := lost + [x];
    var i := MonthStart(all);
    var from, shown := LastOf(start.last, all[..i]), all[i..];
    var opening := if i == 0 then Carry(start, x.month) else 0;
    if loaded.None? then opening + Deltas(from, shown)
    else
      var j := LastRestart(from, shown);
      var before: int := if j < 0 then 0 - Sum(from) else Deltas(from, shown[..j]);
      opening + before
      + (if Restarted(loaded.value.last, x.reading) then 0 else Sum(loaded.value.last))
      - Carry(loaded.value, x.month)
  }

  lemma LostExact(loaded: Option<Ledger>, start: Ledger, lost: seq<Sample>, x: Sample)
    ensures Fold(start, lost + [x]).bytes - (if loaded.None? then 0 else Charge(loaded.value, x.reading, x.month).bytes)
         == LostBytes(loaded, start, lost, x)
  {
    hide MonthStart, LastRestart, Deltas, Fold;
    var all := lost + [x];
    var i := MonthStart(all);
    MonthCount(start, all);
    DeltasFromLastRestart(LastOf(start.last, all[..i]), all[i..]);
    assert all[i..][|all| - i - 1] == x;
  }

  /** Nothing was shown between the ledger and the last restart since, and that restart still shows. */
  predicate Recoverable(l: Ledger, lost: seq<Sample>, x: Sample)
  {
    var j := LastRestart(l.last, lost + [x]);
    j < 0 || (Deltas(l.last, (lost + [x])[..j]) == 0 && (Restarted(l.last, x.reading) || Sum(l.last) == 0))
  }

  /**
   Within a month, forgetting the readings `lost` never counts more, and makes no
   difference to the next one if and only if they are recoverable.
   */
  lemma ForgetIff(l: Ledger, lost: seq<Sample>, x: Sample)
    requires forall s | s in lost :: s.month == x.month
    ensures LostBytes(Some(l), l, lost, x) >= 0
    ensures Fold(l, lost + [x]) == Charge(l, x.reading, x.month) <==> Recoverable(l, lost, x)
  {
    hide LastRestart, Deltas, Fold;
    var all := lost + [x];
    OneMonthStart(all, x.month);
    assert all[..0] == [] && all[0..] == all && LastOf(l.last, all) == x.reading;
    MonthCount(l, all);
    LostExact(Some(l), l, lost, x);
    DeltasFromLastRestart(l.last, all);
  }

  // ---------------------------------------------------------------------
  // Levels
  // ---------------------------------------------------------------------

  datatype Level = Ok | Warn | Capped

  /** `capLevel`; the warning starts at four fifths of the cap. */
  function CapLevel(bytes: nat, capBytes: nat): Level
  {
    if bytes >= capBytes then Capped else if 5 * bytes >= 4 * capBytes then Warn else Level.Ok
  }

  /** Once capped, capped for the rest of the month, whatever the counters do. */
  lemma {:induction false} CappedStays(l: Ledger, samples: seq<Sample>, capBytes: nat)
    requires CapLevel(l.bytes, capBytes) == Capped && forall s | s in samples :: s.month == l.month
    ensures Fold(l, samples).month == l.month && CapLevel(Fold(l, samples).bytes, capBytes) == Capped
  {
    if samples != [] {
      CappedStays(l, samples[..|samples| - 1], capBytes);
      assert samples[|samples| - 1] in samples;
    }
  }

  // ---------------------------------------------------------------------
  // The loop
  // ---------------------------------------------------------------------

  datatype Nft = Done | FailsWithoutEffect | FailsWithEffect

  /** `kernel`: is the throttle installed? `warnings`: the months a warning was logged for. */
  datatype Machine = Machine(
    file: Option<CapState>, state: Option<CapState>, throttled: Option<bool>, kernel: bool, warnings: seq<Month>)

  datatype Event =
    | Tick(reading: Option<Reading>, month: Month, saved: bool, nft: Nft)
    // Of the agent, or of the whole machine, which forgets the kernel's rules. `readable`: is the state file, if any?
    | Restart(reboot: bool, readable: bool)

  /** What a start finds: `null` where the file is absent, corrupt or cannot be read. */
  function Loaded(file: Option<CapState>, readable: bool): Option<CapState> { if readable then file else None }

  function Begin(file: Option<CapState>, readable: bool, kernel: bool, warnings: seq<Month>): Machine
  {
    Machine(file, Loaded(file, readable), None, kernel, warnings)
  }

  function Boot(file: Option<CapState>, kernel: bool, warnings: seq<Month>): Machine
  {
    Begin(file, true, kernel, warnings)
  }

  function Warned(capBytes: nat, next: CapState): CapState
  {
    CapState(next.ledger, next.warned || !CapLevel(next.ledger.bytes, capBytes).Ok?)
  }

  predicate Throttles(capBytes: nat, s: CapState) { CapLevel(s.ledger.bytes, capBytes).Capped? }

  function Step(capBytes: nat, m: Machine, e: Event): Machine
  {
    match e
    case Restart(reboot, readable) => Begin(m.file, readable, m.kernel && !reboot, m.warnings)
    case Tick(reading, month, saved, nft) =>
      if reading.None? then m
      else
        var next := AdvanceCap(m.state, reading.value, month);
        var warns := !CapLevel(next.ledger.bytes, capBytes).Ok? && !next.warned;
        var kept := Warned(capBytes, next);
        var m1 := m.(state := Some(kept), warnings := if warns then m.warnings + [month] else m.warnings);
        if !saved then m1
        else Nfted(m1.(file := Some(kept)), Throttles(capBytes, kept), nft)
  }

  /** Tell the kernel, when it was last told otherwise. */
  function Nfted(m: Machine, throttle: bool, nft: Nft): Machine
  {
    if m.throttled == Some(throttle) then m
    else
      match nft
      case Done => m.(kernel := throttle, throttled := Some(throttle))
      case FailsWithoutEffect => m
      case FailsWithEffect => m.(kernel := throttle)
  }

  function Run(capBytes: nat, m: Machine, es: seq<Event>): Machine
  {
    if es == [] then m else Step(capBytes, Run(capBytes, m, es[..|es| - 1]), es[|es| - 1])
  }

  /** The tick ends without an error. */
  predicate Succeeds(capBytes: nat, m: Machine, e: Event)
  {
    e.Tick? && e.reading.Some? && e.saved
    && (var kept := Warned(capBytes, AdvanceCap(m.state, e.reading.value, e.month));
        e.nft.Done? || m.throttled == Some(Throttles(capBytes, kept)))
  }

  predicate InSync(m: Machine) { m.throttled.Some? ==> m.kernel == m.throttled.value }

  lemma {:induction false} RunInSync(capBytes: nat, file: Option<CapState>, kernel: bool, es: seq<Event>)
    requires forall i | 0 <= i < |es| && es[i].Tick? :: !es[i].nft.FailsWithEffect?
    ensures InSync(Run(capBytes, Boot(file, kernel, []), es))
  {
    if es != [] {
      RunInSync(capBytes, file, kernel, es[..|es| - 1]);
    }
  }

  /**
   After every successful tick the kernel throttles exactly when the month is
   capped, however the kernel was left and however many nft runs failed before,
   as long as a failing run has no effect.
   */
  lemma ThrottleMatchesCap(capBytes: nat, file: Option<CapState>, kernel: bool, es: seq<Event>, e: Event)
    requires forall i | 0 <= i < |es| && es[i].Tick? :: !es[i].nft.FailsWithEffect?
    requires Succeeds(capBytes, Run(capBytes, Boot(file, kernel, []), es), e)
    ensures var m := Run(capBytes, Boot(file, kernel, []), es + [e]);
            m.state.Some? && (m.kernel <==> m.state.value.ledger.bytes >= capBytes)
  {
    RunInSync(capBytes, file, kernel, es);
    assert (es + [e])[..|es|] == es;
  }

  /**
   The exact condition, one successful tick at a time: the kernel must be what the
   loop believes, if it will not be told.
   */
  lemma ThrottleMatchesIff(capBytes: nat, m: Machine, e: Event)
    requires Succeeds(capBytes, m, e)
    ensures var m' := Step(capBytes, m, e);
            (m'.kernel <==> m'.state.value.ledger.bytes >= capBytes)
            <==> (m.throttled == Some(m'.state.value.ledger.bytes >= capBytes) ==> InSync(m))
  {
  }

  /** And it can fail: nft applies the throttle but reports an error, then the month changes. */
  lemma StuckThrottle(r: Reading, r': Reading, r'': Reading)
    requires r'.boot == r''.boot == r.boot && r.rx + 10 <= r'.rx == r''.rx && r.tx == r'.tx == r''.tx
    ensures var es := [Tick(Some(r), 1, true, Done), Tick(Some(r'), 1, true, FailsWithEffect)];
            var e := Tick(Some(r''), 2, true, Done);
            var m := Run(10, Boot(None, false, []), es);
            Succeeds(10, m, e) && Step(10, m, e).kernel && !Throttles(10, Step(10, m, e).state.value)
  {
    var m0 := Boot(None, false, []);
    var a, b := Tick(Some(r), 1, true, Done), Tick(Some(r'), 1, true, FailsWithEffect);
    RunThen(10, m0, [], a);
    RunThen(10, m0, [a], b);
    assert Run(10, m0, []) == m0;
  }

  lemma RunThen(capBytes: nat, m: Machine, es: seq<Event>, e: Event)
    ensures Run(capBytes, m, es + [e]) == Step(capBytes, Run(capBytes, m, es), e)
    ensures es == [] ==> Run(capBytes, m, [e]) == Step(capBytes, m, e)
  {
    hide Step;
    assert (es + [e])[..|es|] == es;
    assert [e][..0] == [];
    assert es == [] ==> es + [e] == [e];
  }

  // ---------------------------------------------------------------------
  // One warning a month
  // ---------------------------------------------------------------------

  predicate Rising(ms: seq<Month>) { forall i, j | 0 <= i < j < |ms| :: ms[i] < ms[j] }

  predicate Marked(s: Option<CapState>, month: Month) { s.Some? && s.value.ledger.month == month && s.value.warned }

  /** Every warning so far is for `month` or earlier, and one for `month` is remembered by the process. */
  predicate WarnedUpTo(m: Machine, month: Month)
  {
    && Rising(m.warnings) && (forall i | 0 <= i < |m.warnings| :: m.warnings[i] <= month)
    && (month in m.warnings ==> Marked(m.state, month))
  }

  /** A warning for `month` is remembered by the state `s`. */
  predicate Remembered(m: Machine, month: Month, s: Option<CapState>) { month in m.warnings ==> Marked(s, month) }

  lemma RisingSnoc(ms: seq<Month>, x: Month)
    requires Rising(ms) && forall i | 0 <= i < |ms| :: ms[i] < x
    ensures Rising(ms + [x])
  {
  }

  /** A tick keeps this whatever becomes of its save; a restart keeps it if and only if what it loads remembers. */
  lemma WarningStep(capBytes: nat, m: Machine, e: Event, floor: Month)
    requires WarnedUpTo(m, floor) && (e.Tick? ==> floor <= e.month)
    ensures WarnedUpTo(Step(capBytes, m, e), if e.Tick? && e.reading.Some? then e.month else floor)
       <==> (e.Restart? ==> Remembered(m, floor, Loaded(m.file, e.readable)))
  {
    hide Rising, Delta;
    if e.Tick? && e.reading.Some? {
      var next := AdvanceCap(m.state, e.reading.value, e.month);
      if !CapLevel(next.ledger.bytes, capBytes).Ok? && !next.warned {
        assert e.month !in m.warnings;
        RisingSnoc(m.warnings, e.month);
      }
    }
  }

  /** And where it does not remember, the same month can be warned about again. */
  lemma ForgottenWarningRepeats(capBytes: nat, m: Machine, floor: Month, again: Event) returns (es: seq<Event>)
    requires WarnedUpTo(m, floor) && again.Restart? && !Remembered(m, floor, Loaded(m.file, again.readable))
    ensures forall e | e in es :: e.Tick? && e.month == floor && e.saved
    ensures !Sequences.Distinct(Run(capBytes, Step(capBytes, m, again), es).warnings)
  {
    var r := Step(capBytes, m, again);
    var boot := if r.state.Some? then r.state.value.ledger.last.boot + "'" else "";
    var e := Tick(Some(Reading(capBytes, 0, boot)), floor, true, Done);
    var first := Tick(Some(Reading(0, 0, boot)), floor, true, Done);
    es := if r.state.Some? then [e] else [first, e];
    RunThen(capBytes, r, [], if r.state.Some? then e else first);
    RunThen(capBytes, r, [first], e);
    assert [] + [e] == [e] && [first] + [e] == [first, e];
    RepeatedWarning(capBytes, m, floor, again, r, first, e);
  }

  lemma RepeatedWarning(capBytes: nat, m: Machine, floor: Month, again: Event, r: Machine, first: Event, e: Event)
    requires WarnedUpTo(m, floor) && again.Restart? && !Remembered(m, floor, Loaded(m.file, again.readable))
    requires r == Step(capBytes, m, again)
    requires var boot := if r.state.Some? then r.state.value.ledger.last.boot + "'" else "";
             && e == Tick(Some(Reading(capBytes, 0, boot)), floor, true, Done)
             && first == Tick(Some(Reading(0, 0, boot)), floor, true, Done)
    ensures !Sequences.Distinct(Step(capBytes, if r.state.Some? then r else Step(capBytes, r, first), e).warnings)
  {
    var i :| 0 <= i < |m.warnings| && m.warnings[i] == floor;
    var before := if r.state.Some? then r else Step(capBytes, r, first);
    var w := Step(capBytes, before, e).warnings;
    if r.state.Some? {
      assert |r.state.value.ledger.last.boot + "'"| != |r.state.value.ledger.last.boot|;
    }
    assert w == m.warnings + [floor];
    assert w[i] == w[|m.warnings|];
  }

  /**
   Such a run: the warning is logged, its save fails, the agent restarts, and the
   same month is warned about twice.
   */
  lemma SecondWarning(r: Reading, r': Reading)
    requires r'.boot == r.boot && r'.rx == r.rx + 10 && r'.tx == r.tx
    ensures var es := [Tick(Some(r), 1, true, Done), Tick(Some(r'), 1, false, Done), Restart(false, true),
                       Tick(Some(r'), 1, true, Done)];
            Run(10, Boot(None, false, []), es).warnings == [1, 1]
  {
    var m0, again := Boot(None, false, []), Restart(false, true);
    var a, b, d := Tick(Some(r), 1, true, Done), Tick(Some(r'), 1, false, Done), Tick(Some(r'), 1, true, Done);
    RunThen(10, m0, [], a);
    RunThen(10, m0, [a], b);
    RunThen(10, m0, [a, b], again);
    RunThen(10, m0, [a, b, again], d);
    assert [a] + [b] == [a, b] && [a, b] + [again] == [a, b, again] && [a, b, again] + [d] == [a, b, again, d];
    var m1 := Step(10, m0, a);
    var m2 := Step(10, m1, b);
    assert m2.warnings == [1] && m2.file == m1.file == Some(CapState(Ledger(1, 0, r), false));
  }

  /**
   And a clock that goes back over the end of a month: both months pass the cap,
   then the first is warned about again.
   */
  lemma ClockBackWarnsAgain(r: Reading, r1: Reading, r2: Reading, r3: Reading)
    requires r.boot == r1.boot == r2.boot == r3.boot && r.tx == r1.tx == r2.tx == r3.tx
    requires r1.rx == r.rx + 10 && r2.rx == r1.rx + 10 && r3.rx == r2.rx + 10
    ensures var es := [Tick(Some(r), 1, true, Done), Tick(Some(r1), 1, true, Done), Tick(Some(r2), 2, true, Done),
                       Tick(Some(r3), 1, true, Done)];
            Run(10, Boot(None, false, []), es).warnings == [1, 2, 1]
  {
    hide Step, Run;
    var m0 := Boot(None, false, []);
    var a, b, c, d := Tick(Some(r), 1, true, Done), Tick(Some(r1), 1, true, Done), Tick(Some(r2), 2, true, Done),
      Tick(Some(r3), 1, true, Done);
    RunThen(10, m0, [], a);
    RunThen(10, m0, [a], b);
    RunThen(10, m0, [a, b], c);
    RunThen(10, m0, [a, b, c], d);
    assert [] + [a] == [a];
    assert [a] + [b] == [a, b] && [a, b] + [c] == [a, b, c] && [a, b, c] + [d] == [a, b, c, d];
    var m1 := Step(10, m0, a);
    assert m1.warnings == [] && m1.state == Some(CapState(Ledger(1, 0, r), false)) by { FirstTick(m0, r, 1); }
    TenMore(m1, r1, 1);
    TenMore(Step(10, m1, b), r2, 2);
    TenMore(Step(10, Step(10, m1, b), c), r3, 1);
  }

  lemma FirstTick(m: Machine, r: Reading, month: Month)
    requires m.state.None?
    ensures var m' := Step(10, m, Tick(Some(r), month, true, Done));
            m'.warnings == m.warnings && m'.state == Some(CapState(Ledger(month, 0, r), false))
  {
  }

  /** With a cap of ten bytes, ten more in a month without any are a warning. */
  lemma TenMore(m: Machine, r: Reading, month: Month)
    requires m.state.Some? && m.state.value.ledger.last == r.(rx := m.state.value.ledger.last.rx)
             && r.rx == m.state.value.ledger.last.rx + 10
    requires m.state.value.ledger.month != month || (m.state.value.ledger.bytes == 0 && !m.state.value.warned)
    ensures var m' := Step(10, m, Tick(Some(r), month, true, Done));
            m'.warnings == m.warnings + [month] && m'.state.Some? && m'.state.value.ledger.month == month
            && m'.state.value.ledger.last == r
  {
  }

  /** The month of the last reading taken. */
  function LastMonth(es: seq<Event>): Month
  {
    if es == [] then 0
    else
      var e := es[|es| - 1];
      if e.Tick? && e.reading.Some? then e.month else LastMonth(es[..|es| - 1])
  }

  /** The clock never goes back to an earlier month. */
  predicate InOrder(es: seq<Event>)
  {
    forall i, j | 0 <= i < j < |es| && es[i].Tick? && es[j].Tick? :: es[i].month <= es[j].month
  }

  lemma {:induction false} LastMonthLow(es: seq<Event>, bound: Month)
    requires forall i | 0 <= i < |es| && es[i].Tick? :: es[i].month <= bound
    ensures LastMonth(es) <= bound
  {
    if es != [] {
      LastMonthLow(es[..|es| - 1], bound);
    }
  }

  /** Every restart loads a state that remembers the warning of the month, if there was one. */
  predicate RestartsRemember(capBytes: nat, m: Machine, es: seq<Event>)
  {
    es == [] ||
    var n := |es| - 1;
    var before := Run(capBytes, m, es[..n]);
    && RestartsRemember(capBytes, m, es[..n])
    && (es[n].Restart? ==> Remembered(before, LastMonth(es[..n]), Loaded(before.file, es[n].readable)))
  }

  lemma {:induction false} RunWarned(capBytes: nat, file: Option<CapState>, kernel: bool, es: seq<Event>)
    requires InOrder(es) && RestartsRemember(capBytes, Boot(file, kernel, []), es)
    ensures WarnedUpTo(Run(capBytes, Boot(file, kernel, []), es), LastMonth(es))
  {
    hide WarnedUpTo, Step, Remembered;
    if es == [] {
      NoWarnings(file, kernel);
    } else {
      var n := |es| - 1;
      RunWarned(capBytes, file, kernel, es[..n]);
      if es[n].Tick? {
        LastMonthLow(es[..n], es[n].month);
      }
      WarningStep(capBytes, Run(capBytes, Boot(file, kernel, []), es[..n]), es[n], LastMonth(es[..n]));
    }
  }

  lemma NoWarnings(file: Option<CapState>, kernel: bool)
    ensures WarnedUpTo(Boot(file, kernel, []), 0)
  {
  }

  /**
   At most one warning is logged for a month, over any ticks, failed saves,
   failed nft runs and agent restarts, as long as each restart finds the warning
   remembered. A restart that can read what a save that succeeded wrote always does.
   */
  lemma OneWarningAMonth(capBytes: nat, file: Option<CapState>, kernel: bool, es: seq<Event>)
    requires InOrder(es) && RestartsRemember(capBytes, Boot(file, kernel, []), es)
    ensures Sequences.Distinct(Run(capBytes, Boot(file, kernel, []), es).warnings)
    ensures var m := Run(capBytes, Boot(file, kernel, []), es);
            m.file == m.state ==> Remembered(m, LastMonth(es), m.file)
  {
    RunWarned(capBytes, file, kernel, es);
  }

  /** At tick `i` a reading of `month` was taken and its count had reached four fifths of the cap. */
  ghost predicate DueAt(capBytes: nat, m: Machine, es: seq<Event>, i: nat, month: Month)
  {
    && i < |es| && es[i].Tick? && es[i].reading.Some? && es[i].month == month
    && 5 * Bytes(Run(capBytes, m, es[..i + 1])) >= 4 * capBytes
  }

  /** What the process or the file remembers of a warning was logged. */
  ghost predicate MarksLogged(m: Machine)
  {
    forall month :: Marked(m.state, month) || Marked(m.file, month) ==> month in m.warnings
  }

  lemma WarnsWhenDue(capBytes: nat, m: Machine, e: Event)
    requires MarksLogged(m)
    ensures var m' := Step(capBytes, m, e);
            && MarksLogged(m') && m.warnings <= m'.warnings
            && forall month :: month in m'.warnings
                 <==> || month in m.warnings
                      || (e.Tick? && e.reading.Some? && e.month == month && 5 * Bytes(m') >= 4 * capBytes)
  {
    hide Delta;
  }

  /**
   A month is warned about if and only if some reading finds its count at four
   fifths of the cap: over any ticks, failures and restarts, from a file that
   remembers no warning.
   */
  lemma {:induction false} WarnedIffDue(
      capBytes: nat, file: Option<CapState>, kernel: bool, es: seq<Event>, month: Month)
    requires file.Some? ==> !file.value.warned
    ensures var m := Boot(file, kernel, []);
            month in Run(capBytes, m, es).warnings <==> exists i: nat :: DueAt(capBytes, m, es, i, month)
    ensures MarksLogged(Run(capBytes, Boot(file, kernel, []), es))
  {
    hide Step, Marked;
    var m := Boot(file, kernel, []);
    if es == [] {
      assert MarksLogged(m) by { NothingMarked(file, kernel); }
    } else {
      var n := |es| - 1;
      WarnedIffDue(capBytes, file, kernel, es[..n], month);
      hide MarksLogged, Bytes;
      WarnsWhenDue(capBytes, Run(capBytes, m, es[..n]), es[n]);
      assert es[..n + 1] == es;
      forall i: nat | i < n ensures DueAt(capBytes, m, es, i, month) <==> DueAt(capBytes, m, es[..n], i, month) {
        assert es[..n][..i + 1] == es[..i + 1];
      }
      if month in Run(capBytes, m, es).warnings && month !in Run(capBytes, m, es[..n]).warnings {
        assert DueAt(capBytes, m, es, n, month);
      }
    }
  }

  lemma NothingMarked(file: Option<CapState>, kernel: bool)
    requires file.Some? ==> !file.value.warned
    ensures MarksLogged(Boot(file, kernel, []))
  {
  }

  // ---------------------------------------------------------------------
  // The loop accounts for every reading
  // ---------------------------------------------------------------------

  function SamplesOf(es: seq<Event>): seq<Sample>
  {
    if es == [] then []
    else
      var e := es[|es| - 1];
      SamplesOf(es[..|es| - 1]) + if e.Tick? && e.reading.Some? then [Sample(e.reading.value, e.month)] else []
  }

  lemma StepLedger(capBytes: nat, m: Machine, e: Event)
    requires m.state.Some? && (e.Restart? ==> Loaded(m.file, e.readable) == m.state)
    ensures var m' := Step(capBytes, m, e);
            && m'.state.Some?
            && m'.state.value.ledger ==
                 if e.Tick? && e.reading.Some? then Charge(m.state.value.ledger, e.reading.value, e.month)
                 else m.state.value.ledger
  {
  }

  /** Every restart loads the last state. */
  predicate RestartsSaved(capBytes: nat, m: Machine, es: seq<Event>)
  {
    es == [] ||
    var n := |es| - 1;
    var before := Run(capBytes, m, es[..n]);
    RestartsSaved(capBytes, m, es[..n]) && (es[n].Restart? ==> Loaded(before.file, es[n].readable) == before.state)
  }

  /** When each restart loads the last state, nothing is lost: the ledger is the fold of all readings. */
  lemma {:induction false} RestartsLoseNothing(capBytes: nat, s: CapState, kernel: bool, es: seq<Event>)
    requires RestartsSaved(capBytes, Boot(Some(s), kernel, []), es)
    ensures var m := Run(capBytes, Boot(Some(s), kernel, []), es);
            m.state.Some? && m.state.value.ledger == Fold(s.ledger, SamplesOf(es))
  {
    hide Step, Charge;
    if es != [] {
      var n := |es| - 1;
      RestartsLoseNothing(capBytes, s, kernel, es[..n]);
      StepLedger(capBytes, Run(capBytes, Boot(Some(s), kernel, []), es[..n]), es[n]);
      var before := SamplesOf(es[..n]);
      if es[n].Tick? && es[n].reading.Some? {
        var x := Sample(es[n].reading.value, es[n].month);
        assert (before + [x])[..|before|] == before;
      } else {
        assert SamplesOf(es) == before;
      }
    }
  }

  function LedgerOf(s: Option<CapState>): Option<Ledger> { if s.Some? then Some(s.value.ledger) else None }

  /**
   Any restart, after any readings `lost` since the ledger `start`, and the next
   reading: it is exactly `LostBytes` short of what it would have counted without
   the restart. Where the file holds `start` and all is in one month, that is
   nothing if and only if the readings are recoverable. With nothing in memory
   there is nothing to lose.
   */
  lemma RestartLosesIff(capBytes: nat, m: Machine, again: Event, start: Ledger, lost: seq<Sample>, x: Sample,
                        saved: bool, nft: Nft)
    requires again.Restart? && (m.state.Some? ==> m.state.value.ledger == Fold(start, lost))
    ensures var e, loaded := Tick(Some(x.reading), x.month, saved, nft), LedgerOf(Loaded(m.file, again.readable));
            var here, there := Step(capBytes, Step(capBytes, m, again), e).state, Step(capBytes, m, e).state;
            && here.Some? && there.Some?
            && if m.state.None? then there.value.ledger.bytes == 0
               else
                 && there.value.ledger.bytes - here.value.ledger.bytes == LostBytes(loaded, start, lost, x)
                 && (here.value.ledger == there.value.ledger <==> LostBytes(loaded, start, lost, x) == 0)
    ensures LedgerOf(Loaded(m.file, again.readable)) == Some(start) && (forall s | s in lost :: s.month == x.month) ==>
              && LostBytes(Some(start), start, lost, x) >= 0
              && (LostBytes(Some(start), start, lost, x) == 0 <==> Recoverable(start, lost, x))
  {
    hide Recoverable, Delta, LostBytes, Step, Fold;
    NextLedger(capBytes, m, x, saved, nft);
    NextLedger(capBytes, Step(capBytes, m, again), x, saved, nft);
    RestartLoads(capBytes, m, again);
    FoldThen(start, lost, x);
    var loaded := LedgerOf(Loaded(m.file, again.readable));
    LostExact(loaded, start, lost, x);
    if loaded == Some(start) && forall s | s in lost :: s.month == x.month {
      ForgetIff(start, lost, x);
    }
  }

  lemma NextLedger(capBytes: nat, m: Machine, x: Sample, saved: bool, nft: Nft)
    ensures var m' := Step(capBytes, m, Tick(Some(x.reading), x.month, saved, nft));
            m'.state.Some? && m'.state.value.ledger ==
              if m.state.Some? then Charge(m.state.value.ledger, x.reading, x.month) else Ledger(x.month, 0, x.reading)
  {
  }

  lemma RestartLoads(capBytes: nat, m: Machine, again: Event)
    requires again.Restart?
    ensures Step(capBytes, m, again).state == Loaded(m.file, again.readable)
  {
  }

  lemma FoldThen(l: Ledger, samples: seq<Sample>, x: Sample)
    ensures Fold(l, samples + [x]) == Charge(Fold(l, samples), x.reading, x.month)
  {
    assert (samples + [x])[..|samples|] == samples;
  }

  /**
   A run that does lose: ten bytes shown and saved, thirty shown and not saved,
   then a reboot. Of the 25 bytes seen since the first reading only five count.
   */
  lemma SeenBytesLost(capBytes: nat, r: Reading, r1: Reading, r2: Reading)
    requires capBytes > 100 && r.rx == 10 && r1.rx == 30 && r2.rx == 5 && r.tx == r1.tx == r2.tx == 0
    requires r.boot == r1.boot != r2.boot
    ensures var m := Run(capBytes, Boot(None, false, []), [Tick(Some(r), 1, true, Done)]);
            var failed, kept := Tick(Some(r1), 1, false, Done), Tick(Some(r1), 1, true, Done);
            var after := [Restart(true, true), Tick(Some(r2), 1, true, Done)];
            && Bytes(Run(capBytes, m, [failed] + after)) == 5 && Bytes(Run(capBytes, m, [kept] + after)) == 25
  {
    hide Run;
    var first, failed, kept, last := Tick(Some(r), 1, true, Done), Tick(Some(r1), 1, false, Done),
                                     Tick(Some(r1), 1, true, Done), Tick(Some(r2), 1, true, Done);
    RunThen(capBytes, Boot(None, false, []), [], first);
    assert [] + [first] == [first];
    var m := Run(capBytes, Boot(None, false, []), [first]);
    assert m.state == m.file == Some(CapState(Ledger(1, 0, r), false));
    ThreeEvents(capBytes, m, failed, Restart(true, true), last);
    ThreeEvents(capBytes, m, kept, Restart(true, true), last);
  }

  /**
   Without a reboot: before any save has succeeded, or where the file cannot be
   read, a restart begins again at zero, and none of the 20 bytes seen counts.
   */
  lemma CountBeginsAgain(capBytes: nat, r: Reading, r1: Reading)
    requires capBytes > 100 && r.rx == 10 && r1.rx == 30 && r.tx == r1.tx == 0 && r.boot == r1.boot
    ensures var unsaved, first, last := Tick(Some(r), 1, false, Done), Tick(Some(r), 1, true, Done),
                                        Tick(Some(r1), 1, true, Done);
            var m := Boot(None, false, []);
            && Bytes(Run(capBytes, m, [unsaved] + [Restart(false, true), last])) == 0
            && Bytes(Run(capBytes, m, [first] + [Restart(false, false), last])) == 0
            && Bytes(Run(capBytes, m, [first] + [Restart(false, true), last])) == 20
  {
    hide Run;
    var unsaved, first, last := Tick(Some(r), 1, false, Done), Tick(Some(r), 1, true, Done),
      Tick(Some(r1), 1, true, Done);
    var m := Boot(None, false, []);
    ThreeEvents(capBytes, m, unsaved, Restart(false, true), last);
    ThreeEvents(capBytes, m, first, Restart(false, false), last);
    ThreeEvents(capBytes, m, first, Restart(false, true), last);
  }

  function Bytes(m: Machine): nat { if m.state.Some? then m.state.value.ledger.bytes else 0 }

  lemma ThreeEvents(capBytes: nat, m: Machine, a: Event, b: Event, c: Event)
    ensures Run(capBytes, m, [a] + [b, c]) == Step(capBytes, Step(capBytes, Step(capBytes, m, a), b), c)
  {
    hide Step;
    RunThen(capBytes, m, [], a);
    RunThen(capBytes, m, [a], b);
    RunThen(capBytes, m, [a, b], c);
    assert [] + [a] == [a] && [a] + [b] == [a, b] && [a, b] + [c] == [a] + [b, c];
  }

  /** The ledger `l` is `s`, or `s` with one of the readings so far. */
  ghost predicate Behind(s: Ledger, samples: seq<Sample>, month: Month, l: Ledger)
  {
    l == s || exists k | 0 <= k < |samples| :: l == Charge(s, samples[k].reading, month)
  }

  lemma {:induction false} SegmentPair(first: Reading, samples: seq<Sample>, k: nat, n: nat)
    requires Segment(first, samples) && k <= n < |samples|
    ensures !Restarted(samples[k].reading, samples[n].reading) && !Restarted(first, samples[n].reading)
  {
    SegmentPrefix(first, samples, n);
    if n > 0 {
      SegmentPair(first, samples, if k < n then k else n - 1, n - 1);
    }
  }

  /** Within one month and boot, every ledger left behind catches up at the next reading. */
  lemma CatchesUp(s: Ledger, samples: seq<Sample>, n: nat, month: Month, l: Ledger)
    requires Segment(s.last, samples) && n < |samples| && Behind(s, samples[..n], month, l)
    ensures Charge(l, samples[n].reading, month) == Charge(s, samples[n].reading, month)
  {
    if l != s {
      var k :| 0 <= k < n && l == Charge(s, samples[..n][k].reading, month);
      SegmentPair(s.last, samples, k, n);
      SegmentPair(s.last, samples, k, k);
      SkipIff(s, samples[k].reading, samples[n].reading, month);
    }
  }

  ghost predicate BothBehind(s: Ledger, samples: seq<Sample>, month: Month, m: Machine)
  {
    && m.file.Some? && m.state.Some?
    && Behind(s, samples, month, m.file.value.ledger) && Behind(s, samples, month, m.state.value.ledger)
  }

  lemma BehindMore(s: Ledger, samples: seq<Sample>, x: Sample, month: Month, l: Ledger)
    ensures Behind(s, samples, month, l) ==> Behind(s, samples + [x], month, l)
    ensures Behind(s, samples + [x], month, Charge(s, x.reading, month))
  {
    if Behind(s, samples, month, l) && l != s {
      var k :| 0 <= k < |samples| && l == Charge(s, samples[k].reading, month);
      assert (samples + [x])[k] == samples[k];
    }
    assert (samples + [x])[|samples|] == x;
  }

  /** All ticks are in `month`, and every restart can read the state file. */
  predicate InMonth(es: seq<Event>, month: Month)
  {
    forall i | 0 <= i < |es| :: if es[i].Tick? then es[i].month == month else es[i].readable
  }

  lemma {:induction false} RunBehind(capBytes: nat, s: CapState, kernel: bool, es: seq<Event>, month: Month)
    requires Segment(s.ledger.last, SamplesOf(es)) && InMonth(es, month)
    ensures BothBehind(s.ledger, SamplesOf(es), month, Run(capBytes, Boot(Some(s), kernel, []), es))
    ensures es != [] && es[|es| - 1].Tick? && es[|es| - 1].reading.Some? ==>
              Run(capBytes, Boot(Some(s), kernel, []), es).state.value.ledger
              == Charge(s.ledger, es[|es| - 1].reading.value, month)
  {
    hide Charge, Segment;
    if es != [] {
      var n := |es| - 1;
      var samples, before := SamplesOf(es), SamplesOf(es[..n]);
      assert samples == before || samples == before + [samples[|before|]];
      if samples != before {
        SegmentPrefix(s.ledger.last, samples, |before|);
        assert samples[..|before|] == before;
      }
      RunBehind(capBytes, s, kernel, es[..n], month);
      StepBehind(capBytes, s.ledger, samples, month, Run(capBytes, Boot(Some(s), kernel, []), es[..n]), es[n]);
      hide Step, SamplesOf, BothBehind;
    }
  }

  lemma StepBehind(capBytes: nat, s: Ledger, samples: seq<Sample>, month: Month, m: Machine, e: Event)
    requires if e.Tick? then e.month == month else e.readable
    requires Segment(s.last, samples)
    requires if e.Tick? && e.reading.Some? then
               && samples != [] && samples[|samples| - 1] == Sample(e.reading.value, month)
               && BothBehind(s, samples[..|samples| - 1], month, m)
             else BothBehind(s, samples, month, m)
    ensures BothBehind(s, samples, month, Step(capBytes, m, e))
    ensures e.Tick? && e.reading.Some? ==>
              Step(capBytes, m, e).state.value.ledger == Charge(s, e.reading.value, month)
  {
    hide Charge, Segment, Behind;
    if e.Tick? && e.reading.Some? {
      var n := |samples| - 1;
      CatchesUp(s, samples, n, month, m.state.value.ledger);
      BehindMore(s, samples[..n], samples[n], month, m.file.value.ledger);
      assert samples == samples[..n] + [samples[n]];
    }
  }

  /**
   Within one month and boot, from a saved state, a reading accounts for everything,
   whatever saves failed since and however often the agent restarted and read it.
   */
  lemma OneBootLosesNothing(capBytes: nat, s: CapState, kernel: bool, es: seq<Event>, month: Month)
    requires Segment(s.ledger.last, SamplesOf(es)) && InMonth(es, month)
    requires es != [] && es[|es| - 1].Tick? && es[|es| - 1].reading.Some?
    ensures var m := Run(capBytes, Boot(Some(s), kernel, []), es);
            m.state.Some? && m.state.value.ledger == Fold(s.ledger, SamplesOf(es))
  {
    RunBehind(capBytes, s, kernel, es, month);
    SamplesMonth(es, month);
    OnlyLastMatters(s.ledger, SamplesOf(es), month);
  }

  lemma {:induction false} SamplesMonth(es: seq<Event>, month: Month)
    requires forall i | 0 <= i < |es| && es[i].Tick? :: es[i].month == month
    ensures forall x | x in SamplesOf(es) :: x.month == month
  {
    if es != [] {
      SamplesMonth(es[..|es| - 1], month);
    }
  }

  // ---------------------------------------------------------------------
  // The class
  // ---------------------------------------------------------------------

  class TrafficCapLoop {
    const capBytes: nat
    var state: Option<CapState>
    var throttled: Option<bool>
    /** The state file and the kernel's nftables, which outlive the process. */
    var file: Option<CapState>
    var kernel: bool
    var warnings: seq<Month>

    ghost function View(): Machine
      reads this
    {
      Machine(file, state, throttled, kernel, warnings)
    }

    constructor (capBytes: nat, file: Option<CapState>, readable: bool, kernel: bool)
      ensures this.capBytes == capBytes && View() == Begin(file, readable, kernel, [])
    {
      this.capBytes, this.file, this.kernel := capBytes, file, kernel;
      state, throttled, warnings := Loaded(file, readable), None, [];
    }

    method RunNft(throttle: bool, nft: Nft) returns (ok: bool)
      modifies this`kernel
      ensures kernel == (if nft.FailsWithoutEffect? then old(kernel) else throttle) && ok == nft.Done?
    {
      if nft.FailsWithoutEffect? {
        return false;
      }
      kernel := throttle;
      ok := nft.Done?;
    }

    /** `tick`; `None` when it throws. */
    method DoTick(reading: Option<Reading>, month: Month, saved: bool, nft: Nft) returns (r: Option<Level>)
      modifies this
      ensures View() == Step(capBytes, old(View()), Tick(reading, month, saved, nft))
      ensures r.Some? <==> Succeeds(capBytes, old(View()), Tick(reading, month, saved, nft))
      ensures r.Some? ==> state.Some? && r.value == CapLevel(state.value.ledger.bytes, capBytes)
    {
      if reading.None? {
        return None;
      }
      var next := AdvanceCap(state, reading.value, month);
      var level := CapLevel(next.ledger.bytes, capBytes);
      if level != Level.Ok && !next.warned {
        warnings := warnings + [month];
        next := next.(warned := true);
      }
      state := Some(next);
      if !saved {
        return None;
      }
      file := Some(next);
      var throttle := level == Capped;
      if throttled != Some(throttle) {
        var ok := RunNft(throttle, nft);
        if !ok {
          return None;
        }
        throttled := Some(throttle);
      }
      return Some(level);
    }
  }
}
