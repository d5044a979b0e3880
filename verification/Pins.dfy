/**
 Rollback marks of a pinned name (packages/client/src/overlay/pins.ts, and the
 decision in packages/client/src/overlay/verify.ts that reads and raises them).
 */
module Pins {
  import opened Wrappers
  import opened Sequences
  import opened Bytes
  import opened Text
  import opened Grants
  import GrantChains
  import DomainKey
  import KeyAgreement

  const MAX_SERIALS_PER_PIN := 256

  /** An issuer and a subject, or a signer and the key it certifies; as text, two hexadecimal numbers. */
  type SerialKey = (Key, Key)

  datatype Serial = Serial(key: SerialKey, serial: nat)

  /** A JavaScript map: its values, and its keys in the order they were last inserted. */
  datatype Marks = Marks(order: seq<SerialKey>, value: map<SerialKey, nat>)
  {
    ghost predicate Valid() { Distinct(order) && Elements(order) == value.Keys }

    function Mark(k: SerialKey): nat { if k in value then value[k] else 0 }
  }

  const NO_MARKS := Marks([], map[])

  function Max(a: nat, b: nat): nat { if a < b then b else a }

  /** Deleted and set again, so that the key moves to the most recent end. */
  function Raise(m: Marks, s: Serial): Marks
  {
    Marks(Without(m.order, s.key) + [s.key], m.value[s.key := Max(m.Mark(s.key), s.serial)])
  }

  function RaiseEach(m: Marks, ss: seq<Serial>): Marks
  {
    if ss == [] then m else Raise(RaiseEach(m, ss[..|ss| - 1]), ss[|ss| - 1])
  }

  /** The most recently raised. */
  function Recent(m: Marks): Marks
  {
    if |m.order| <= MAX_SERIALS_PER_PIN then m
    else
      var kept := m.order[|m.order| - MAX_SERIALS_PER_PIN..];
      Marks(kept, map k | k in m.value && k in kept :: m.value[k])
  }

  /** `raiseSerials` */
  method RaiseSerials(current: Marks, serials: seq<Serial>) returns (r: Marks)
    requires current.Valid()
    ensures r == Recent(RaiseEach(current, serials)) && r.Valid() && |r.order| <= MAX_SERIALS_PER_PIN
  {
    r := current;
    for i := 0 to |serials|
      invariant r == RaiseEach(current, serials[..i])
    {
      assert serials[..i + 1][..i] == serials[..i];
      r := Raise(r, serials[i]);
    }
    assert serials[..|serials|] == serials;
    RaiseEachValid(current, serials);
    RecentValid(r);
    r := Recent(r);
  }

  lemma RaiseValid(m: Marks, s: Serial)
    requires m.Valid()
    ensures Raise(m, s).Valid() && |Raise(m, s).order| >= |m.order|
  {
    WithoutDistinct(m.order, s.key);
    var rest := Without(m.order, s.key);
    assert forall i | 0 <= i < |rest| :: rest[i] in rest;
    assert Elements(rest + [s.key]) == m.value.Keys + {s.key};
  }

  lemma {:induction false} RaiseEachValid(m: Marks, ss: seq<Serial>)
    requires m.Valid()
    ensures RaiseEach(m, ss).Valid() && |RaiseEach(m, ss).order| >= |m.order|
  {
    if ss != [] {
      RaiseEachValid(m, ss[..|ss| - 1]);
      RaiseValid(RaiseEach(m, ss[..|ss| - 1]), ss[|ss| - 1]);
    }
  }

  lemma RecentValid(m: Marks)
    requires m.Valid()
    ensures Recent(m).Valid()
  {
    if |m.order| > MAX_SERIALS_PER_PIN {
      var kept := Recent(m).order;
      forall k | k in kept ensures k in m.value { assert k in Elements(m.order); }
      assert Elements(kept) == Recent(m).value.Keys;
    }
  }

  // ---------------------------------------------------------------------
  // A pin over its whole life
  // ---------------------------------------------------------------------

  datatype Pin = Pin(domainKey: Key, marks: Marks)

  /**
   `raised` lists the keys raised under this pin and domain key, oldest first;
   `resets` counts the losses of all marks.
   */
  datatype World = World(pin: Option<Pin>, raised: seq<SerialKey>, resets: nat)

  const FIRST_USE := World(None, [], 0)

  datatype Event =
    | Contact(domainKey: Key, linked: bool, verified: bool, serials: seq<Serial>)
      // `linked`: rotations lead here from the pinned key; `verified`: all but the serials
    | Forget

  function MarksOf(w: World): Marks { if w.pin.Some? then w.pin.value.marks else NO_MARKS }

  /** No serial is below its mark. */
  predicate Fresh(m: Marks, ss: seq<Serial>) { forall s | s in ss :: s.key in m.value ==> m.value[s.key] <= s.serial }

  predicate SameKey(w: World, key: Key) { w.pin.Some? && w.pin.value.domainKey == key }

  predicate Accepted(w: World, e: Event)
  {
    e.Contact? && (w.pin.None? || SameKey(w, e.domainKey) || e.linked) && e.verified && Fresh(MarksOf(w), e.serials)
  }

  function Names(ss: seq<Serial>): seq<SerialKey> { seq(|ss|, i requires 0 <= i < |ss| => ss[i].key) }

  /** `verifyOverlay` on the pin on disk, and `forget`. */
  function Step(w: World, e: Event): World
  {
    if e.Forget? then World(None, [], w.resets + 1)
    else if !Accepted(w, e) then w
    else
      var start := if SameKey(w, e.domainKey) then w else World(w.pin, [], w.resets + 1);
      var marks := if SameKey(w, e.domainKey) then MarksOf(w) else NO_MARKS;
      World(Some(Pin(e.domainKey, Recent(RaiseEach(marks, e.serials)))), start.raised + Names(e.serials), start.resets)
  }

  function Run(es: seq<Event>): World
  {
    if es == [] then FIRST_USE else Step(Run(es[..|es| - 1]), es[|es| - 1])
  }

  // ---------------------------------------------------------------------
  // The marks kept are those of the 256 keys raised last
  // ---------------------------------------------------------------------

  /** Each key once, in the order of its last occurrence. */
  function Recency(ks: seq<SerialKey>): seq<SerialKey>
  {
    if ks == [] then [] else Without(Recency(ks[..|ks| - 1]), ks[|ks| - 1]) + [ks[|ks| - 1]]
  }

  /** The keys raised since `k` last was. */
  function Since(ks: seq<SerialKey>, k: SerialKey): set<SerialKey>
  {
    if ks == [] || ks[|ks| - 1] == k then {} else Since(ks[..|ks| - 1], k) + {ks[|ks| - 1]}
  }

  lemma {:induction false} RecencySplit(ks: seq<SerialKey>, k: SerialKey) returns (a: seq<SerialKey>, b: seq<SerialKey>)
    requires k in ks
    ensures Recency(ks) == a + [k] + b && Elements(b) == Since(ks, k)
  {
    hide Without;
    var n := |ks| - 1;
    var x := ks[n];
    if x == k {
      a, b := Without(Recency(ks[..n]), k), [];
      assert Elements(b) == {};
    } else {
      assert ks == ks[..n] + [x];
      var c, d := RecencySplit(ks[..n], k);
      WithoutConcat(c + [k], d, x);
      WithoutConcat(c, [k], x);
      a, b := Without(c, x), Without(d, x) + [x];
      WithoutOther(k, x);
      assert Elements(b) == Elements(d) + {x};
    }
  }

  lemma WithoutOther(k: SerialKey, x: SerialKey)
    requires k != x
    ensures Without([k], x) == [k]
  {
    assert [k][..0] == [];
  }

  lemma {:induction false} RecencyMembers(ks: seq<SerialKey>)
    ensures Distinct(Recency(ks)) && Elements(Recency(ks)) == Elements(ks)
  {
    if ks != [] {
      var n := |ks| - 1;
      RecencyMembers(ks[..n]);
      WithoutDistinct(Recency(ks[..n]), ks[n]);
      assert ks == ks[..n] + [ks[n]];
      var rest := Without(Recency(ks[..n]), ks[n]);
      assert forall i | 0 <= i < |rest| :: rest[i] in rest;
      assert forall k :: k in Recency(ks[..n]) <==> k in Elements(Recency(ks[..n]));
      assert forall k :: k in ks[..n] <==> k in Elements(ks[..n]);
      assert forall k :: k in Recency(ks) <==> k in ks;
    }
  }

  /** The marks are those of the keys raised last; at least 256 of them, if any is missing. */
  ghost predicate Tracks(m: Marks, ks: seq<SerialKey>, older: seq<SerialKey>)
  {
    m.Valid() && Recency(ks) == older + m.order && (older == [] || |m.order| >= MAX_SERIALS_PER_PIN)
  }

  lemma RaiseTracks(m: Marks, ks: seq<SerialKey>, older: seq<SerialKey>, s: Serial)
    requires Tracks(m, ks, older)
    ensures Tracks(Raise(m, s), ks + [s.key], Without(older, s.key))
  {
    RaiseValid(m, s);
    WithoutConcat(older, m.order, s.key);
    assert (ks + [s.key])[..|ks|] == ks;
  }

  lemma {:induction false} RaiseEachTracks(m: Marks, ks: seq<SerialKey>, older: seq<SerialKey>, ss: seq<Serial>)
    returns (o: seq<SerialKey>)
    requires Tracks(m, ks, older)
    ensures Tracks(RaiseEach(m, ss), ks + Names(ss), o)
  {
    hide Tracks, Raise;
    o := older;
    if ss == [] {
      assert ks + Names(ss) == ks;
    } else {
      var n := |ss| - 1;
      o := RaiseEachTracks(m, ks, older, ss[..n]);
      RaiseTracks(RaiseEach(m, ss[..n]), ks + Names(ss[..n]), o, ss[n]);
      o := Without(o, ss[n].key);
      assert ks + Names(ss[..n]) + [ss[n].key] == ks + Names(ss);
    }
  }

  lemma RecentTracks(m: Marks, ks: seq<SerialKey>, older: seq<SerialKey>) returns (o: seq<SerialKey>)
    requires Tracks(m, ks, older)
    ensures Tracks(Recent(m), ks, o) && |Recent(m).order| <= MAX_SERIALS_PER_PIN
  {
    RecentValid(m);
    o := older;
    if |m.order| > MAX_SERIALS_PER_PIN {
      var cut := |m.order| - MAX_SERIALS_PER_PIN;
      o := older + m.order[..cut];
      assert m.order == m.order[..cut] + m.order[cut..];
    }
  }

  ghost predicate Inv(w: World)
  {
    && |MarksOf(w).order| <= MAX_SERIALS_PER_PIN
    && exists older :: Tracks(MarksOf(w), w.raised, older)
  }

  lemma FreshTracks()
    ensures Tracks(NO_MARKS, [], [])
  {
    assert Elements<SerialKey>([]) == {};
  }

  lemma StepInv(w: World, e: Event)
    requires Inv(w)
    ensures Inv(Step(w, e))
  {
    hide Tracks, Recent, RaiseEach, Fresh, Names;
    FreshTracks();
    if Accepted(w, e) {
      var same := SameKey(w, e.domainKey);
      var older :| Tracks(MarksOf(w), w.raised, older);
      var m, ks, o := if same then MarksOf(w) else NO_MARKS, if same then w.raised else [], if same then older else [];
      o := RaiseEachTracks(m, ks, o, e.serials);
      o := RecentTracks(RaiseEach(m, e.serials), ks + Names(e.serials), o);
    }
  }

  lemma {:induction false} RunInv(es: seq<Event>)
    ensures Inv(Run(es))
  {
    hide Inv, Step;
    if es == [] {
      FirstInv();
    } else {
      RunInv(es[..|es| - 1]);
      StepInv(Run(es[..|es| - 1]), es[|es| - 1]);
    }
  }

  lemma FirstInv()
    ensures Inv(FIRST_USE)
  {
    FreshTracks();
  }

  /** Where the suffix `order` of `a + [k] + b` begins decides whether it holds `k`. */
  lemma InSuffixIff(older: seq<SerialKey>, order: seq<SerialKey>, a: seq<SerialKey>, k: SerialKey, b: seq<SerialKey>)
    requires older + order == a + [k] + b && Distinct(older + order)
    ensures k in order <==> |b| < |order|
  {
    var all := older + order;
    assert all[|a|] == k;
    if |b| < |order| {
      assert order[|a| - |older|] == k;
    } else {
      assert forall i | 0 <= i < |order| :: order[i] == all[|older| + i];
    }
  }

  /**
   A mark is kept if and only if its key was raised under this pin and fewer
   than 256 other keys have been raised since it last was.
   */
  lemma MarkKeptIff(es: seq<Event>, k: SerialKey)
    ensures var w := Run(es);
            k in MarksOf(w).value <==> k in w.raised && |Since(w.raised, k)| < MAX_SERIALS_PER_PIN
  {
    hide Run, Recency, Since;
    RunInv(es);
    var w := Run(es);
    var m := MarksOf(w);
    var older :| Tracks(m, w.raised, older);
    RecencyMembers(w.raised);
    assert k in m.value <==> k in Elements(m.order);
    assert k in w.raised <==> k in Elements(Recency(w.raised));
    if k in w.raised {
      var a, b := RecencySplit(w.raised, k);
      InSuffixIff(older, m.order, a, k, b);
      SuffixDistinct(a + [k], b);
      ElementsCount(b);
      assert older == [] ==> |b| < |m.order|;
    }
  }

  lemma SuffixDistinct(a: seq<SerialKey>, b: seq<SerialKey>)
    requires Distinct(a + b)
    ensures Distinct(b)
  {
    forall i, j | 0 <= i < j < |b| ensures b[i] != b[j] {
      assert (a + b)[|a| + i] == b[i] && (a + b)[|a| + j] == b[j];
    }
  }

  // ---------------------------------------------------------------------
  // Superseded grants are refused
  // ---------------------------------------------------------------------

  /** `k` has a mark of at least `s`. */
  predicate AtLeast(m: Marks, k: SerialKey, s: nat) { k in m.value && s <= m.value[k] }

  lemma {:induction false} RaiseEachKeeps(m: Marks, ss: seq<Serial>, k: SerialKey, s: nat)
    requires AtLeast(m, k, s) || Serial(k, s) in ss
    ensures AtLeast(RaiseEach(m, ss), k, s)
  {
    if ss != [] {
      var n := |ss| - 1;
      assert ss == ss[..n] + [ss[n]];
      if AtLeast(m, k, s) || Serial(k, s) in ss[..n] {
        RaiseEachKeeps(m, ss[..n], k, s);
      }
    }
  }

  lemma StepAtLeast(w: World, e: Event, k: SerialKey, s: nat)
    requires AtLeast(MarksOf(w), k, s) || (Accepted(w, e) && Serial(k, s) in e.serials)
    requires Step(w, e).resets == w.resets || (Accepted(w, e) && Serial(k, s) in e.serials)
    requires k in MarksOf(Step(w, e)).value
    ensures AtLeast(MarksOf(Step(w, e)), k, s)
  {
    if Accepted(w, e) {
      RaiseEachKeeps(if SameKey(w, e.domainKey) then MarksOf(w) else NO_MARKS, e.serials, k, s);
    }
  }

  lemma StepRaised(w: World, e: Event)
    ensures w.resets <= Step(w, e).resets
    ensures Step(w, e).resets == w.resets ==>
              Step(w, e).raised == w.raised + (if Accepted(w, e) then Names(e.serials) else [])
    ensures Accepted(w, e) ==> forall s | s in e.serials :: s.key in Step(w, e).raised
  {
    if Accepted(w, e) {
      forall s | s in e.serials ensures s.key in Step(w, e).raised {
        var i :| 0 <= i < |e.serials| && e.serials[i] == s;
        assert Names(e.serials)[i] in Names(e.serials);
      }
    }
  }

  lemma RunNext(es: seq<Event>, n: nat)
    requires n < |es|
    ensures Run(es[..n + 1]) == Step(Run(es[..n]), es[n])
  {
    assert es[..n + 1][..n] == es[..n];
  }

  lemma {:induction false} ResetsGrow(es: seq<Event>, i: nat, j: nat)
    requires i <= j <= |es|
    ensures Run(es[..i]).resets <= Run(es[..j]).resets
    decreases j
  {
    hide Run, Step;
    if i < j {
      ResetsGrow(es, i, j - 1);
      RunNext(es, j - 1);
      StepRaised(Run(es[..j - 1]), es[j - 1]);
    }
  }

  /** Contact `i` was accepted and raised `k` to `s`; since then, before `j`, no forgetting and no other domain key. */
  ghost predicate RaisedAt(es: seq<Event>, i: nat, j: nat, k: SerialKey, s: nat)
  {
    && i < j <= |es| && Accepted(Run(es[..i]), es[i]) && Serial(k, s) in es[i].serials
    && Run(es[..i + 1]).resets == Run(es[..j]).resets
  }

  lemma RaisedBefore(es: seq<Event>, i: nat, j: nat, k: SerialKey, s: nat)
    requires RaisedAt(es, i, j, k, s) && i + 1 < j
    ensures RaisedAt(es, i, j - 1, k, s) && Run(es[..j - 1]).resets == Run(es[..j]).resets
  {
    hide Run, Accepted;
    ResetsGrow(es, i + 1, j - 1);
    ResetsGrow(es, j - 1, j);
  }

  /**
   While fewer than 256 other keys are raised between two uses of a key, its
   mark holds every serial it was ever accepted with.
   */
  lemma {:induction false} MarkHolds(es: seq<Event>, i: nat, j: nat, k: SerialKey, s: nat)
    requires RaisedAt(es, i, j, k, s)
    requires forall n | i < n <= j :: |Since(Run(es[..n]).raised, k)| < MAX_SERIALS_PER_PIN
    ensures AtLeast(MarksOf(Run(es[..j])), k, s) && k in Run(es[..j]).raised
    decreases j
  {
    hide Run, Step, Since, Accepted, AtLeast, MarksOf;
    var w, e := Run(es[..j - 1]), es[j - 1];
    RunNext(es, j - 1);
    StepRaised(w, e);
    if i + 1 < j {
      RaisedBefore(es, i, j, k, s);
      MarkHolds(es, i, j - 1, k, s);
    }
    MarkKeptIff(es[..j], k);
    StepAtLeast(w, e, k, s);
  }

  /** So a contact that presents a superseded serial of that key is refused. */
  lemma SupersededRefused(es: seq<Event>, i: nat, j: nat, k: SerialKey, s: nat, older: nat)
    requires RaisedAt(es, i, j, k, s) && j < |es| && es[j].Contact? && Serial(k, older) in es[j].serials && older < s
    requires forall n | i < n <= j :: |Since(Run(es[..n]).raised, k)| < MAX_SERIALS_PER_PIN
    ensures !Accepted(Run(es[..j]), es[j])
  {
    hide Run, Since;
    MarkHolds(es, i, j, k, s);
  }

  /** A mark after raising is a serial raised, or the mark from before. */
  lemma {:induction false} RaiseEachSource(m: Marks, ss: seq<Serial>, k: SerialKey)
    requires k in RaiseEach(m, ss).value
    ensures var v := RaiseEach(m, ss).value[k]; Serial(k, v) in ss || (k in m.value && m.value[k] == v)
  {
    if ss != [] {
      var n := |ss| - 1;
      assert ss == ss[..n] + [ss[n]];
      if k in RaiseEach(m, ss[..n]).value {
        RaiseEachSource(m, ss[..n], k);
      }
    }
  }

  lemma MarkSource(w: World, e: Event, k: SerialKey)
    requires k in MarksOf(Step(w, e)).value
    ensures var v := MarksOf(Step(w, e)).value[k];
            || (Accepted(w, e) && Serial(k, v) in e.serials)
            || (k in MarksOf(w).value && MarksOf(w).value[k] == v && Step(w, e).resets == w.resets)
  {
    hide Fresh, Names;
    if Accepted(w, e) {
      RaiseEachSource(if SameKey(w, e.domainKey) then MarksOf(w) else NO_MARKS, e.serials, k);
    }
  }

  /** And never more than needed: every mark is a serial of an accepted contact, under this pin and domain key. */
  lemma {:induction false} MarkIsSerial(es: seq<Event>, k: SerialKey) returns (i: nat)
    requires k in MarksOf(Run(es)).value
    ensures RaisedAt(es, i, |es|, k, MarksOf(Run(es)).value[k])
  {
    assert es != [];
    hide Run, Step, Accepted, MarksOf, RaisedAt;
    i := |es| - 1;
    var n, v := i, MarksOf(Run(es)).value[k];
    assert es[..n + 1] == es;
    RunNext(es, n);
    MarkSource(Run(es[..n]), es[n], k);
    if Accepted(Run(es[..n]), es[n]) && Serial(k, v) in es[n].serials {
      RaisedNow(es, n, k, v);
    } else {
      i := MarkIsSerial(es[..n], k);
      RaisedStill(es, i, n, k, v);
    }
  }

  lemma RaisedNow(es: seq<Event>, n: nat, k: SerialKey, s: nat)
    requires n + 1 == |es| && Accepted(Run(es[..n]), es[n]) && Serial(k, s) in es[n].serials
    ensures RaisedAt(es, n, |es|, k, s)
  {
    hide Run, Accepted;
    assert es[..n + 1] == es[..|es|];
  }

  lemma RaisedStill(es: seq<Event>, i: nat, n: nat, k: SerialKey, s: nat)
    requires n + 1 == |es| && RaisedAt(es[..n], i, n, k, s) && Run(es).resets == Run(es[..n]).resets
    ensures RaisedAt(es, i, |es|, k, s)
  {
    hide Run, Accepted;
    var before := es[..n];
    assert before[..i] == es[..i] && before[..i + 1] == es[..i + 1] && before[..n] == before && es[..|es|] == es;
  }

  /** Contact `i` was accepted, and since then nothing was and the pin was not forgotten. */
  ghost predicate LastAccepted(es: seq<Event>, i: nat)
  {
    && i < |es| && Accepted(Run(es[..i]), es[i])
    && forall j | i < j < |es| :: es[j].Contact? && !Accepted(Run(es[..j]), es[j])
  }

  lemma StepPin(w: World, e: Event)
    ensures Accepted(w, e) ==> Step(w, e).pin.Some? && Step(w, e).pin.value.domainKey == e.domainKey
    ensures !Accepted(w, e) ==> Step(w, e).pin == if e.Contact? then w.pin else None
    ensures Accepted(w, e) ==> e.Contact?
  {
    hide Fresh, Recent, RaiseEach;
  }

  lemma LastAcceptedSnoc(es: seq<Event>, i: nat)
    requires es != []
    ensures var n := |es| - 1;
            var now := Accepted(Run(es[..n]), es[n]);
            LastAccepted(es, i) <==> if i == n then now else LastAccepted(es[..n], i) && es[n].Contact? && !now
  {
    hide Run, Accepted;
    var n := |es| - 1;
    assert forall j | 0 <= j <= n :: es[..n][..j] == es[..j];
    assert forall j | 0 <= j < n :: es[..n][j] == es[j];
  }

  /** There is a pin exactly after an accepted contact, and it is for the domain key of the last. */
  lemma {:induction false} PinIsLastAccepted(es: seq<Event>) returns (last: Option<nat>)
    ensures forall i: nat :: LastAccepted(es, i) <==> last == Some(i)
    ensures last.Some? ==> last.value < |es| && es[last.value].Contact?
    ensures (if Run(es).pin.Some? then Some(Run(es).pin.value.domainKey) else None)
         == if last.Some? then Some(es[last.value].domainKey) else None
  {
    last := None;
    if es != [] {
      var n := |es| - 1;
      var w := Run(es[..n]);
      last := PinIsLastAccepted(es[..n]);
      StepPin(w, es[n]);
      hide Accepted, LastAccepted, Step;
      forall i: nat {
        LastAcceptedSnoc(es, i);
      }
      if Accepted(w, es[n]) {
        last := Some(n);
      } else if !es[n].Contact? {
        last := None;
      }
    }
  }

  lemma {:induction false} SinceGrows(ks: seq<SerialKey>, more: seq<SerialKey>, k: SerialKey)
    requires k !in more
    ensures Since(ks + more, k) == Since(ks, k) + Elements(more)
  {
    if more == [] {
      assert ks + more == ks && Elements(more) == {};
    } else {
      var n := |more| - 1;
      SinceGrows(ks, more[..n], k);
      assert (ks + more)[..|ks + more| - 1] == ks + more[..n];
      assert more == more[..n] + [more[n]] && Elements(more) == Elements(more[..n]) + {more[n]};
    }
  }

  /** No contact between `i` and `j` names `k`. */
  predicate Unnamed(es: seq<Event>, i: nat, j: nat, k: SerialKey)
    requires j <= |es|
  {
    forall n | i < n < j :: es[n].Contact? ==> k !in Names(es[n].serials)
  }

  lemma SinceStep(w: World, e: Event, k: SerialKey)
    requires Step(w, e).resets == w.resets && (e.Contact? ==> k !in Names(e.serials))
    ensures |Since(w.raised, k)| <= |Since(Step(w, e).raised, k)|
  {
    hide Since, RaiseEach, Recent, Fresh;
    if Accepted(w, e) {
      var before, now := Since(w.raised, k), Since(w.raised + Names(e.serials), k);
      SinceGrows(w.raised, Names(e.serials), k);
      assert now == before + (now - before);
    }
  }

  lemma {:induction false} SinceThroughout(es: seq<Event>, i: nat, j: nat, k: SerialKey, s: nat, n: nat)
    requires RaisedAt(es, i, j, k, s) && i < n <= j && Unnamed(es, i, j, k)
    ensures |Since(Run(es[..n]).raised, k)| <= |Since(Run(es[..j]).raised, k)|
    decreases j
  {
    hide Run, Accepted, Since, Step;
    if n < j {
      RaisedBefore(es, i, j, k, s);
      RunNext(es, j - 1);
      SinceStep(Run(es[..j - 1]), es[j - 1], k);
      SinceThroughout(es, i, j - 1, k, s, n);
    }
  }

  /**
   Exactly: until its key is named again, a superseded serial is refused if and
   only if fewer than 256 other keys have been raised since.
   */
  lemma SupersededRefusedIff(es: seq<Event>, i: nat, j: nat, k: SerialKey, s: nat, older: nat)
    requires RaisedAt(es, i, j, k, s) && Unnamed(es, i, j, k) && older < s
    ensures !Fresh(MarksOf(Run(es[..j])), [Serial(k, older)])
       <==> |Since(Run(es[..j]).raised, k)| < MAX_SERIALS_PER_PIN
  {
    hide Run, Since, MarksOf, Accepted;
    MarkKeptIff(es[..j], k);
    if |Since(Run(es[..j]).raised, k)| < MAX_SERIALS_PER_PIN {
      forall n | i < n <= j ensures |Since(Run(es[..n]).raised, k)| < MAX_SERIALS_PER_PIN {
        SinceThroughout(es, i, j, k, s, n);
      }
      MarkHolds(es, i, j, k, s);
      assert Serial(k, older) in [Serial(k, older)];
    }
  }

  // ---------------------------------------------------------------------
  // The verifier
  // ---------------------------------------------------------------------

  /** What the registry answers for a name, parsed; `bound` when its relay binding, if any, verifies. */
  datatype Offer = Offer(
    domainKey: Key, rotations: seq<DomainKey.Statement>, certificate: KeyAgreement.Certificate, signature: Bytes,
    chain: seq<Grant>, signatures: seq<Bytes>, bound: bool)

  function OptionsFor(offer: Offer, now: nat, marks: map<SerialKey, nat>): GrantChains.Options
  {
    GrantChains.Options({offer.domainKey}, now, {}, marks, Purpose.ServiceNode)
  }

  /** `verifyKeyAgreementCertificate` for a service node of `name`, under these marks, and the relay binding. */
  predicate Verifies(name: JsString, verify: Verifier, offer: Offer, now: nat, marks: map<SerialKey, nat>)
  {
    && |offer.chain| <= GrantChains.MAX_CHAIN_DEPTH && offer.bound
    && KeyAgreement.CertificateAccepted(
         offer.certificate, offer.signature, offer.chain, offer.signatures, OptionsFor(offer, now, marks),
         KeyAgreement.ForServiceNode, name, GrantChains.GenuineBy(verify), KeyAgreement.CertificateBy(verify))
  }

  function GrantSerial(g: Grant): Serial { Serial(GrantChains.Pair(g), g.serial) }

  function CertificateSerial(c: KeyAgreement.Certificate): Serial { Serial((c.signer, c.key), c.serial) }

  function SerialsOf(offer: Offer): seq<Serial>
  {
    seq(|offer.chain|, i requires 0 <= i < |offer.chain| => GrantSerial(offer.chain[i]))
      + [CertificateSerial(offer.certificate)]
  }

  ghost function ContactOf(name: JsString, verify: Verifier, w: World, offer: Offer, now: nat): Event
  {
    Contact(offer.domainKey,
            && w.pin.Some?
            && DomainKey.Followed(w.pin.value.domainKey, offer.domainKey, name, offer.rotations, verify).Some?,
            Verifies(name, verify, offer, now, map[]), SerialsOf(offer))
  }

  lemma FreshIff(offer: Offer, m: Marks)
    ensures Fresh(m, SerialsOf(offer)) <==> KeyAgreement.NoneSuperseded(offer.certificate, offer.chain, m.value)
  {
    var ss, n := SerialsOf(offer), |offer.chain|;
    assert ss[n] == CertificateSerial(offer.certificate) && ss[n] in ss;
    if Fresh(m, ss) {
      forall g | g in offer.chain ensures GrantChains.Pair(g) in m.value ==> m.value[GrantChains.Pair(g)] <= g.serial {
        var i :| 0 <= i < n && offer.chain[i] == g;
        assert ss[i] == GrantSerial(g) && ss[i] in ss;
      }
    }
    if KeyAgreement.NoneSuperseded(offer.certificate, offer.chain, m.value) {
      forall s | s in ss ensures s.key in m.value ==> m.value[s.key] <= s.serial {
        var i :| 0 <= i < |ss| && ss[i] == s;
        if i < n {
          assert offer.chain[i] in offer.chain && s == GrantSerial(offer.chain[i]);
        }
      }
    }
  }

  /** Presented to the verifier under the pin's marks an offer is accepted exactly when its contact is. */
  lemma OfferAcceptedIff(name: JsString, verify: Verifier, w: World, offer: Offer, now: nat)
    ensures Accepted(w, ContactOf(name, verify, w, offer, now))
       <==> && (w.pin.Some? ==>
                  DomainKey.Followed(w.pin.value.domainKey, offer.domainKey, name, offer.rotations, verify).Some?)
            && Verifies(name, verify, offer, now, MarksOf(w).value)
  {
    hide KeyAgreement.CertificateAccepted, KeyAgreement.NoneSuperseded, Fresh, SerialsOf;
    FreshIff(offer, MarksOf(w));
    KeyAgreement.CertificateRollbackExact(
      offer.certificate, offer.signature, offer.chain, offer.signatures, OptionsFor(offer, now, map[]),
      KeyAgreement.ForServiceNode, name, GrantChains.GenuineBy(verify), KeyAgreement.CertificateBy(verify),
      MarksOf(w).value);
  }

  // ---------------------------------------------------------------------
  // Only the pinned key's line of succession
  // ---------------------------------------------------------------------

  datatype Visit = Meeting(offer: Offer, now: nat) | Forgetting

  /** `first` is the key pinned on first use, or since the pin was last forgotten. */
  datatype Life = Life(world: World, first: Option<Key>)

  ghost function Live(name: JsString, verify: Verifier, l: Life, v: Visit): Life
  {
    match v
    case Forgetting => Life(Step(l.world, Forget), None)
    case Meeting(offer, now) =>
      var e := ContactOf(name, verify, l.world, offer, now);
      Life(Step(l.world, e), if Accepted(l.world, e) && l.world.pin.None? then Some(offer.domainKey) else l.first)
  }

  ghost function LifeOf(name: JsString, verify: Verifier, vs: seq<Visit>): Life
  {
    if vs == [] then Life(FIRST_USE, None) else Live(name, verify, LifeOf(name, verify, vs[..|vs| - 1]), vs[|vs| - 1])
  }

  /** Each key follows the one before it by genuine rotation statements, each signed by the key it retires. */
  ghost predicate Succession(name: JsString, verify: Verifier, keys: seq<Key>, histories: seq<seq<DomainKey.Statement>>)
  {
    && |keys| == |histories| + 1
    && forall i | 0 <= i < |histories| ::
         DomainKey.Reachable(histories[i], DomainKey.GenuineFlags(histories[i], name, verify), keys[i], keys[i + 1])
  }

  ghost predicate InLine(name: JsString, verify: Verifier, from: Key, to: Key)
  {
    exists keys: seq<Key>, histories ::
      Succession(name, verify, keys, histories) && keys[0] == from && keys[|keys| - 1] == to
  }

  lemma InLineMore(name: JsString, verify: Verifier, from: Key, mid: Key, to: Key, history: seq<DomainKey.Statement>)
    requires InLine(name, verify, from, mid)
    requires DomainKey.Reachable(history, DomainKey.GenuineFlags(history, name, verify), mid, to)
    ensures InLine(name, verify, from, to)
  {
    hide DomainKey.Reachable, DomainKey.GenuineFlags;
    var keys: seq<Key>, histories: seq<seq<DomainKey.Statement>>
      :| Succession(name, verify, keys, histories) && keys[0] == from && keys[|keys| - 1] == mid;
    var keys', histories' := keys + [to], histories + [history];
    assert Succession(name, verify, keys', histories');
    assert keys'[|keys'| - 1] == to;
  }

  lemma FollowedReaches(pinned: Key, current: Key, name: JsString, history: seq<DomainKey.Statement>, verify: Verifier)
    requires DomainKey.Followed(pinned, current, name, history, verify).Some?
    ensures DomainKey.Reachable(history, DomainKey.GenuineFlags(history, name, verify), pinned, current)
  {
    var good := DomainKey.GenuineFlags(history, name, verify);
    var at := DomainKey.WalkSound(history, good, 0, pinned, -1, 0, current);
  }

  /**
   Whatever the registry answers, over every life of a pin: the key it holds comes
   from the key pinned on first use by rotations that the keys before it signed.
   */
  lemma {:induction false} PinInLine(name: JsString, verify: Verifier, vs: seq<Visit>)
    ensures var l := LifeOf(name, verify, vs);
            l.world.pin.Some? ==> l.first.Some? && InLine(name, verify, l.first.value, l.world.pin.value.domainKey)
  {
    hide InLine, DomainKey.Reachable, DomainKey.Followed, Verifies, Fresh, SerialsOf, Recent, RaiseEach, Names;
    if vs != [] {
      var n := |vs| - 1;
      PinInLine(name, verify, vs[..n]);
      var l := LifeOf(name, verify, vs[..n]);
      if vs[n].Meeting? {
        var offer := vs[n].offer;
        if l.world.pin.None? {
          InLineSelf(name, verify, offer.domainKey);
        } else if DomainKey.Followed(l.world.pin.value.domainKey, offer.domainKey, name, offer.rotations,
                                     verify).Some? {
          FollowedReaches(l.world.pin.value.domainKey, offer.domainKey, name, offer.rotations, verify);
          InLineMore(name, verify, l.first.value, l.world.pin.value.domainKey, offer.domainKey, offer.rotations);
        }
      }
    }
  }

  lemma InLineSelf(name: JsString, verify: Verifier, key: Key)
    ensures InLine(name, verify, key, key)
  {
    var keys: seq<Key>, histories: seq<seq<DomainKey.Statement>> := [key], [];
    assert Succession(name, verify, keys, histories) && keys[0] == key;
  }

  // ---------------------------------------------------------------------
  // The store
  // ---------------------------------------------------------------------

  /** The entry of one name in the pin file; every change is made under the file's lock. */
  class PinEntry {
    var pin: Option<Pin>
    ghost var raised: seq<SerialKey>
    ghost var resets: nat

    ghost function View(): World
      reads this
    {
      World(pin, raised, resets)
    }

    constructor ()
      ensures View() == FIRST_USE && Inv(View())
    {
      pin, raised, resets := None, [], 0;
      new;
      FirstInv();
    }

    /** `verifyOverlay`: decide on the pin as it is now, and raise the marks of what was accepted. */
    method Meet(name: JsString, verify: Verifier, offer: Offer, now: nat) returns (ok: bool)
      requires Inv(View())
      modifies this
      ensures Inv(View()) && View() == Step(old(View()), ContactOf(name, verify, old(View()), offer, now))
      ensures ok == Accepted(old(View()), ContactOf(name, verify, old(View()), offer, now))
    {
      hide Inv, Recent, RaiseEach, Fresh, Names, Verifies, DomainKey.Followed, SerialsOf;
      ghost var e := ContactOf(name, verify, View(), offer, now);
      StepInv(View(), e);
      OfferAcceptedIff(name, verify, View(), offer, now);
      var same := pin.Some? && pin.value.domainKey == offer.domainKey;
      if same {
        FollowedSelf(offer.domainKey, name, offer.rotations, verify);
      } else if pin.Some? {
        var followed := DomainKey.FollowDomainKeyRotations(pin.value.domainKey, offer.domainKey, name,
                                                           offer.rotations, verify);
        if followed.None? {
          return false;
        }
      }
      var known := if pin.Some? then pin.value.marks else NO_MARKS;
      if !Verifies(name, verify, offer, now, known.value) {
        return false;
      }
      MarksValid(View());
      var marks := RaiseSerials(if same then known else NO_MARKS, SerialsOf(offer));
      pin := Some(Pin(offer.domainKey, marks));
      raised, resets := (if same then raised else []) + Names(SerialsOf(offer)), if same then resets else resets + 1;
      return true;
    }

    /** `forget` */
    method ForgetPin() returns (removed: bool)
      requires Inv(View())
      modifies this
      ensures Inv(View()) && View() == Step(old(View()), Forget) && removed == old(pin).Some?
    {
      StepInv(View(), Forget);
      removed := pin.Some?;
      pin, raised, resets := None, [], resets + 1;
    }
  }

  lemma FollowedSelf(key: Key, name: JsString, history: seq<DomainKey.Statement>, verify: Verifier)
    ensures DomainKey.Followed(key, key, name, history, verify) == Some(0)
  {
  }

  lemma MarksValid(w: World)
    requires Inv(w)
    ensures MarksOf(w).Valid() && NO_MARKS.Valid()
  {
    FreshTracks();
  }
}
