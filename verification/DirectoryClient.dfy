/**
 The client's view of the signed relay directory
 (packages/client/src/relay-directory.ts): rollback marks per signing key, a
 store merged by several processes, and the cached fallback.
 */
module DirectoryClient {
  import opened Wrappers
  import opened Bytes
  import Encoding
  import opened Grants
  import opened RelayDirectory

  datatype Signed = Signed(directory: Directory, signature: Bytes)

  /** `verifySignedRelayDirectory` with the pinned keys: a document and the clock to a verdict. */
  type Judge = (Signed, nat) -> DirectoryVerdict

  /** Which key a document is attributed to never depends on when it is read. */
  ghost predicate Attributes(judge: Judge)
  {
    forall doc: Signed, s: nat, t: nat ::
      judge(doc, s).Valid? && judge(doc, t).Valid? ==> judge(doc, s).signedBy == judge(doc, t).signedBy
  }

  /** An accepted serial never runs ahead of the accepting clock by more than the allowed skew. */
  ghost predicate Dated(judge: Judge)
  {
    forall doc: Signed, now: nat :: judge(doc, now).Valid? ==>
      doc.directory.serial <= doc.directory.issuedAt <= now + MAX_DIRECTORY_CLOCK_SKEW_SECONDS
  }

  function PinnedJudge(trusted: seq<Key>, verify: Verifier): Judge
  {
    (doc: Signed, now: nat) => VerifyDirectory(Some((doc.directory, doc.signature)), trusted, now, None, verify)
  }

  /** The verifier of the format module is such a judge, for any pinned keys. */
  lemma PinnedJudgeLawful(trusted: seq<Key>, verify: Verifier)
    ensures Attributes(PinnedJudge(trusted, verify)) && Dated(PinnedJudge(trusted, verify))
  {
    hide DirectoryBytes, Acceptable;
    var judge := PinnedJudge(trusted, verify);
    forall doc: Signed, s: nat, t: nat | judge(doc, s).Valid? && judge(doc, t).Valid?
      ensures judge(doc, s).signedBy == judge(doc, t).signedBy
    {
      SignerFixed(trusted, verify, doc, s);
      SignerFixed(trusted, verify, doc, t);
    }
    forall doc: Signed, now: nat | judge(doc, now).Valid?
      ensures doc.directory.serial <= doc.directory.issuedAt <= now + MAX_DIRECTORY_CLOCK_SKEW_SECONDS
    {
      DatesOrdered(doc.directory);
      assert judge(doc, now) == VerifyDirectory(Some((doc.directory, doc.signature)), trusted, now, None, verify);
    }
  }

  lemma SignerFixed(trusted: seq<Key>, verify: Verifier, doc: Signed, now: nat)
    requires PinnedJudge(trusted, verify)(doc, now).Valid?
    ensures Signer(trusted, DirectoryBytes(doc.directory), doc.signature, verify)
         == Some(PinnedJudge(trusted, verify)(doc, now).signedBy)
  {
    hide DirectoryBytes, Acceptable, Signer;
  }

  // ---------------------------------------------------------------------
  // Persisted state
  // ---------------------------------------------------------------------

  datatype DirectoryState = DirectoryState(marks: map<Key, nat>, document: Option<Signed>)

  function Max(a: nat, b: nat): nat { if a >= b then a else b }

  function Mark(marks: map<Key, nat>, k: Key): nat { if k in marks then marks[k] else 0 }

  function Raise(marks: map<Key, nat>, k: Key, serial: nat): (m: map<Key, nat>)
    ensures forall x :: Mark(m, x) == if x == k then Max(Mark(marks, k), serial) else Mark(marks, x)
  {
    marks[k := Max(Mark(marks, k), serial)]
  }

  function MergeMarks(a: map<Key, nat>, b: map<Key, nat>): (m: map<Key, nat>)
    ensures forall x :: Mark(m, x) == Max(Mark(a, x), Mark(b, x))
  {
    map x | x in a.Keys + b.Keys :: Max(Mark(a, x), Mark(b, x))
  }

  /** What `accept` merges for a document attributed to `k`. */
  function Statement(doc: Signed, k: Key): DirectoryState
  {
    DirectoryState(map[k := doc.directory.serial], Some(doc))
  }

  const FRESH := DirectoryState(map[], None)

  /** `mergeStates`: marks only rise, the newer document wins (the incoming one on a tie). */
  function MergeStates(current: Option<DirectoryState>, next: DirectoryState): (r: DirectoryState)
  {
    var base := if current.Some? then current.value else FRESH;
    var a, b := base.document, next.document;
    DirectoryState(
      MergeMarks(base.marks, next.marks),
      if a.Some? && (b.None? || a.value.directory.issuedAt > b.value.directory.issuedAt) then a else b)
  }

  function MarkIn(s: Option<DirectoryState>, k: Key): nat { if s.Some? then Mark(s.value.marks, k) else 0 }

  function MergeAll(s: Option<DirectoryState>, ns: seq<DirectoryState>): Option<DirectoryState>
    decreases |ns|
  {
    if ns == [] then s else MergeAll(Some(MergeStates(s, ns[0])), ns[1..])
  }

  /**
   Any sequence of merges, by any processes in any order, leaves every mark at
   the largest value merged: at least each of them, and one of them.
   */
  lemma {:induction false} MarksAreMaxima(s: Option<DirectoryState>, ns: seq<DirectoryState>, k: Key)
    ensures MarkIn(MergeAll(s, ns), k) >= MarkIn(s, k)
    ensures forall i | 0 <= i < |ns| :: MarkIn(MergeAll(s, ns), k) >= Mark(ns[i].marks, k)
    ensures MarkIn(MergeAll(s, ns), k) == MarkIn(s, k)
            || exists i | 0 <= i < |ns| :: MarkIn(MergeAll(s, ns), k) == Mark(ns[i].marks, k)
    decreases |ns|
  {
    if ns != [] {
      var first := Some(MergeStates(s, ns[0]));
      MarksAreMaxima(first, ns[1..], k);
      forall i | 0 < i < |ns| ensures MarkIn(MergeAll(s, ns), k) >= Mark(ns[i].marks, k) {
        assert ns[i] == ns[1..][i - 1];
      }
    }
  }

  function DocumentIn(s: Option<DirectoryState>): Option<Signed> { if s.Some? then s.value.document else None }

  /** `a` was issued after `b`, or `b` is no document. */
  predicate Later(a: Signed, b: Option<Signed>) { b.Some? ==> a.directory.issuedAt > b.value.directory.issuedAt }

  predicate NotEarlier(a: Signed, b: Option<Signed>) { b.Some? ==> a.directory.issuedAt >= b.value.directory.issuedAt }

  /** `d` came with statement `i`: no earlier one was issued after it, and no later one with or after it. */
  ghost predicate NewestAt(s: Option<DirectoryState>, ns: seq<DirectoryState>, d: Signed, i: nat)
  {
    && i < |ns| && ns[i].document == Some(d)
    && NotEarlier(d, DocumentIn(s))
    && (forall j | 0 <= j < i :: NotEarlier(d, ns[j].document))
    && (forall j | i < j < |ns| :: Later(d, ns[j].document))
  }

  /** `d` was stored before, and no statement was issued with or after it. */
  ghost predicate NewestKept(s: Option<DirectoryState>, ns: seq<DirectoryState>, d: Signed)
  {
    DocumentIn(s) == Some(d) && forall j | 0 <= j < |ns| :: Later(d, ns[j].document)
  }

  /**
   And leaves the document issued last, of those issued together the one merged
   last; there is none only if there never was.
   */
  lemma {:induction false} NewestDocument(s: Option<DirectoryState>, ns: seq<DirectoryState>)
    ensures match DocumentIn(MergeAll(s, ns))
            case Some(d) => NewestKept(s, ns, d) || exists i | 0 <= i < |ns| :: NewestAt(s, ns, d, i)
            case None => DocumentIn(s).None? && forall j | 0 <= j < |ns| :: ns[j].document.None?
    decreases |ns|
  {
    if ns != [] {
      var first, rest := Some(MergeStates(s, ns[0])), ns[1..];
      NewestDocument(first, rest);
      assert forall j | 0 < j < |ns| :: ns[j] == rest[j - 1];
      if DocumentIn(MergeAll(s, ns)).Some? {
        var d := DocumentIn(MergeAll(s, ns)).value;
        if NewestKept(first, rest, d) {
          assert NewestKept(s, ns, d) || NewestAt(s, ns, d, 0);
        } else {
          var i :| 0 <= i < |rest| && NewestAt(first, rest, d, i);
          assert NewestAt(s, ns, d, i + 1);
        }
      }
    }
  }

  // ---------------------------------------------------------------------
  // One client among others
  // ---------------------------------------------------------------------

  datatype Held = Held(doc: Signed, signedBy: Key, fetchedAt: nat)

  /** `returned` is the ghost history of (signing key, serial) handed to callers; `clock` the latest accepting clock. */
  datatype World = World(
    store: Option<DirectoryState>, held: Option<Held>,
    refreshing: Option<Option<DirectoryState>>,
    returned: seq<(Key, nat)>, clock: nat)

  const START := World(None, None, None, [], 0)

  datatype Event =
    | Ask(now: nat, readable: bool)                             // get(); is the state file readable?
    | Complete(body: Option<Signed>, now: nat, persisted: bool) // the fetch of refresh() settles
    | Elsewhere(doc: Signed, now: nat)                          // another process accepts a document
    | Restart                                                   // the process starts again, on the same store

  function Give(w: World, held: Held): World
  {
    w.(held := Some(held), returned := w.returned + [(held.signedBy, held.doc.directory.serial)])
  }

  /** The marks a refresh judges by: those loaded when it began, raised by the held document. */
  function JudgingMarks(loaded: Option<DirectoryState>, held: Option<Held>): map<Key, nat>
  {
    var marks := if loaded.Some? then loaded.value.marks else map[];
    if held.Some? then Raise(marks, held.value.signedBy, held.value.doc.directory.serial) else marks
  }

  /** `verify`: valid now, and not below what this key has signed before. */
  function Passes(judge: Judge, doc: Signed, now: nat, marks: map<Key, nat>): Option<Key>
  {
    match judge(doc, now)
    case Valid(k) => if doc.directory.serial < Mark(marks, k) then None else Some(k)
    case Refused(_) => None
  }

  /** The cached candidates of a refresh, in order. */
  function Cached(loaded: Option<DirectoryState>, held: Option<Held>): seq<Signed>
  {
    (if held.Some? then [held.value.doc] else [])
    + (if loaded.Some? && loaded.value.document.Some? then [loaded.value.document.value] else [])
  }

  function FirstPassing(judge: Judge, docs: seq<Signed>, now: nat, marks: map<Key, nat>): (r: Option<Held>)
    ensures r.Some? ==> r.value.doc in docs && Passes(judge, r.value.doc, now, marks) == Some(r.value.signedBy)
  {
    if docs == [] then None
    else
      match Passes(judge, docs[0], now, marks)
      case Some(k) => Some(Held(docs[0], k, now))
      case None => FirstPassing(judge, docs[1..], now, marks)
  }

  /** The loop over the cached documents. */
  method FindPassing(judge: Judge, docs: seq<Signed>, now: nat, marks: map<Key, nat>) returns (r: Option<Held>)
    ensures r == FirstPassing(judge, docs, now, marks)
  {
    for i := 0 to |docs|
      invariant FirstPassing(judge, docs, now, marks) == FirstPassing(judge, docs[i..], now, marks)
    {
      var k := Passes(judge, docs[i], now, marks);
      if k.Some? {
        return Some(Held(docs[i], k.value, now));
      }
    }
    return None;
  }

  function Accept(w: World, doc: Signed, k: Key, now: nat, persisted: bool): World
  {
    var w' := Give(w, Held(doc, k, now)).(clock := Max(w.clock, now));
    if persisted then w'.(store := Some(MergeStates(w.store, Statement(doc, k)))) else w'
  }

  predicate HeldIsFresh(w: World, now: nat, refreshAfter: nat)
  {
    w.held.Some? && now < w.held.value.doc.directory.expiresAt && now < w.held.value.fetchedAt + refreshAfter
  }

  function Step(judge: Judge, refreshAfter: nat, w: World, e: Event): World
  {
    match e
    case Ask(now, readable) =>
      if HeldIsFresh(w, now, refreshAfter) then Give(w, w.held.value)
      else if w.refreshing.Some? || !readable then w
      else w.(refreshing := Some(w.store))
    case Complete(body, now, persisted) =>
      if w.refreshing.None? then w
      else
        var loaded, idle := w.refreshing.value, w.(refreshing := None);
        var marks := JudgingMarks(loaded, w.held);
        var accepted := if body.Some? then Passes(judge, body.value, now, marks) else None;
        if accepted.Some? then Accept(idle, body.value, accepted.value, now, persisted)
        else
          var cached := FirstPassing(judge, Cached(loaded, w.held), now, marks);
          if cached.Some? then Give(idle, cached.value) else idle
    case Elsewhere(doc, now) =>
      if !judge(doc, now).Valid? then w
      else w.(store := Some(MergeStates(w.store, Statement(doc, judge(doc, now).signedBy))), clock := Max(w.clock, now))
    case Restart => w.(held := None, refreshing := None)
  }

  function Run(judge: Judge, refreshAfter: nat, w: World, es: seq<Event>): World
  {
    if es == [] then w else Step(judge, refreshAfter, Run(judge, refreshAfter, w, es[..|es| - 1]), es[|es| - 1])
  }

  // ---------------------------------------------------------------------
  // No serial ever decreases
  // ---------------------------------------------------------------------

  ghost predicate Monotone(returned: seq<(Key, nat)>)
  {
    forall i, j | 0 <= i < j < |returned| && returned[i].0 == returned[j].0 :: returned[i].1 <= returned[j].1
  }

  /** Every past return for key `k` is at most `serial`. */
  ghost predicate AtMost(returned: seq<(Key, nat)>, k: Key, serial: nat)
  {
    forall i | 0 <= i < |returned| && returned[i].0 == k :: returned[i].1 <= serial
  }

  /** The store's mark for whichever key a document is attributed to is at least its serial. */
  ghost predicate OwnMark(judge: Judge, store: Option<DirectoryState>, doc: Signed)
  {
    forall now: nat :: judge(doc, now).Valid? ==> doc.directory.serial <= MarkIn(store, judge(doc, now).signedBy)
  }

  ghost predicate DocumentMarked(judge: Judge, store: Option<DirectoryState>, s: Option<DirectoryState>)
  {
    s.Some? && s.value.document.Some? ==> OwnMark(judge, store, s.value.document.value)
  }

  ghost predicate Inv(judge: Judge, w: World)
  {
    && Monotone(w.returned)
    && (forall k :: AtMost(w.returned, k, MarkIn(w.store, k)))
    && (w.held.Some? ==>
          && OwnMark(judge, w.store, w.held.value.doc)
          && w.held.value.doc.directory.serial <= MarkIn(w.store, w.held.value.signedBy)
          && AtMost(w.returned, w.held.value.signedBy, w.held.value.doc.directory.serial))
    && DocumentMarked(judge, w.store, w.store)
    && (w.refreshing.Some? ==>
          && DocumentMarked(judge, w.store, w.refreshing.value)
          && forall k :: AtMost(w.returned, k, Mark(JudgingMarks(w.refreshing.value, w.held), k)))
  }

  lemma MonotoneSnoc(returned: seq<(Key, nat)>, k: Key, serial: nat)
    requires Monotone(returned) && AtMost(returned, k, serial)
    ensures Monotone(returned + [(k, serial)])
  {
  }

  lemma AtMostSnoc(returned: seq<(Key, nat)>, k: Key, serial: nat, x: Key, bound: nat)
    requires AtMost(returned, x, bound) && (x == k ==> serial <= bound)
    ensures AtMost(returned + [(k, serial)], x, bound)
  {
  }

  lemma AtMostUp(returned: seq<(Key, nat)>, k: Key, a: nat, b: nat)
    requires AtMost(returned, k, a) && a <= b
    ensures AtMost(returned, k, b)
  {
  }

  /** Handing out `held` keeps the invariant when its serial passed the marks and the store knows it. */
  lemma GiveKeeps(judge: Judge, w: World, held: Held)
    requires Inv(judge, w) && w.refreshing.None?
    requires OwnMark(judge, w.store, held.doc)
    requires held.doc.directory.serial <= MarkIn(w.store, held.signedBy)
    requires AtMost(w.returned, held.signedBy, held.doc.directory.serial)
    ensures Inv(judge, Give(w, held))
  {
    var k, serial := held.signedBy, held.doc.directory.serial;
    MonotoneSnoc(w.returned, k, serial);
    forall x ensures AtMost(Give(w, held).returned, x, MarkIn(w.store, x)) {
      AtMostSnoc(w.returned, k, serial, x, MarkIn(w.store, x));
    }
    AtMostSnoc(w.returned, k, serial, k, serial);
  }

  /** A merge of an attributed document keeps the invariant: marks only rise. */
  lemma MergeKeeps(judge: Judge, w: World, doc: Signed, k: Key, now: nat, clock: nat)
    requires Attributes(judge) && Inv(judge, w) && judge(doc, now) == Valid(k)
    ensures var s := Some(MergeStates(w.store, Statement(doc, k)));
            && Inv(judge, w.(store := s, clock := clock)) && OwnMark(judge, s, doc)
            && doc.directory.serial <= MarkIn(s, k)
  {
    var s := Some(MergeStates(w.store, Statement(doc, k)));
    assert Mark(map[k := doc.directory.serial], k) == doc.directory.serial;
    forall x ensures AtMost(w.returned, x, MarkIn(s, x)) {
      AtMostUp(w.returned, x, MarkIn(w.store, x), MarkIn(s, x));
    }
  }

  lemma CachedKnown(judge: Judge, w: World, doc: Signed)
    requires Inv(judge, w) && w.refreshing.Some? && doc in Cached(w.refreshing.value, w.held)
    ensures OwnMark(judge, w.store, doc)
  {
  }

  /** The marks of the refresh bound everything returned before, so what passes them does not go back. */
  lemma PassingIsLatest(judge: Judge, w: World, doc: Signed, now: nat, k: Key)
    requires Inv(judge, w) && w.refreshing.Some?
    requires Passes(judge, doc, now, JudgingMarks(w.refreshing.value, w.held)) == Some(k)
    ensures AtMost(w.returned, k, doc.directory.serial)
  {
    AtMostUp(w.returned, k, Mark(JudgingMarks(w.refreshing.value, w.held), k), doc.directory.serial);
  }

  lemma StopRefreshing(judge: Judge, w: World)
    requires Inv(judge, w)
    ensures Inv(judge, w.(refreshing := None))
  {
  }

  /** A failed merge is harmless when the store already has a mark at least as high for the document's key. */
  predicate Harmless(judge: Judge, w: World, e: Event)
  {
    if e.Complete? && !e.persisted && w.refreshing.Some? && e.body.Some? then
      var k := Passes(judge, e.body.value, e.now, JudgingMarks(w.refreshing.value, w.held));
      k.Some? ==> e.body.value.directory.serial <= MarkIn(w.store, k.value)
    else true
  }

  lemma CompleteKeeps(judge: Judge, refreshAfter: nat, w: World, body: Option<Signed>, now: nat, persisted: bool)
    requires Attributes(judge) && Inv(judge, w) && Harmless(judge, w, Complete(body, now, persisted))
    ensures Inv(judge, Step(judge, refreshAfter, w, Complete(body, now, persisted)))
  {
    if w.refreshing.Some? {
      var loaded, idle := w.refreshing.value, w.(refreshing := None);
      StopRefreshing(judge, w);
      var marks := JudgingMarks(loaded, w.held);
      var accepted := if body.Some? then Passes(judge, body.value, now, marks) else None;
      if accepted.Some? {
        AcceptKeeps(judge, w, body.value, accepted.value, now, persisted);
      } else {
        var cached := FirstPassing(judge, Cached(loaded, w.held), now, marks);
        if cached.Some? {
          CachedKnown(judge, w, cached.value.doc);
          PassingIsLatest(judge, w, cached.value.doc, now, cached.value.signedBy);
          assert judge(cached.value.doc, now).signedBy == cached.value.signedBy;
          GiveKeeps(judge, idle, cached.value);
        }
      }
    }
  }

  lemma AcceptKeeps(judge: Judge, w: World, doc: Signed, k: Key, now: nat, persisted: bool)
    requires Attributes(judge) && Inv(judge, w) && w.refreshing.Some?
    requires Passes(judge, doc, now, JudgingMarks(w.refreshing.value, w.held)) == Some(k)
    requires persisted || doc.directory.serial <= MarkIn(w.store, k)
    ensures Inv(judge, Accept(w.(refreshing := None), doc, k, now, persisted))
  {
    var idle := w.(refreshing := None);
    StopRefreshing(judge, w);
    PassingIsLatest(judge, w, doc, now, k);
    if persisted {
      MergeKeeps(judge, idle, doc, k, now, Max(w.clock, now));
      var s := Some(MergeStates(w.store, Statement(doc, k)));
      GiveKeeps(judge, idle.(store := s, clock := Max(w.clock, now)), Held(doc, k, now));
    } else {
      assert OwnMark(judge, w.store, doc);
      GiveKeeps(judge, idle.(clock := Max(w.clock, now)), Held(doc, k, now));
    }
  }

  lemma AskKeeps(judge: Judge, refreshAfter: nat, w: World, now: nat, readable: bool)
    requires Inv(judge, w)
    ensures Inv(judge, Step(judge, refreshAfter, w, Ask(now, readable)))
  {
    if HeldIsFresh(w, now, refreshAfter) {
      var held := w.held.value;
      var k, serial := held.signedBy, held.doc.directory.serial;
      MonotoneSnoc(w.returned, k, serial);
      var w' := Give(w, held);
      forall x ensures AtMost(w'.returned, x, MarkIn(w.store, x)) {
        AtMostSnoc(w.returned, k, serial, x, MarkIn(w.store, x));
      }
      AtMostSnoc(w.returned, k, serial, k, serial);
      if w.refreshing.Some? {
        var marks := JudgingMarks(w.refreshing.value, w.held);
        forall x ensures AtMost(w'.returned, x, Mark(marks, x)) {
          AtMostSnoc(w.returned, k, serial, x, Mark(marks, x));
        }
      }
    } else if w.refreshing.None? {
      forall x ensures AtMost(w.returned, x, Mark(JudgingMarks(w.store, w.held), x)) {
        AtMostUp(w.returned, x, MarkIn(w.store, x), Mark(JudgingMarks(w.store, w.held), x));
      }
    }
  }

  /** Every failed merge of this client is harmless. */
  predicate HarmlessRun(judge: Judge, refreshAfter: nat, w: World, es: seq<Event>)
  {
    es == [] ||
    var n := |es| - 1;
    HarmlessRun(judge, refreshAfter, w, es[..n]) && Harmless(judge, Run(judge, refreshAfter, w, es[..n]), es[n])
  }

  lemma {:induction false} RunKeeps(judge: Judge, refreshAfter: nat, w: World, es: seq<Event>)
    requires Attributes(judge) && Inv(judge, w) && HarmlessRun(judge, refreshAfter, w, es)
    ensures Inv(judge, Run(judge, refreshAfter, w, es))
  {
    hide Inv, Harmless, Attributes;
    if es != [] {
      var n := |es| - 1;
      RunKeeps(judge, refreshAfter, w, es[..n]);
      StepKeeps(judge, refreshAfter, Run(judge, refreshAfter, w, es[..n]), es[n]);
    }
  }

  lemma StepKeeps(judge: Judge, refreshAfter: nat, w: World, e: Event)
    requires Attributes(judge) && Inv(judge, w) && Harmless(judge, w, e)
    ensures Inv(judge, Step(judge, refreshAfter, w, e))
  {
    match e
    case Ask(now, readable) => AskKeeps(judge, refreshAfter, w, now, readable);
    case Complete(body, now, persisted) => CompleteKeeps(judge, refreshAfter, w, body, now, persisted);
    case Elsewhere(doc, now) =>
      if judge(doc, now).Valid? {
        MergeKeeps(judge, w, doc, judge(doc, now).signedBy, now, Max(w.clock, now));
      }
    case Restart =>
  }

  lemma StartInv(judge: Judge)
    ensures Inv(judge, START)
  {
  }

  /**
   Rollback safety: over every run whose failed merges are harmless, across
   fetches, refusals, cache fallbacks, restarts and other processes' merges, the
   serials one client returns for each signing key never decrease.
   */
  lemma SerialsNeverDecrease(judge: Judge, refreshAfter: nat, es: seq<Event>)
    requires Attributes(judge) && HarmlessRun(judge, refreshAfter, START, es)
    ensures Monotone(Run(judge, refreshAfter, START, es).returned)
  {
    hide Run, HarmlessRun, Attributes;
    StartInv(judge);
    RunKeeps(judge, refreshAfter, START, es);
  }

  lemma RunThen(judge: Judge, refreshAfter: nat, w: World, es: seq<Event>, e: Event)
    ensures Run(judge, refreshAfter, w, es + [e]) == Step(judge, refreshAfter, Run(judge, refreshAfter, w, es), e)
    ensures Run(judge, refreshAfter, w, []) == w
  {
    assert (es + [e])[..|es|] == es;
  }

  /**
   A merge that fails is harmless if and only if the store's mark covers the
   document: otherwise a restart and any valid document of that key between the
   two take its serials back. `d` is such a document, where there is need of one.
   */
  lemma FailedMergeIff(judge: Judge, refreshAfter: nat, w: World, doc: Signed, k: Key, now: nat, d: Signed, t: nat)
    requires Attributes(judge) && Inv(judge, w) && w.refreshing.Some?
    requires Passes(judge, doc, now, JudgingMarks(w.refreshing.value, w.held)) == Some(k)
    requires MarkIn(w.store, k) < doc.directory.serial ==>
               judge(d, t) == Valid(k) && MarkIn(w.store, k) <= d.directory.serial < doc.directory.serial
    ensures var failed := Accept(w.(refreshing := None), doc, k, now, false);
            (forall es | HarmlessRun(judge, refreshAfter, failed, es)
             :: Monotone(Run(judge, refreshAfter, failed, es).returned))
            <==> doc.directory.serial <= MarkIn(w.store, k)
  {
    var failed := Accept(w.(refreshing := None), doc, k, now, false);
    if doc.directory.serial <= MarkIn(w.store, k) {
      AcceptKeeps(judge, w, doc, k, now, false);
      forall es | HarmlessRun(judge, refreshAfter, failed, es)
        ensures Monotone(Run(judge, refreshAfter, failed, es).returned)
      {
        RunKeeps(judge, refreshAfter, failed, es);
      }
    } else {
      var es := Replay(judge, refreshAfter, failed, d, k, t);
      var returned := Run(judge, refreshAfter, failed, es).returned;
      var i := |failed.returned| - 1;
      assert returned[i] == (k, doc.directory.serial) && returned[i + 1] == (k, d.directory.serial);
      assert !Monotone(returned);
    }
  }

  /** Restart and fetch: a valid document at or above the store's mark is accepted, whatever was returned before. */
  lemma Replay(judge: Judge, refreshAfter: nat, w: World, d: Signed, k: Key, t: nat) returns (es: seq<Event>)
    requires judge(d, t) == Valid(k) && MarkIn(w.store, k) <= d.directory.serial
    ensures HarmlessRun(judge, refreshAfter, w, es)
    ensures Run(judge, refreshAfter, w, es).returned == w.returned + [(k, d.directory.serial)]
  {
    var a, b, c := Restart, Ask(t, true), Complete(Some(d), t, true);
    es := [a] + [b] + [c];
    RunThen(judge, refreshAfter, w, [], a);
    RunThen(judge, refreshAfter, w, [a], b);
    RunThen(judge, refreshAfter, w, [a] + [b], c);
    assert [] + [a] == [a];
    assert es[..2] == [a] + [b] && ([a] + [b])[..1] == [a] && [a][..0] == [];
    var asked := w.(held := None, refreshing := Some(w.store));
    assert Run(judge, refreshAfter, w, [a] + [b]) == asked;
    assert Passes(judge, d, t, JudgingMarks(w.store, None)) == Some(k);
    assert HarmlessRun(judge, refreshAfter, w, []);
    assert HarmlessRun(judge, refreshAfter, w, [a]);
    assert HarmlessRun(judge, refreshAfter, w, [a] + [b]);
  }

  // ---------------------------------------------------------------------
  // When a refresh answers, and with what
  // ---------------------------------------------------------------------

  /** Valid now, and not below what its key signed before: neither as loaded nor as held. */
  ghost predicate Good(judge: Judge, now: nat, loaded: Option<DirectoryState>, held: Option<Held>, doc: Option<Signed>)
  {
    && doc.Some? && judge(doc.value, now).Valid?
    && var k, serial := judge(doc.value, now).signedBy, doc.value.directory.serial;
    && MarkIn(loaded, k) <= serial
    && (held.Some? && held.value.signedBy == k ==> held.value.doc.directory.serial <= serial)
  }

  function DocumentHeld(held: Option<Held>): Option<Signed> { if held.Some? then Some(held.value.doc) else None }

  /** The first good one of the fetched, the held and the stored document; none only if none is good. */
  ghost function Answer(
      judge: Judge, now: nat, loaded: Option<DirectoryState>, held: Option<Held>, body: Option<Signed>)
    : (r: Option<Signed>)
    ensures r.Some? <==> exists doc | doc in {body, DocumentHeld(held), DocumentIn(loaded)} ::
                           Good(judge, now, loaded, held, doc)
    ensures r.Some? ==> Good(judge, now, loaded, held, r)
  {
    if Good(judge, now, loaded, held, body) then body
    else if Good(judge, now, loaded, held, DocumentHeld(held)) then DocumentHeld(held)
    else if Good(judge, now, loaded, held, DocumentIn(loaded)) then DocumentIn(loaded)
    else None
  }

  lemma PassesIff(judge: Judge, now: nat, loaded: Option<DirectoryState>, held: Option<Held>, doc: Signed)
    ensures Passes(judge, doc, now, JudgingMarks(loaded, held))
         == if Good(judge, now, loaded, held, Some(doc)) then Some(judge(doc, now).signedBy) else None
  {
  }

  /** With no fetched document the answer is the first cached one that passes. */
  lemma CachedAnswer(judge: Judge, now: nat, loaded: Option<DirectoryState>, held: Option<Held>)
    ensures FirstPassing(judge, Cached(loaded, held), now, JudgingMarks(loaded, held))
         == match Answer(judge, now, loaded, held, None)
            case Some(doc) => Some(Held(doc, judge(doc, now).signedBy, now))
            case None => None
  {
    var docs, marks := Cached(loaded, held), JudgingMarks(loaded, held);
    forall i | 0 <= i < |docs| {
      PassesIff(judge, now, loaded, held, docs[i]);
    }
    hide Good, Passes, JudgingMarks;
    if |docs| > 0 {
      assert |docs[1..]| > 0 ==> docs[1..][0] == docs[1] && docs[1..][1..] == [];
    }
  }

  /**
   A refresh that ends answers with the first good document of the fetched, the
   held and the stored one, holds it from now on, and stores it exactly when it
   was fetched and the merge succeeds; with none good it changes nothing.
   */
  lemma RefreshAnswers(judge: Judge, refreshAfter: nat, w: World, body: Option<Signed>, now: nat, persisted: bool)
    requires w.refreshing.Some?
    ensures var w', loaded := Step(judge, refreshAfter, w, Complete(body, now, persisted)), w.refreshing.value;
            && w'.refreshing.None?
            && (match Answer(judge, now, loaded, w.held, body)
                case Some(doc) =>
                  var k := judge(doc, now).signedBy;
                  && w'.held == Some(Held(doc, k, now))
                  && w'.returned == w.returned + [(k, doc.directory.serial)]
                case None => w'.held == w.held && w'.returned == w.returned)
            && w'.store == (if persisted && Good(judge, now, loaded, w.held, body) then
                              var k, serial := judge(body.value, now).signedBy, body.value.directory.serial;
                              MergeAll(w.store, [DirectoryState(map[k := serial], body)])
                            else w.store)
  {
    var loaded, marks := w.refreshing.value, JudgingMarks(w.refreshing.value, w.held);
    if body.Some? {
      PassesIff(judge, now, loaded, w.held, body.value);
    }
    CachedAnswer(judge, now, loaded, w.held);
    hide Good, Passes, JudgingMarks, FirstPassing, MergeStates;
  }

  /** After a restart and with no network, the stored document is the answer exactly while it is good. */
  lemma OfflineAnswers(judge: Judge, refreshAfter: nat, w: World, now: nat)
    ensures var w' := Run(judge, refreshAfter, w, [Restart, Ask(now, true), Complete(None, now, true)]);
            if Good(judge, now, w.store, None, DocumentIn(w.store)) then
              var doc := DocumentIn(w.store).value;
              && w'.held == Some(Held(doc, judge(doc, now).signedBy, now))
              && w'.returned == w.returned + [(judge(doc, now).signedBy, doc.directory.serial)]
            else w'.held.None? && w'.returned == w.returned
  {
    var a, b, c := Restart, Ask(now, true), Complete(None, now, true);
    RunThen(judge, refreshAfter, w, [], a);
    RunThen(judge, refreshAfter, w, [a], b);
    RunThen(judge, refreshAfter, w, [a] + [b], c);
    assert [] + [a] == [a] && [a] + [b] + [c] == [a, b, c];
    RefreshAnswers(judge, refreshAfter, w.(held := None, refreshing := Some(w.store)), None, now, true);
  }

  // ---------------------------------------------------------------------
  // A failed merge, within one process
  // ---------------------------------------------------------------------

  const SIGNED_BY_FIRST: Bytes := seq(Encoding.SIGNATURE_LENGTH, _ => 1)
  const SIGNED_BY_SECOND: Bytes := seq(Encoding.SIGNATURE_LENGTH, _ => 2)

  /** A document with no relays, of the given serial, issued at 9 and expiring at 10. */
  function Plain(serial: nat, signature: Bytes): Signed { Signed(Directory(serial, 9, 10, []), signature) }

  lemma PlainVerdict(a: Key, b: Key, verify: Verifier, serial: nat, signature: Bytes, now: nat)
    requires a != b && 1 <= serial <= 9 && now < 10
    requires forall bytes: Bytes, k: Key ::
               verify(bytes, signature, k) == (k == if signature == SIGNED_BY_FIRST then a else b)
    ensures PinnedJudge([a, b], verify)(Plain(serial, signature), now)
            == Valid(if signature == SIGNED_BY_FIRST then a else b)
  {
    var d := Plain(serial, signature).directory;
    EmptyDirectoryShort(d);
    assert Acceptable(d);
    var bytes := DirectoryBytes(d);
    hide DirectoryBytes, Acceptable;
    assert [a, b][1..] == [b];
    assert Signer([b], bytes, signature, verify)
      == if verify(bytes, signature, b) then Some(b) else Signer([], bytes, signature, verify)
    by { assert [b][1..] == []; }
  }

  /**
   When a merge fails the promise is lost even without a restart: after another
   pinned key's document the first key's serials may go back.
   */
  lemma FailedMergeCounterexample(a: Key, b: Key, verify: Verifier)
    requires a != b
    requires forall bytes: Bytes, k: Key :: verify(bytes, SIGNED_BY_FIRST, k) == (k == a)
    requires forall bytes: Bytes, k: Key :: verify(bytes, SIGNED_BY_SECOND, k) == (k == b)
    ensures var d5, e1, d3 := Plain(5, SIGNED_BY_FIRST), Plain(1, SIGNED_BY_SECOND), Plain(3, SIGNED_BY_FIRST);
            var es := [Ask(0, true), Complete(Some(d5), 0, false), Ask(1, true), Complete(Some(e1), 1, true),
                       Ask(2, true), Complete(Some(d3), 2, true)];
            Run(PinnedJudge([a, b], verify), 1, START, es).returned == [(a, 5), (b, 1), (a, 3)]
  {
    assert SIGNED_BY_FIRST[0] != SIGNED_BY_SECOND[0];
    PlainVerdict(a, b, verify, 5, SIGNED_BY_FIRST, 0);
    PlainVerdict(a, b, verify, 1, SIGNED_BY_SECOND, 1);
    PlainVerdict(a, b, verify, 3, SIGNED_BY_FIRST, 2);
    hide PinnedJudge;
    var judge := PinnedJudge([a, b], verify);
    var d5, e1, d3 := Plain(5, SIGNED_BY_FIRST), Plain(1, SIGNED_BY_SECOND), Plain(3, SIGNED_BY_FIRST);
    SixEvents(judge, a, b, d5, e1, d3);
  }

  lemma SixEvents(judge: Judge, a: Key, b: Key, d5: Signed, e1: Signed, d3: Signed)
    requires a != b && judge(d5, 0) == Valid(a) && judge(e1, 1) == Valid(b) && judge(d3, 2) == Valid(a)
    requires d5.directory.serial == 5 && e1.directory.serial == 1 && d3.directory.serial == 3
    ensures var es := [Ask(0, true), Complete(Some(d5), 0, false), Ask(1, true), Complete(Some(e1), 1, true),
                       Ask(2, true), Complete(Some(d3), 2, true)];
            Run(judge, 1, START, es).returned == [(a, 5), (b, 1), (a, 3)]
  {
    var w2 := World(None, Some(Held(d5, a, 0)), None, [(a, 5)], 0);
    RunThen(judge, 1, START, [], Ask(0, true));
    var s2 := [Ask(0, true)] + [Complete(Some(d5), 0, false)];
    RunThen(judge, 1, START, [Ask(0, true)], Complete(Some(d5), 0, false));
    assert [] + [Ask(0, true)] == [Ask(0, true)];
    assert Run(judge, 1, START, s2) == w2;
    var w4 := Accept(w2, e1, b, 1, true);
    var s4 := s2 + [Ask(1, true)] + [Complete(Some(e1), 1, true)];
    RefetchAccepts(judge, s2, e1, 1, b);
    assert Run(judge, 1, START, s4) == w4;
    assert MarkIn(w4.store, a) == 0 by { assert Mark(map[b := 1], a) == 0; }
    var s6 := s4 + [Ask(2, true)] + [Complete(Some(d3), 2, true)];
    RefetchAccepts(judge, s4, d3, 2, a);
    var w6 := Accept(w4, d3, a, 2, true);
    assert w6.returned == [(a, 5), (b, 1), (a, 3)];
    assert s6 == [Ask(0, true), Complete(Some(d5), 0, false), Ask(1, true), Complete(Some(e1), 1, true),
                  Ask(2, true), Complete(Some(d3), 2, true)];
  }

  /** Asking once the held document is stale, then completing with a body that passes, accepts it. */
  lemma RefetchAccepts(judge: Judge, es: seq<Event>, doc: Signed, now: nat, k: Key)
    requires var w := Run(judge, 1, START, es);
             w.refreshing.None? && w.held.Some? && w.held.value.fetchedAt + 1 <= now
             && Passes(judge, doc, now, JudgingMarks(w.store, w.held)) == Some(k)
    ensures Run(judge, 1, START, es + [Ask(now, true)] + [Complete(Some(doc), now, true)])
         == Accept(Run(judge, 1, START, es), doc, k, now, true)
  {
    hide Run;
    RunThen(judge, 1, START, es, Ask(now, true));
    RunThen(judge, 1, START, es + [Ask(now, true)], Complete(Some(doc), now, true));
  }

  // ---------------------------------------------------------------------
  // No lock-out
  // ---------------------------------------------------------------------

  ghost predicate Bounded(w: World)
  {
    && (forall k :: MarkIn(w.store, k) <= w.clock + MAX_DIRECTORY_CLOCK_SKEW_SECONDS)
    && (w.held.Some? ==> w.held.value.doc.directory.serial <= w.clock + MAX_DIRECTORY_CLOCK_SKEW_SECONDS)
    && (w.refreshing.Some? ==>
          && (forall k :: MarkIn(w.refreshing.value, k) <= w.clock + MAX_DIRECTORY_CLOCK_SKEW_SECONDS)
          && DocumentBounded(w.refreshing.value, w.clock))
    && DocumentBounded(w.store, w.clock)
  }

  ghost predicate DocumentBounded(s: Option<DirectoryState>, clock: nat)
  {
    s.Some? && s.value.document.Some? ==>
      s.value.document.value.directory.serial <= clock + MAX_DIRECTORY_CLOCK_SKEW_SECONDS
  }

  lemma MergeBounded(w: World, doc: Signed, k: Key, clock: nat)
    requires Bounded(w) && w.clock <= clock && doc.directory.serial <= clock + MAX_DIRECTORY_CLOCK_SKEW_SECONDS
    ensures Bounded(w.(store := Some(MergeStates(w.store, Statement(doc, k))), clock := clock))
  {
    var s := Some(MergeStates(w.store, Statement(doc, k)));
    forall x ensures MarkIn(s, x) <= clock + MAX_DIRECTORY_CLOCK_SKEW_SECONDS {
      assert MarkIn(s, x) == Max(MarkIn(w.store, x), Mark(map[k := doc.directory.serial], x));
    }
  }

  lemma GiveBounded(w: World, held: Held)
    requires Bounded(w) && held.doc.directory.serial <= w.clock + MAX_DIRECTORY_CLOCK_SKEW_SECONDS
    ensures Bounded(Give(w, held))
  {
  }

  lemma AcceptBounded(judge: Judge, w: World, doc: Signed, k: Key, now: nat, persisted: bool)
    requires Dated(judge) && Bounded(w) && judge(doc, now) == Valid(k)
    ensures Bounded(Accept(w, doc, k, now, persisted))
  {
    hide MergeStates, Bounded;
    var clock := Max(w.clock, now);
    var later := w.(clock := clock);
    assert Bounded(later) by { LaterBounded(w, clock); }
    GiveBounded(later, Held(doc, k, now));
    if persisted {
      MergeBounded(Give(later, Held(doc, k, now)), doc, k, clock);
    }
  }

  lemma LaterBounded(w: World, clock: nat)
    requires Bounded(w) && w.clock <= clock
    ensures Bounded(w.(clock := clock))
  {
  }

  lemma StepBounded(judge: Judge, refreshAfter: nat, w: World, e: Event)
    requires Dated(judge) && Bounded(w)
    ensures Bounded(Step(judge, refreshAfter, w, e))
  {
    hide MergeStates, Passes, JudgingMarks;
    match e
    case Ask(now, readable) =>
      if HeldIsFresh(w, now, refreshAfter) {
        GiveBounded(w, w.held.value);
      }
    case Elsewhere(doc, now) =>
      if judge(doc, now).Valid? {
        MergeBounded(w, doc, judge(doc, now).signedBy, Max(w.clock, now));
      }
    case Restart =>
    case Complete(body, now, persisted) =>
      if w.refreshing.Some? {
        CompleteBounded(judge, refreshAfter, w, body, now, persisted);
      }
  }

  lemma PassesValid(judge: Judge, doc: Signed, now: nat, marks: map<Key, nat>)
    requires Passes(judge, doc, now, marks).Some?
    ensures judge(doc, now) == Valid(Passes(judge, doc, now, marks).value)
  {
  }

  lemma CompleteBounded(judge: Judge, refreshAfter: nat, w: World, body: Option<Signed>, now: nat, persisted: bool)
    requires Dated(judge) && Bounded(w) && w.refreshing.Some?
    ensures Bounded(Step(judge, refreshAfter, w, Complete(body, now, persisted)))
  {
    hide MergeStates, Passes, JudgingMarks, FirstPassing;
    var loaded, idle := w.refreshing.value, w.(refreshing := None);
    var marks := JudgingMarks(loaded, w.held);
    if body.Some? && Passes(judge, body.value, now, marks).Some? {
      PassesValid(judge, body.value, now, marks);
      AcceptBounded(judge, idle, body.value, Passes(judge, body.value, now, marks).value, now, persisted);
    } else {
      var cached := FirstPassing(judge, Cached(loaded, w.held), now, marks);
      if cached.Some? {
        GiveBounded(idle, cached.value);
      }
    }
  }

  /** Every mark is at most the latest accepting clock plus 600 seconds. */
  lemma {:induction false} MarksBounded(judge: Judge, refreshAfter: nat, es: seq<Event>)
    requires Dated(judge)
    ensures Bounded(Run(judge, refreshAfter, START, es))
  {
    hide Bounded, Step;
    if es != [] {
      var n := |es| - 1;
      MarksBounded(judge, refreshAfter, es[..n]);
      StepBounded(judge, refreshAfter, Run(judge, refreshAfter, START, es[..n]), es[n]);
    } else {
      StartBounded();
    }
  }

  lemma StartBounded()
    ensures Bounded(START)
  {
  }

  /** So a valid document that its signer numbers at or past that bound is never refused as rolled back. */
  lemma NoLockout(judge: Judge, refreshAfter: nat, es: seq<Event>, doc: Signed, now: nat)
    requires Dated(judge) && judge(doc, now).Valid?
    requires Run(judge, refreshAfter, START, es).refreshing.Some?
    requires doc.directory.serial >= Run(judge, refreshAfter, START, es).clock + MAX_DIRECTORY_CLOCK_SKEW_SECONDS
    ensures var w := Run(judge, refreshAfter, START, es);
            Passes(judge, doc, now, JudgingMarks(w.refreshing.value, w.held)) == Some(judge(doc, now).signedBy)
  {
    hide Run, Step;
    MarksBounded(judge, refreshAfter, es);
    var w, k := Run(judge, refreshAfter, START, es), judge(doc, now).signedBy;
    assert MarkIn(w.refreshing.value, k) <= doc.directory.serial;
  }

  // ---------------------------------------------------------------------
  // The classes
  // ---------------------------------------------------------------------

  /** The store shared by every process of the user; merges are atomic under its lock. */
  class DirectoryStore {
    var state: Option<DirectoryState>

    constructor ()
      ensures state == None
    {
      state := None;
    }

    method Merge(next: DirectoryState)
      modifies this
      ensures state == Some(MergeStates(old(state), next))
    {
      state := Some(MergeStates(state, next));
    }
  }

  class RelayDirectoryClient {
    const store: DirectoryStore
    const judge: Judge
    const refreshAfter: nat
    var held: Option<Held>
    var refreshing: Option<Option<DirectoryState>>
    ghost var returned: seq<(Key, nat)>
    ghost var clock: nat

    ghost function View(): World
      reads this, store
    {
      World(store.state, held, refreshing, returned, clock)
    }

    constructor (store: DirectoryStore, judge: Judge, refreshAfter: nat)
      ensures this.store == store && this.judge == judge && this.refreshAfter == refreshAfter
      ensures View() == START.(store := store.state)
    {
      this.store, this.judge, this.refreshAfter := store, judge, refreshAfter;
      held, refreshing, returned, clock := None, None, [], 0;
    }

    /** `get`: the held directory while it is fresh; otherwise one refresh, shared by all callers. */
    method Get(now: nat, readable: bool) returns (r: Option<Signed>)
      modifies this
      ensures View() == Step(judge, refreshAfter, old(View()), Ask(now, readable))
      ensures r.Some? <==> old(held).Some? && now < old(held).value.doc.directory.expiresAt
                           && now < old(held).value.fetchedAt + refreshAfter
      ensures r.Some? ==> r.value == old(held).value.doc && refreshing == old(refreshing)
      ensures r.None? && readable ==> refreshing == if old(refreshing).Some? then old(refreshing) else Some(store.state)
    {
      if held.Some? && now < held.value.doc.directory.expiresAt && now < held.value.fetchedAt + refreshAfter {
        returned := returned + [(held.value.signedBy, held.value.doc.directory.serial)];
        return Some(held.value.doc);
      }
      if refreshing.None? && readable {
        refreshing := Some(store.state);
      }
      return None;
    }

    /** `refresh` after its fetch: accept, or fall back to a cached document that still verifies, or fail. */
    method FinishRefresh(body: Option<Signed>, now: nat, persisted: bool) returns (r: Option<Signed>)
      requires refreshing.Some?
      modifies this, store
      ensures View() == Step(judge, refreshAfter, old(View()), Complete(body, now, persisted))
      ensures r == Answer(judge, now, old(refreshing).value, old(held), body)
      ensures r.Some? ==> held == Some(Held(r.value, judge(r.value, now).signedBy, now))
    {
      RefreshAnswers(judge, refreshAfter, View(), body, now, persisted);
      var loaded := refreshing.value;
      refreshing := None;
      var marks := JudgingMarks(loaded, held);
      if body.Some? {
        var k := Passes(judge, body.value, now, marks);
        if k.Some? {
          AcceptDocument(body.value, k.value, now, persisted);
          return body;
        }
      }
      var fallback := FindPassing(judge, Cached(loaded, held), now, marks);
      if fallback.None? {
        return None;
      }
      held := fallback;
      returned := returned + [(fallback.value.signedBy, fallback.value.doc.directory.serial)];
      return Some(fallback.value.doc);
    }

    method AcceptDocument(doc: Signed, k: Key, now: nat, persisted: bool)
      modifies this, store
      ensures View() == Accept(old(View()), doc, k, now, persisted)
    {
      held := Some(Held(doc, k, now));
      returned := returned + [(k, doc.directory.serial)];
      clock := Max(clock, now);
      if persisted {
        store.Merge(Statement(doc, k));
      }
    }
  }
}
