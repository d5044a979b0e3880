/**
 Domain-key rotation statements and the walk from a pinned key to a presented
 one (packages/crypto/src/domain-key.ts).
 */
module DomainKey {
  import opened Wrappers
  import opened Bytes
  import opened Text
  import opened Encoding
  import Scope
  import opened Grants

  const MAX_DOMAIN_KEY_ROTATIONS := 32
  const ROTATION_CONTEXT: Bytes := Tag("tnp-domain-key-rotation-v1")

  datatype Rotation = Rotation(name: JsString, previousKey: Key, nextKey: Key, issuedAt: nat)

  predicate CanonicalRotation(r: Rotation)
  {
    Scope.IsValidScope(r.name) && r.previousKey != r.nextKey && IsUint(r.issuedAt)
  }

  function RotationFields(context: Bytes, name: Bytes, r: Rotation): (fs: seq<Field>)
  {
    [Prefixed(context), Prefixed(name), Fixed(r.previousKey), Fixed(r.nextKey), Uint(r.issuedAt)]
  }

  function RotationBytes(r: Rotation): Bytes { Canonical(RotationFields(ROTATION_CONTEXT, Utf8(r.name), r)) }

  lemma RotationPartsInjective(c: Bytes, m: Bytes, r: Rotation, n: Bytes, s: Rotation)
    requires |c| < 0x1_0000_0000 && |m| < 0x1_0000_0000 && |n| < 0x1_0000_0000
    requires IsUint(r.issuedAt) && IsUint(s.issuedAt)
    requires Canonical(RotationFields(c, m, r)) == Canonical(RotationFields(c, n, s))
    ensures m == n && r == s.(name := r.name)
  {
    var fs, gs := RotationFields(c, m, r), RotationFields(c, n, s);
    CanonicalInjective(fs, gs);
    assert fs[1] == gs[1] && fs[2] == gs[2] && fs[3] == gs[3] && fs[4] == gs[4];
  }

  /** Equal signed bytes mean equal statements. */
  lemma RotationBytesInjective(r: Rotation, s: Rotation)
    requires CanonicalRotation(r) && CanonicalRotation(s) && RotationBytes(r) == RotationBytes(s)
    ensures r == s
  {
    Utf8Length(r.name);
    Utf8Length(s.name);
    RotationPartsInjective(ROTATION_CONTEXT, Utf8(r.name), r, Utf8(s.name), s);
    ScopeTextInjective(Some(r.name), Some(s.name));
  }

  // ---------------------------------------------------------------------
  // The walk
  // ---------------------------------------------------------------------

  /** An entry of the published history: a reading and a signature, or something unreadable. */
  datatype Statement = Readable(rotation: Rotation, signature: Bytes) | Unreadable

  /** `verifyDomainKeyRotation`: readable, for this name, signed by the key it retires. */
  predicate Genuine(s: Statement, name: JsString, verify: Verifier)
  {
    && s.Readable? && CanonicalRotation(s.rotation)
    && s.rotation.name == name
    && verify(RotationBytes(s.rotation), s.signature, s.rotation.previousKey)
  }

  /** `at` picks genuine statements, later in the list and later in time, linking `from` to `to`. */
  ghost predicate Links(history: seq<Statement>, good: seq<bool>, at: seq<nat>, from: Key, to: Key)
    requires |good| == |history|
  {
    && (forall i | 0 <= i < |at| :: at[i] < |history| && good[at[i]] && history[at[i]].Readable?)
    && (forall i | 0 < i < |at| :: at[i - 1] < at[i]
          && history[at[i - 1]].rotation.issuedAt < history[at[i]].rotation.issuedAt
          && history[at[i]].rotation.previousKey == history[at[i - 1]].rotation.nextKey)
    && (at == [] ==> from == to)
    && (at != [] ==> history[at[0]].rotation.previousKey == from && history[at[|at| - 1]].rotation.nextKey == to)
  }

  /** Which statements are genuine, computed once. */
  ghost function GenuineFlags(history: seq<Statement>, name: JsString, verify: Verifier): (good: seq<bool>)
    ensures |good| == |history|
    ensures forall i | 0 <= i < |history| :: good[i] == Genuine(history[i], name, verify)
  {
    seq(|history|, i requires 0 <= i < |history| => Genuine(history[i], name, verify))
  }

  /** No two genuine statements retire the same key. */
  ghost predicate Unforked(history: seq<Statement>, good: seq<bool>)
    requires |good| == |history|
  {
    forall i, j | 0 <= i < j < |history| && good[i] && good[j] && history[i].Readable? && history[j].Readable? ::
      history[i].rotation.previousKey != history[j].rotation.previousKey
  }

  /** Whether some selection of statements leads from `pinned` to `current`. */
  ghost predicate Reachable(history: seq<Statement>, good: seq<bool>, pinned: Key, current: Key)
    requires |good| == |history|
  {
    exists at: seq<nat> :: Links(history, good, at, pinned, current)
  }

  /** The greedy walk as a function: take every statement that continues it. */
  ghost function Walk(
    history: seq<Statement>, good: seq<bool>, k: nat, cursor: Key, lastIssuedAt: int, steps: nat, current: Key)
    : (r: Option<nat>)
    requires k <= |history| == |good|
    decreases |history| - k
  {
    if cursor == current then Some(steps)
    else if k == |history| then None
    else if Continues(history[k], good[k], cursor, lastIssuedAt) then
      Walk(history, good, k + 1, history[k].rotation.nextKey, history[k].rotation.issuedAt, steps + 1, current)
    else Walk(history, good, k + 1, cursor, lastIssuedAt, steps, current)
  }

  predicate Continues(s: Statement, genuine: bool, cursor: Key, lastIssuedAt: int)
  {
    genuine && s.Readable? && s.rotation.previousKey == cursor && s.rotation.issuedAt > lastIssuedAt
  }

  /** The walk from the pinned key, unless the history is longer than is read. */
  ghost function Followed(pinned: Key, current: Key, name: JsString, history: seq<Statement>, verify: Verifier)
    : Option<nat>
  {
    if pinned != current && |history| > MAX_DOMAIN_KEY_ROTATIONS then None
    else Walk(history, GenuineFlags(history, name, verify), 0, pinned, -1, 0, current)
  }

  /** `followDomainKeyRotations` on parsed keys: the loop computes the walk. */
  method FollowDomainKeyRotations(pinned: Key, current: Key, name: JsString, history: seq<Statement>, verify: Verifier)
    returns (r: Option<nat>)
    ensures r == Followed(pinned, current, name, history, verify)
  {
    hide RotationBytes;
    ghost var good := GenuineFlags(history, name, verify);
    if pinned == current {
      return Some(0);
    }
    if |history| > MAX_DOMAIN_KEY_ROTATIONS {
      return None;
    }
    var cursor, steps := pinned, 0;
    var lastIssuedAt: int := -1;
    for k := 0 to |history|
      invariant cursor != current
      invariant Walk(history, good, 0, pinned, -1, 0, current)
              == Walk(history, good, k, cursor, lastIssuedAt, steps, current)
    {
      var s := history[k];
      if !Genuine(s, name, verify) || s.rotation.previousKey != cursor || s.rotation.issuedAt <= lastIssuedAt {
        continue;
      }
      cursor, lastIssuedAt, steps := s.rotation.nextKey, s.rotation.issuedAt, steps + 1;
      if cursor == current {
        return Some(steps);
      }
    }
    return None;
  }

  /** `at` may be taken by a walk that has read `k` statements and last followed one issued at `last`. */
  ghost predicate StartsAfter(history: seq<Statement>, at: seq<nat>, k: nat, last: int)
  {
    at != [] ==> k <= at[0] < |history| && history[at[0]].Readable? && history[at[0]].rotation.issuedAt > last
  }

  lemma LinksCons(history: seq<Statement>, good: seq<bool>, k: nat, at: seq<nat>, to: Key)
    requires k < |history| == |good| && good[k] && history[k].Readable?
    requires Links(history, good, at, history[k].rotation.nextKey, to)
    requires StartsAfter(history, at, k + 1, history[k].rotation.issuedAt)
    ensures Links(history, good, [k] + at, history[k].rotation.previousKey, to)
  {
    var more := [k] + at;
    forall i | 0 < i < |more| ensures more[i - 1] < more[i]
          && history[more[i - 1]].rotation.issuedAt < history[more[i]].rotation.issuedAt
          && history[more[i]].rotation.previousKey == history[more[i - 1]].rotation.nextKey
    {
      assert more[i] == at[i - 1] && (i > 1 ==> more[i - 1] == at[i - 2]);
    }
  }

  /** Soundness: success in n steps is a genuine selection of n statements from the pinned key to the presented one. */
  lemma {:induction false} WalkSound(
    history: seq<Statement>, good: seq<bool>, k: nat, cursor: Key, last: int, steps: nat, current: Key)
    returns (at: seq<nat>)
    requires k <= |history| == |good| && Walk(history, good, k, cursor, last, steps, current).Some?
    ensures Walk(history, good, k, cursor, last, steps, current).value == steps + |at|
    ensures Links(history, good, at, cursor, current) && StartsAfter(history, at, k, last)
    decreases |history| - k
  {
    at := [];
    if cursor != current {
      if Continues(history[k], good[k], cursor, last) {
        var r := history[k].rotation;
        var rest := WalkSound(history, good, k + 1, r.nextKey, r.issuedAt, steps + 1, current);
        LinksCons(history, good, k, rest, current);
        at := [k] + rest;
      } else {
        at := WalkSound(history, good, k + 1, cursor, last, steps, current);
      }
    }
  }

  lemma LinksTail(history: seq<Statement>, good: seq<bool>, at: seq<nat>, from: Key, to: Key)
    requires |good| == |history| && at != [] && Links(history, good, at, from, to)
    ensures Links(history, good, at[1..], history[at[0]].rotation.nextKey, to)
    ensures StartsAfter(history, at[1..], at[0] + 1, history[at[0]].rotation.issuedAt)
  {
    var rest := at[1..];
    assert forall i | 0 <= i < |rest| :: rest[i] == at[i + 1];
  }

  /**
   Wherever the walk follows a statement, no later one could have continued it
   from the same key instead. Only the walk's own line matters, up to the key
   `stop` if it comes to that.
   */
  ghost predicate NoFork(
    history: seq<Statement>, good: seq<bool>, k: nat, cursor: Key, last: int, stop: Option<Key>)
    requires k <= |history| == |good|
    decreases |history| - k
  {
    stop == Some(cursor) || k == |history| ||
    if Continues(history[k], good[k], cursor, last) then
      && (forall j | k < j < |history| :: !Continues(history[j], good[j], cursor, last))
      && NoFork(history, good, k + 1, history[k].rotation.nextKey, history[k].rotation.issuedAt, stop)
    else NoFork(history, good, k + 1, cursor, last, stop)
  }

  /** In particular where no two genuine statements retire the same key. */
  lemma {:induction false} UnforkedNoFork(
    history: seq<Statement>, good: seq<bool>, k: nat, cursor: Key, last: int, stop: Option<Key>)
    requires k <= |history| == |good| && Unforked(history, good)
    ensures NoFork(history, good, k, cursor, last, stop)
    decreases |history| - k
  {
    if k < |history| {
      if Continues(history[k], good[k], cursor, last) {
        UnforkedNoFork(history, good, k + 1, history[k].rotation.nextKey, history[k].rotation.issuedAt, stop);
      } else {
        UnforkedNoFork(history, good, k + 1, cursor, last, stop);
      }
    }
  }

  /** Completeness: without a fork on its line the walk finds every presented key that is reachable at all. */
  lemma {:induction false} WalkComplete(
    history: seq<Statement>, good: seq<bool>, k: nat, cursor: Key, last: int, steps: nat, current: Key,
    target: seq<nat>)
    requires k <= |history| == |good| && NoFork(history, good, k, cursor, last, Some(current))
    requires Links(history, good, target, cursor, current) && StartsAfter(history, target, k, last)
    ensures Walk(history, good, k, cursor, last, steps, current).Some?
    decreases |history| - k
  {
    if cursor != current {
      if k == target[0] {
        LinksTail(history, good, target, cursor, current);
        var r := history[k].rotation;
        WalkComplete(history, good, k + 1, r.nextKey, r.issuedAt, steps + 1, current, target[1..]);
      } else {
        assert Continues(history[target[0]], good[target[0]], cursor, last);
        WalkComplete(history, good, k + 1, cursor, last, steps, current, target);
      }
    }
  }

  lemma StartsAnywhere(history: seq<Statement>, good: seq<bool>, at: seq<nat>, from: Key, to: Key)
    requires |history| == |good| && Links(history, good, at, from, to)
    ensures StartsAfter(history, at, 0, -1)
  {
  }

  /** Where no fork lies on the line to it, the walk succeeds exactly when some selection leads to the presented key. */
  lemma WalkExact(history: seq<Statement>, good: seq<bool>, pinned: Key, current: Key)
    requires |history| == |good| && NoFork(history, good, 0, pinned, -1, Some(current))
    ensures Walk(history, good, 0, pinned, -1, 0, current).Some? <==> Reachable(history, good, pinned, current)
  {
    hide Walk, NoFork, Links, StartsAfter;
    if Walk(history, good, 0, pinned, -1, 0, current).Some? {
      var at := WalkSound(history, good, 0, pinned, -1, 0, current);
    }
    if Reachable(history, good, pinned, current) {
      var target: seq<nat> :| Links(history, good, target, pinned, current);
      StartsAnywhere(history, good, target, pinned, current);
      WalkComplete(history, good, 0, pinned, -1, 0, current, target);
    }
  }

  // ---------------------------------------------------------------------
  // Exactly when the walk misses nothing
  // ---------------------------------------------------------------------

  predicate Introduces(s: Statement, genuine: bool, key: Key) { genuine && s.Readable? && s.rotation.nextKey == key }

  /** No statement from `k` on introduces `key`. */
  ghost predicate NotIntroduced(history: seq<Statement>, good: seq<bool>, k: nat, key: Key)
    requires |history| == |good|
  {
    forall i | k <= i < |history| :: !Introduces(history[i], good[i], key)
  }

  /** Every rotation is to a key of its own: none is introduced twice, and the pinned one never. */
  ghost predicate NewKeys(history: seq<Statement>, good: seq<bool>, pinned: Key)
    requires |history| == |good|
  {
    && NotIntroduced(history, good, 0, pinned)
    && forall i, j | 0 <= i < j < |history| && good[i] && good[j] && history[i].Readable? && history[j].Readable? ::
         history[i].rotation.nextKey != history[j].rotation.nextKey
  }

  /** A selection that starts at or after `k` ends in a key introduced at or after `k`, and goes on from no other. */
  lemma LinksIntroduce(history: seq<Statement>, good: seq<bool>, at: seq<nat>, from: Key, to: Key, k: nat, last: int)
    requires |history| == |good| && at != [] && Links(history, good, at, from, to) && StartsAfter(history, at, k, last)
    ensures var e := at[|at| - 1];
            && k <= e < |history| && Introduces(history[e], good[e], to)
            && (history[e].rotation.previousKey == from
                || !NotIntroduced(history, good, k, history[e].rotation.previousKey))
  {
    LinksFrom(history, good, at, from, to, |at| - 1);
    var n := |at| - 1;
    if n > 0 {
      LinksFrom(history, good, at, from, to, n - 1);
      assert Introduces(history[at[n - 1]], good[at[n - 1]], history[at[n]].rotation.previousKey);
    }
  }

  lemma {:induction false} LinksFrom(history: seq<Statement>, good: seq<bool>, at: seq<nat>, from: Key, to: Key, n: nat)
    requires |history| == |good| && Links(history, good, at, from, to) && n < |at|
    ensures at[0] <= at[n]
  {
    if n > 0 {
      LinksFrom(history, good, at, from, to, n - 1);
    }
  }

  /** The key of the statement at `j`, which could have been followed at `k` instead, is one the walk never comes to. */
  lemma ForkMissed(
    history: seq<Statement>, good: seq<bool>, k: nat, cursor: Key, last: int, steps: nat, pinned: Key, j: nat)
    requires k < j < |history| == |good| && NewKeys(history, good, pinned) && NotIntroduced(history, good, k, cursor)
    requires Continues(history[k], good[k], cursor, last) && Continues(history[j], good[j], cursor, last)
    ensures Walk(history, good, k, cursor, last, steps, history[j].rotation.nextKey).None?
  {
    hide Walk, Links, StartsAfter;
    var x, r := history[j].rotation.nextKey, history[k].rotation;
    assert Introduces(history[j], good[j], x) && Introduces(history[k], good[k], r.nextKey);
    assert Walk(history, good, k, cursor, last, steps, x)
      == Walk(history, good, k + 1, r.nextKey, r.issuedAt, steps + 1, x)
    by { WalkFollows(history, good, k, cursor, last, steps, x); }
    if Walk(history, good, k + 1, r.nextKey, r.issuedAt, steps + 1, x).Some? {
      var at := WalkSound(history, good, k + 1, r.nextKey, r.issuedAt, steps + 1, x);
      if at == [] {
        LinksNone(history, good, at, r.nextKey, x);
      } else {
        LinksIntroduce(history, good, at, r.nextKey, x, k + 1, r.issuedAt);
      }
    }
  }

  lemma LinksNone(history: seq<Statement>, good: seq<bool>, at: seq<nat>, from: Key, to: Key)
    requires |history| == |good| && at == [] && Links(history, good, at, from, to)
    ensures from == to
  {
  }

  lemma WalkFollows(history: seq<Statement>, good: seq<bool>, k: nat, cursor: Key, last: int, steps: nat, x: Key)
    requires k < |history| == |good| && cursor != x && Continues(history[k], good[k], cursor, last)
    ensures Walk(history, good, k, cursor, last, steps, x)
         == Walk(history, good, k + 1, history[k].rotation.nextKey, history[k].rotation.issuedAt, steps + 1, x)
  {
  }

  /** A fork on the line hides a key: some selection leads to it, and the walk does not. */
  lemma {:induction false} ForkHides(
    history: seq<Statement>, good: seq<bool>, k: nat, cursor: Key, last: int, steps: nat, pinned: Key)
    returns (x: Key, at: seq<nat>)
    requires k <= |history| == |good| && NewKeys(history, good, pinned) && NotIntroduced(history, good, k, cursor)
    requires !NoFork(history, good, k, cursor, last, None)
    ensures Links(history, good, at, cursor, x) && StartsAfter(history, at, k, last)
    ensures Walk(history, good, k, cursor, last, steps, x).None?
    decreases |history| - k
  {
    if !Continues(history[k], good[k], cursor, last) {
      x, at := ForkHides(history, good, k + 1, cursor, last, steps, pinned);
    } else if j :| k < j < |history| && Continues(history[j], good[j], cursor, last) {
      x, at := history[j].rotation.nextKey, [j];
      ForkMissed(history, good, k, cursor, last, steps, pinned, j);
    } else {
      var r := history[k].rotation;
      assert Introduces(history[k], good[k], r.nextKey);
      var rest: seq<nat>;
      x, rest := ForkHides(history, good, k + 1, r.nextKey, r.issuedAt, steps + 1, pinned);
      LinksCons(history, good, k, rest, x);
      LinksIntroduce(history, good, rest, r.nextKey, x, k + 1, r.issuedAt);
      at := [k] + rest;
    }
  }

  lemma {:induction false} NoForkStops(
    history: seq<Statement>, good: seq<bool>, k: nat, cursor: Key, last: int, stop: Option<Key>)
    requires k <= |history| == |good| && NoFork(history, good, k, cursor, last, None)
    ensures NoFork(history, good, k, cursor, last, stop)
    decreases |history| - k
  {
    if k < |history| {
      if Continues(history[k], good[k], cursor, last) {
        NoForkStops(history, good, k + 1, history[k].rotation.nextKey, history[k].rotation.issuedAt, stop);
      } else {
        NoForkStops(history, good, k + 1, cursor, last, stop);
      }
    }
  }

  /**
   Where every rotation is to a new key, the walk finds all that is reachable, for
   every presented key, if and only if there is no fork on its line.
   */
  lemma WalkExactIff(history: seq<Statement>, good: seq<bool>, pinned: Key)
    requires |history| == |good| && NewKeys(history, good, pinned)
    ensures (forall current: Key ::
               Walk(history, good, 0, pinned, -1, 0, current).Some? <==> Reachable(history, good, pinned, current))
       <==> NoFork(history, good, 0, pinned, -1, None)
  {
    hide Walk, NoFork, Links, NewKeys;
    if NoFork(history, good, 0, pinned, -1, None) {
      forall current: Key
        ensures Walk(history, good, 0, pinned, -1, 0, current).Some? <==> Reachable(history, good, pinned, current)
      {
        NoForkStops(history, good, 0, pinned, -1, Some(current));
        WalkExact(history, good, pinned, current);
      }
    } else {
      assert NotIntroduced(history, good, 0, pinned) by { PinnedNotIntroduced(history, good, pinned); }
      var x, at := ForkHides(history, good, 0, pinned, -1, 0, pinned);
      assert Reachable(history, good, pinned, x);
    }
  }

  lemma PinnedNotIntroduced(history: seq<Statement>, good: seq<bool>, pinned: Key)
    requires |history| == |good| && NewKeys(history, good, pinned)
    ensures NotIntroduced(history, good, 0, pinned)
  {
  }

  /**
   On a forked history the walk can miss a reachable key: of two genuine
   statements retiring `a` it follows the first, to `b`, and is stuck there.
   */
  lemma ForkedHistoryCounterexample(name: JsString, a: Key, b: Key, c: Key, s1: Bytes, s2: Bytes, verify: Verifier)
    requires a != b && b != c && a != c && Scope.IsValidScope(name) && |s1| == |s2| == SIGNATURE_LENGTH
    requires verify(RotationBytes(Rotation(name, a, b, 1)), s1, a)
             && verify(RotationBytes(Rotation(name, a, c, 2)), s2, a)
    ensures var history := [Readable(Rotation(name, a, b, 1), s1), Readable(Rotation(name, a, c, 2), s2)];
            var good := GenuineFlags(history, name, verify);
            Reachable(history, good, a, c) && Walk(history, good, 0, a, -1, 0, c) == None
  {
    hide RotationBytes, Scope.IsValidScope;
    var history := [Readable(Rotation(name, a, b, 1), s1), Readable(Rotation(name, a, c, 2), s2)];
    var good := GenuineFlags(history, name, verify);
    assert Genuine(history[0], name, verify) && Genuine(history[1], name, verify);
    var at: seq<nat> := [1];
    assert Links(history, good, at, a, c);
    assert Walk(history, good, 2, b, 1, 1, c) == None;
    assert Walk(history, good, 1, b, 1, 1, c) == None;
  }
}
