/**
 Personal DNS rules on one device (packages/client/src/dns-rules-store.ts): a
 set pulled from the server is decrypted, and its redirects apply only after
 they were approved on this device for exactly their target.
 */
module RulesStore {
  import opened Bytes
  import opened Wrappers

  type Name = string
  type RulesKey = Bytes
  type Passphrase = string
  type Digest = Bytes

  datatype Kind = Ipv4 | Ipv6 | Host
  datatype Target = Target(kind: Kind, value: string)
  datatype Rule = Block(name: Name, subdomains: bool) | Redirect(name: Name, target: Target)

  function KindText(k: Kind): string
  {
    match k
    case Ipv4 => "ipv4"
    case Ipv6 => "ipv6"
    case Host => "name"
  }

  /** `describeDnsRuleTarget`: what an approval pins. */
  function Describe(t: Target): string { KindText(t.kind) + " " + t.value }

  lemma DescribeInjective(s: Target, t: Target)
    requires Describe(s) == Describe(t)
    ensures s == t
  {
    assert Describe(s)[..4] == KindText(s.kind) && Describe(t)[..4] == KindText(t.kind);
    assert KindText(s.kind)[3] == KindText(t.kind)[3];
    assert Describe(s)[5..] == s.value && Describe(t)[5..] == t.value;
  }

  // ---------------------------------------------------------------------
  // Records and what the cryptography gives
  // ---------------------------------------------------------------------

  /** A rule of the decrypted set, or one that does not parse. */
  type Body = seq<Option<Rule>>

  type IsNative = Name -> bool

  datatype Record = Record(userId: string, version: nat, envelope: Bytes)

  datatype Opened = Plain(body: Body) | DoesNotOpen | MalformedBody

  datatype Crypto = Crypto(
    open: (RulesKey, Record) -> Opened,
    unlock: (Passphrase, Record) -> Option<RulesKey>,
    digest: Record -> Digest)

  /** The usable rules: parsed, not a redirect of a native name, and the first for their name. */
  function Usable(body: Body, native: IsNative): (rules: seq<Rule>)
    ensures forall i, j | 0 <= i < j < |rules| :: rules[i].name != rules[j].name
    ensures forall r | r in rules && r.Redirect? :: !native(r.name)
  {
    if body == [] then []
    else
      var rules, raw := Usable(body[..|body| - 1], native), body[|body| - 1];
      if raw.None? || (raw.value.Redirect? && native(raw.value.name))
        || exists r | r in rules :: r.name == raw.value.name
      then rules else rules + [raw.value]
  }

  /** Entry `i` is a rule this device can use at all. */
  predicate Parses(body: Body, native: IsNative, i: nat)
    requires i < |body|
  {
    body[i].Some? && (body[i].value.Redirect? ==> !native(body[i].value.name))
  }

  /** And the first such for its name. */
  predicate IsUsable(body: Body, native: IsNative, i: nat)
    requires i < |body|
  {
    && Parses(body, native, i)
    && forall k | 0 <= k < i && Parses(body, native, k) :: body[k].value.name != body[i].value.name
  }

  /** `rules` are the usable entries of the body, all of them and in its order. */
  ghost predicate Selects(body: Body, native: IsNative, rules: seq<Rule>, at: seq<nat>)
  {
    && |at| == |rules|
    && (forall k | 0 <= k < |at| :: at[k] < |body| && IsUsable(body, native, at[k]) && body[at[k]] == Some(rules[k]))
    && (forall j, k | 0 <= j < k < |at| :: at[j] < at[k])
    && (forall i | 0 <= i < |body| && IsUsable(body, native, i) :: i in at)
  }

  lemma {:induction false} UsableExact(body: Body, native: IsNative) returns (at: seq<nat>)
    ensures Selects(body, native, Usable(body, native), at)
    ensures forall r :: r in Usable(body, native)
               <==> exists i | 0 <= i < |body| :: IsUsable(body, native, i) && body[i] == Some(r)
  {
    hide Selects, IsUsable;
    at := [];
    if body == [] {
      SelectsNothing(native);
    } else {
      var n := |body| - 1;
      var rules := Usable(body[..n], native);
      at := UsableExact(body[..n], native);
      UsableLast(body, native, rules, at);
      SelectsSnoc(body, native, rules, at);
      if IsUsable(body, native, n) {
        at := at + [n];
      }
    }
    SelectsMembers(body, native, Usable(body, native), at);
  }

  lemma SelectsNothing(native: IsNative)
    ensures Selects([], native, [], [])
  {
  }

  /** One more entry is selected last, when it is usable. */
  lemma SelectsSnoc(body: Body, native: IsNative, rules: seq<Rule>, at: seq<nat>)
    requires body != [] && Selects(body[..|body| - 1], native, rules, at)
    ensures var n := |body| - 1;
            if IsUsable(body, native, n) then Selects(body, native, rules + [body[n].value], at + [n])
            else Selects(body, native, rules, at)
  {
    var n := |body| - 1;
    var before := body[..n];
    forall i | 0 <= i < n ensures IsUsable(before, native, i) <==> IsUsable(body, native, i) {
      PrefixUsable(body, native, i);
    }
    hide IsUsable;
    if IsUsable(body, native, n) {
      var longer := at + [n];
      assert forall k | 0 <= k < |at| :: longer[k] == at[k];
      forall i | 0 <= i < |body| && IsUsable(body, native, i) ensures i in longer {
        assert i == n ==> longer[|at|] == i;
        assert i < n ==> i in at;
      }
    }
  }

  /** Whether an entry is usable depends on no later one. */
  lemma PrefixUsable(body: Body, native: IsNative, i: nat)
    requires i < |body| - 1
    ensures IsUsable(body[..|body| - 1], native, i) <==> IsUsable(body, native, i)
  {
    var before := body[..|body| - 1];
    assert forall k | 0 <= k <= i :: before[k] == body[k];
    assert forall k | 0 <= k <= i :: Parses(before, native, k) <==> Parses(body, native, k);
  }

  /** The last entry is taken if and only if it is usable. */
  lemma UsableLast(body: Body, native: IsNative, rules: seq<Rule>, at: seq<nat>)
    requires body != [] && Selects(body[..|body| - 1], native, rules, at)
    ensures IsUsable(body, native, |body| - 1)
       <==> Parses(body, native, |body| - 1) && forall r | r in rules :: r.name != body[|body| - 1].value.name
  {
    var n := |body| - 1;
    var before := body[..n];
    if Parses(body, native, n) {
      if forall r | r in rules :: r.name != body[n].value.name {
        forall k | 0 <= k < n && Parses(body, native, k) ensures body[k].value.name != body[n].value.name {
          FirstIsUsable(before, native, k);
        }
      }
      if IsUsable(body, native, n) {
        forall r | r in rules ensures r.name != body[n].value.name {
          var k :| 0 <= k < |rules| && rules[k] == r;
          assert Parses(before, native, at[k]) && Parses(body, native, at[k]);
        }
      }
    }
  }

  /** Where a name has an entry that parses it has a usable one, at or before it. */
  lemma {:induction false} FirstIsUsable(body: Body, native: IsNative, k: nat)
    requires k < |body| && Parses(body, native, k)
    ensures exists i | 0 <= i <= k :: IsUsable(body, native, i) && body[i].value.name == body[k].value.name
  {
    if !IsUsable(body, native, k) {
      var j :| 0 <= j < k && Parses(body, native, j) && body[j].value.name == body[k].value.name;
      FirstIsUsable(body, native, j);
    }
  }

  lemma SelectsMembers(body: Body, native: IsNative, rules: seq<Rule>, at: seq<nat>)
    requires Selects(body, native, rules, at)
    ensures forall r :: r in rules
               <==> exists i | 0 <= i < |body| :: IsUsable(body, native, i) && body[i] == Some(r)
  {
    forall r | r in rules ensures exists i | 0 <= i < |body| :: IsUsable(body, native, i) && body[i] == Some(r) {
      var k :| 0 <= k < |rules| && rules[k] == r;
      assert IsUsable(body, native, at[k]);
    }
    forall i | 0 <= i < |body| && IsUsable(body, native, i) ensures body[i].value in rules {
      var k :| 0 <= k < |at| && at[k] == i;
      assert rules[k] == body[i].value;
    }
  }

  /** The redirect of `name` in a set. */
  function RedirectOf(rules: seq<Rule>, name: Name): (r: Option<Target>)
    ensures r.Some? ==> Redirect(name, r.value) in rules
    ensures r.None? ==> forall x | x in rules && x.Redirect? :: x.name != name
  {
    if rules == [] then None
    else
      var last := rules[|rules| - 1];
      if last.Redirect? && last.name == name then Some(last.target) else RedirectOf(rules[..|rules| - 1], name)
  }

  type Approvals = map<Name, string>

  predicate Approved(approvals: Approvals, r: Rule)
    requires r.Redirect?
  {
    r.name in approvals && approvals[r.name] == Describe(r.target)
  }

  predicate InForce(approvals: Approvals, r: Rule) { r.Block? || Approved(approvals, r) }

  function Active(rules: seq<Rule>, approvals: Approvals): seq<Rule>
  {
    if rules == [] then []
    else Active(rules[..|rules| - 1], approvals)
         + if InForce(approvals, rules[|rules| - 1]) then [rules[|rules| - 1]] else []
  }

  function Pending(rules: seq<Rule>, approvals: Approvals): seq<Rule>
  {
    if rules == [] then []
    else Pending(rules[..|rules| - 1], approvals)
         + if InForce(approvals, rules[|rules| - 1]) then [] else [rules[|rules| - 1]]
  }

  /** Every rule is either in force or awaiting approval, and only redirects wait. */
  lemma {:induction false} ViewPartitions(rules: seq<Rule>, approvals: Approvals)
    ensures multiset(Active(rules, approvals)) + multiset(Pending(rules, approvals)) == multiset(rules)
    ensures forall r :: r in Active(rules, approvals) <==> r in rules && InForce(approvals, r)
    ensures forall r :: r in Pending(rules, approvals) <==> r in rules && !InForce(approvals, r)
  {
    hide InForce;
    if rules != [] {
      var n := |rules| - 1;
      ViewPartitions(rules[..n], approvals);
      assert rules == rules[..n] + [rules[n]];
    }
  }

  /** The rules in force keep their order; `at` is where each stands. */
  lemma {:induction false} ActiveInOrder(rules: seq<Rule>, approvals: Approvals) returns (at: seq<nat>)
    ensures |at| == |Active(rules, approvals)|
    ensures forall k | 0 <= k < |at| :: at[k] < |rules| && rules[at[k]] == Active(rules, approvals)[k]
    ensures forall j, k | 0 <= j < k < |at| :: at[j] < at[k]
  {
    at := [];
    if rules != [] {
      var n := |rules| - 1;
      at := ActiveInOrder(rules[..n], approvals);
      if InForce(approvals, rules[n]) {
        at := at + [n];
      }
    }
  }

  // ---------------------------------------------------------------------
  // The device
  // ---------------------------------------------------------------------

  /** The key, state and envelope files, written together. */
  datatype Device = Device(
    userId: string, key: RulesKey, highest: nat, digest: Digest, approvals: Approvals, record: Record, body: Body)

  datatype Refusal =
    | NoKey | OtherAccount | NeedsPassphrase | WrongPassphrase | Tampered | Rollback | Fork | Malformed | NothingPulled

  datatype Outcome<T> = Done(value: T) | Refused(why: Refusal)

  datatype Pulled = Pulled(key: RulesKey, body: Body, reset: bool)

  /** Decrypt with the stored key, or else with the one the passphrase unlocks. */
  function Decrypt(c: Crypto, dev: Option<Device>, record: Record, pass: Option<Passphrase>, force: bool)
    : Outcome<Pulled>
  {
    var first := if dev.Some? && !force then c.open(dev.value.key, record) else DoesNotOpen;
    if first.MalformedBody? then Refused(Malformed)
    else if first.Plain? then
      if record.version < dev.value.highest then Refused(Rollback) else Done(Pulled(dev.value.key, first.body, false))
    else if pass.None? then Refused(if dev.Some? then NeedsPassphrase else NoKey)
    else
      var unlocked := c.unlock(pass.value, record);
      if unlocked.None? then Refused(WrongPassphrase)
      else
        var reset := dev.Some? && unlocked.value != dev.value.key;
        if dev.Some? && !reset && !force then Refused(Tampered)
        else if record.version < (if reset || dev.None? then 0 else dev.value.highest) then Refused(Rollback)
        else
          match c.open(unlocked.value, record)
          case Plain(body) => Done(Pulled(unlocked.value, body, reset))
          case DoesNotOpen => Refused(Tampered)
          case MalformedBody => Refused(Malformed)
  }

  /** The approvals that survive: those whose redirect is still there with the same target. */
  function Surviving(previous: Approvals, rules: seq<Rule>): Approvals
  {
    map n | n in previous && Survives(rules, n, previous[n]) :: previous[n]
  }

  predicate Survives(rules: seq<Rule>, name: Name, text: string)
  {
    RedirectOf(rules, name).Some? && Describe(RedirectOf(rules, name).value) == text
  }

  function Accept(c: Crypto, dev: Option<Device>, record: Record, native: IsNative, pass: Option<Passphrase>,
                  force: bool)
    : Outcome<(Device, bool)>
  {
    if dev.Some? && dev.value.userId != record.userId then Refused(OtherAccount)
    else
      var d := Decrypt(c, dev, record, pass, force);
      if d.Refused? then Refused(d.why)
      else if !d.value.reset && dev.Some? && record.version == dev.value.highest
        && c.digest(record) != dev.value.digest then
        Refused(Fork)
      else
        var previous := if d.value.reset || dev.None? then map[] else dev.value.approvals;
        Done((Device(record.userId, d.value.key, record.version, c.digest(record),
                   Surviving(previous, Usable(d.value.body, native)), record, d.value.body), d.value.reset))
  }

  /** Approve each name in turn; all of them or none. */
  function ApproveAll(pending: seq<Rule>, names: seq<Name>, approvals: Approvals): Outcome<Approvals>
    decreases |names|
  {
    if names == [] then Done(approvals)
    else
      var target := RedirectOf(pending, names[0]);
      if target.None? then Refused(Malformed)
      else ApproveAll(pending, names[1..], approvals[names[0] := Describe(target.value)])
  }

  // ---------------------------------------------------------------------
  // Runs, with the history of what happened
  // ---------------------------------------------------------------------

  datatype Fact =
    | Accepted(version: nat, digest: Digest, reset: bool, rules: seq<Rule>)
    | Approval(name: Name, text: string)
    | Revoked(name: Name)
    | Forgot

  datatype World = World(device: Option<Device>, active: seq<Rule>, log: seq<Fact>)

  datatype Event =
    | Pull(record: Record, native: IsNative, pass: Option<Passphrase>, force: bool)
    | Approve(names: seq<Name>, native: IsNative)
    | Revoke(name: Name, native: IsNative)
    | Forget

  const START := World(None, [], [])

  function ApprovalFacts(pending: seq<Rule>, names: seq<Name>): seq<Fact>
    decreases |names|
  {
    if names == [] then []
    else
      var target := RedirectOf(pending, names[0]);
      (if target.Some? then [Approval(names[0], Describe(target.value))] else []) + ApprovalFacts(pending, names[1..])
  }

  /** Write the active file again from the stored set. */
  function Rewritten(w: World, dev: Device, native: IsNative): World
  {
    w.(device := Some(dev), active := Active(Usable(dev.body, native), dev.approvals))
  }

  function Step(c: Crypto, w: World, e: Event): World
  {
    match e
    case Pull(record, native, pass, force) =>
      var r := Accept(c, w.device, record, native, pass, force);
      if r.Refused? then w
      else
        var (dev, reset) := r.value;
        Rewritten(w, dev, native).(log := w.log + [Accepted(dev.highest, dev.digest, reset, Usable(dev.body, native))])
    case Approve(names, native) =>
      if w.device.None? then w
      else
        var dev := w.device.value;
        var pending := Pending(Usable(dev.body, native), dev.approvals);
        var r := ApproveAll(pending, names, dev.approvals);
        if r.Refused? then w
        else Rewritten(w, dev.(approvals := r.value), native).(log := w.log + ApprovalFacts(pending, names))
    case Revoke(name, native) =>
      if w.device.None? || name !in w.device.value.approvals then w
      else
        var dev := w.device.value;
        Rewritten(w, dev.(approvals := dev.approvals - {name}), native).(log := w.log + [Revoked(name)])
    case Forget => World(None, [], w.log + [Forgot])
  }

  function Run(c: Crypto, es: seq<Event>): World
  {
    if es == [] then START else Step(c, Run(c, es[..|es| - 1]), es[|es| - 1])
  }

  // ---------------------------------------------------------------------
  // Every active redirect is justified
  // ---------------------------------------------------------------------

  /** This fact ends an approval of `name` for `text`. */
  predicate Voids(f: Fact, name: Name, text: string)
  {
    match f
    case Accepted(_, _, reset, rules) =>
      reset || !Survives(rules, name, text)
    case Approval(n, _) => n == name
    case Revoked(n) => n == name
    case Forgot => true
  }

  /** An approval of exactly this text that nothing since has ended. */
  ghost predicate Stands(log: seq<Fact>, name: Name, text: string)
  {
    exists i | 0 <= i < |log| :: StandsSince(log, name, text, i)
  }

  ghost predicate StandsSince(log: seq<Fact>, name: Name, text: string, i: nat)
    requires i < |log|
  {
    log[i] == Approval(name, text) && forall j | i < j < |log| :: !Voids(log[j], name, text)
  }

  /** One more fact: it is this approval, or the approval stood and the fact does not end it. */
  lemma StandsSnoc(log: seq<Fact>, f: Fact, name: Name, text: string)
    ensures Stands(log + [f], name, text)
       <==> f == Approval(name, text) || (Stands(log, name, text) && !Voids(f, name, text))
  {
    var log' := log + [f];
    if f == Approval(name, text) {
      assert StandsSince(log', name, text, |log|);
    }
    if Stands(log, name, text) && !Voids(f, name, text) {
      var i :| 0 <= i < |log| && StandsSince(log, name, text, i);
      assert StandsSince(log', name, text, i);
    }
    if Stands(log', name, text) && f != Approval(name, text) {
      var i :| 0 <= i < |log'| && StandsSince(log', name, text, i);
      assert StandsSince(log, name, text, i) by {
        forall j | i < j < |log| ensures !Voids(log[j], name, text) { assert log'[j] == log[j]; }
      }
      assert !Voids(log'[|log|], name, text);
    }
  }

  /** The stored approvals are exactly the ones that stand. */
  ghost predicate Exact(log: seq<Fact>, approvals: Approvals)
  {
    forall n: Name, text: string :: Stands(log, n, text) <==> n in approvals && approvals[n] == text
  }

  lemma ExactSnoc(log: seq<Fact>, approvals: Approvals, f: Fact, next: Approvals)
    requires Exact(log, approvals)
    requires forall n: Name, text: string ::
               (n in next && next[n] == text)
               <==> f == Approval(n, text) || (n in approvals && approvals[n] == text && !Voids(f, n, text))
    ensures Exact(log + [f], next)
  {
    hide Stands, Voids;
    forall n: Name, text: string ensures Stands(log + [f], n, text) <==> n in next && next[n] == text {
      StandsSnoc(log, f, n, text);
    }
  }

  lemma {:induction false} ApproveExact(log: seq<Fact>, pending: seq<Rule>, names: seq<Name>, approvals: Approvals)
    requires Exact(log, approvals) && ApproveAll(pending, names, approvals).Done?
    ensures Exact(log + ApprovalFacts(pending, names), ApproveAll(pending, names, approvals).value)
    decreases |names|
  {
    hide Exact, Describe, RedirectOf;
    if names == [] {
      assert log + [] == log;
    } else {
      var name, text := names[0], Describe(RedirectOf(pending, names[0]).value);
      ApproveOneExact(log, approvals, name, text);
      ApproveExact(log + [Approval(name, text)], pending, names[1..], approvals[name := text]);
      assert log + ApprovalFacts(pending, names) == log + [Approval(name, text)] + ApprovalFacts(pending, names[1..]);
    }
  }

  lemma ApproveOneExact(log: seq<Fact>, approvals: Approvals, name: Name, text: string)
    requires Exact(log, approvals)
    ensures Exact(log + [Approval(name, text)], approvals[name := text])
  {
    hide Exact;
    ExactSnoc(log, approvals, Approval(name, text), approvals[name := text]);
  }

  lemma SurvivingExact(log: seq<Fact>, previous: Approvals, version: nat, digest: Digest, rules: seq<Rule>)
    requires Exact(log, previous)
    ensures Exact(log + [Accepted(version, digest, false, rules)], Surviving(previous, rules))
  {
    hide Exact, Describe, RedirectOf;
    ExactSnoc(log, previous, Accepted(version, digest, false, rules), Surviving(previous, rules));
  }

  lemma EmptyExact(log: seq<Fact>, approvals: Approvals, f: Fact)
    requires Exact(log, approvals) && (Breaks(f) || (approvals == map[] && f.Accepted?))
    ensures Exact(log + [f], map[])
  {
    hide Exact, Describe, RedirectOf;
    ExactSnoc(log, approvals, f, map[]);
  }

  lemma RevokeExact(log: seq<Fact>, approvals: Approvals, name: Name)
    requires Exact(log, approvals)
    ensures Exact(log + [Revoked(name)], approvals - {name})
  {
    hide Exact;
    ExactSnoc(log, approvals, Revoked(name), approvals - {name});
  }

  function ApprovalsOf(w: World): Approvals { if w.device.Some? then w.device.value.approvals else map[] }

  /** What is active is the stored set seen through the approvals, which are exactly those that stand. */
  ghost predicate Justified(w: World)
  {
    && Exact(w.log, ApprovalsOf(w))
    && match w.device
       case None => w.active == []
       case Some(dev) => exists native: IsNative :: w.active == Active(Usable(dev.body, native), dev.approvals)
  }

  lemma StepJustified(c: Crypto, w: World, e: Event)
    requires Justified(w)
    ensures Justified(Step(c, w, e))
  {
    hide Active, Usable, Surviving, ApproveAll, ApprovalFacts, Pending, Exact;
    match e
    case Forget =>
      EmptyExact(w.log, ApprovalsOf(w), Forgot);
    case Pull(record, native, pass, force) =>
      PullJustified(c, w, record, native, pass, force);
    case Approve(names, native) =>
      if w.device.Some? {
        var dev := w.device.value;
        var pending := Pending(Usable(dev.body, native), dev.approvals);
        if ApproveAll(pending, names, dev.approvals).Done? {
          ApproveExact(w.log, pending, names, dev.approvals);
        }
      }
    case Revoke(name, native) =>
      if w.device.Some? && name in w.device.value.approvals {
        RevokeExact(w.log, w.device.value.approvals, name);
      }
  }

  lemma PullJustified(c: Crypto, w: World, record: Record, native: IsNative, pass: Option<Passphrase>, force: bool)
    requires Justified(w)
    ensures Justified(Step(c, w, Pull(record, native, pass, force)))
  {
    hide Active, Usable, Exact, RedirectOf, Describe;
    var r := Accept(c, w.device, record, native, pass, force);
    if r.Done? {
      var (dev, reset) := r.value;
      var rules := Usable(dev.body, native);
      if reset || w.device.None? {
        assert Surviving(map[], rules) == map[];
        EmptyExact(w.log, ApprovalsOf(w), Accepted(dev.highest, dev.digest, reset, rules));
      } else {
        SurvivingExact(w.log, w.device.value.approvals, dev.highest, dev.digest, rules);
      }
    }
  }

  lemma {:induction false} RunJustified(c: Crypto, es: seq<Event>)
    ensures Justified(Run(c, es))
  {
    hide Step, Justified;
    if es == [] {
      StartJustified();
    } else {
      RunJustified(c, es[..|es| - 1]);
      StepJustified(c, Run(c, es[..|es| - 1]), es[|es| - 1]);
    }
  }

  lemma StartJustified()
    ensures Justified(START)
  {
  }

  /**
   Over every run, a redirect is active only if it was approved on this device
   for exactly its current target and since then there was no pull in which it
   was absent or different, no revoke, no key reset and no forget.
   */
  lemma ActiveRedirectJustified(c: Crypto, es: seq<Event>, r: Rule)
    requires r.Redirect? && r in Run(c, es).active
    ensures Run(c, es).device.Some? && Stands(Run(c, es).log, r.name, Describe(r.target))
  {
    RunJustified(c, es);
    hide Run, Stands, Describe;
    var w := Run(c, es);
    var dev := w.device.value;
    var native: IsNative :| w.active == Active(Usable(dev.body, native), dev.approvals);
    ViewPartitions(Usable(dev.body, native), dev.approvals);
    assert Approved(dev.approvals, r);
  }

  /** And conversely: of the set just pulled, exactly the redirects whose approval stands are active. */
  lemma ActiveIffStands(c: Crypto, es: seq<Event>, e: Event, r: Rule)
    requires e.Pull? && Accept(c, Run(c, es).device, e.record, e.native, e.pass, e.force).Done?
    requires r.Redirect?
    ensures var w := Step(c, Run(c, es), e);
            r in w.active <==> r in Usable(w.device.value.body, e.native) && Stands(w.log, r.name, Describe(r.target))
  {
    var w := Step(c, Run(c, es), e);
    RunJustified(c, es);
    StepJustified(c, Run(c, es), e);
    hide Run, Stands, Describe, Usable;
    ViewPartitions(Usable(w.device.value.body, e.native), w.device.value.approvals);
  }

  /** A revoked redirect stops applying at once, and no other rule does. */
  lemma RevokeTakesEffect(c: Crypto, w: World, name: Name, native: IsNative, r: Rule)
    requires w.device.Some? && name in w.device.value.approvals
    ensures r in Step(c, w, Revoke(name, native)).active
       <==> && r in Usable(w.device.value.body, native) && InForce(w.device.value.approvals, r)
            && !(r.Redirect? && r.name == name)
  {
    hide Describe, Usable, Active;
    var dev := w.device.value;
    var rest := dev.approvals - {name};
    assert Step(c, w, Revoke(name, native)).active == Active(Usable(dev.body, native), rest);
    hide Step;
    ViewPartitions(Usable(dev.body, native), rest);
    assert r.name in rest <==> r.name in dev.approvals && r.name != name;
  }

  // ---------------------------------------------------------------------
  // Exactly when an operation goes through, and what applies then
  // ---------------------------------------------------------------------

  /**
   The record is a set this device may take, under `key`: the stored key opens it,
   or, where there is none, it does not, or the passphrase is asked for, the key
   the passphrase gives; another key than the stored one is a reset. Without a
   reset the version is not older, and the same version has the same ciphertext.
   */
  predicate PullsWith(c: Crypto, dev: Option<Device>, record: Record, pass: Option<Passphrase>, force: bool,
                      key: RulesKey, body: Body, reset: bool)
  {
    && c.open(key, record) == Plain(body)
    && (if dev.Some? && !force && key == dev.value.key then !reset
        else
          && pass.Some? && c.unlock(pass.value, record) == Some(key)
          && (dev.None? || force || c.open(dev.value.key, record) == DoesNotOpen)
          && (reset <==> dev.Some? && key != dev.value.key))
    && (dev.Some? && !reset ==>
          && dev.value.highest <= record.version
          && (dev.value.highest == record.version ==> c.digest(record) == dev.value.digest))
  }

  /** The set has a redirect of `n` to the target that `text` describes. */
  ghost predicate Redirects(rules: seq<Rule>, n: Name, text: string)
  {
    exists t :: Redirect(n, t) in rules && Describe(t) == text
  }

  /** A pull is accepted if and only if the set is this account's and may be taken; then it is stored whole. */
  lemma AcceptIff(
      c: Crypto, dev: Option<Device>, record: Record, native: IsNative, pass: Option<Passphrase>, force: bool)
    ensures var r := Accept(c, dev, record, native, pass, force);
            && (r.Done? <==>
                  && (dev.Some? ==> dev.value.userId == record.userId)
                  && exists key, body, reset :: PullsWith(c, dev, record, pass, force, key, body, reset))
            && (r.Done? ==>
                  var (d, reset) := r.value;
                  && PullsWith(c, dev, record, pass, force, d.key, d.body, reset)
                  && d.userId == record.userId && d.highest == record.version && d.digest == c.digest(record)
                  && d.record == record
                  && (forall n :: n in d.approvals <==>
                        && !reset && dev.Some? && n in dev.value.approvals
                        && Redirects(Usable(d.body, native), n, dev.value.approvals[n]))
                  && (forall n | n in d.approvals :: d.approvals[n] == dev.value.approvals[n]))
  {
    hide Usable, Describe, Redirects, Survives;
    var r := Accept(c, dev, record, native, pass, force);
    if r.Done? {
      var (d, reset) := r.value;
      assert PullsWith(c, dev, record, pass, force, d.key, d.body, reset);
      var rules := Usable(d.body, native);
      forall n: Name, text: string
        ensures Survives(rules, n, text) <==> Redirects(rules, n, text)
      {
        SurvivesIff(d.body, native, n, text);
      }
    }
  }

  lemma SurvivesIff(body: Body, native: IsNative, n: Name, text: string)
    ensures Survives(Usable(body, native), n, text) <==> Redirects(Usable(body, native), n, text)
  {
    hide Describe;
    var rules := Usable(body, native);
    forall t | Redirect(n, t) in rules ensures RedirectOf(rules, n) == Some(t) {
      OneRedirect(rules, n, t);
    }
  }

  lemma OneRedirect(rules: seq<Rule>, n: Name, t: Target)
    requires Redirect(n, t) in rules && forall i, j | 0 <= i < j < |rules| :: rules[i].name != rules[j].name
    ensures RedirectOf(rules, n) == Some(t)
  {
    hide RedirectOf;
    var found := RedirectOf(rules, n);
    assert found.Some? && Redirect(n, found.value) in rules by {
      assert Redirect(n, t).Redirect? && Redirect(n, t).name == n;
    }
    var i :| 0 <= i < |rules| && rules[i] == Redirect(n, t);
    var j :| 0 <= j < |rules| && rules[j] == Redirect(n, found.value);
    assert rules[i].name == rules[j].name;
  }

  /** A refusal of a pull tells the truth. */
  predicate TrueRefusal(why: Refusal, c: Crypto, dev: Option<Device>, record: Record, pass: Option<Passphrase>,
                        force: bool)
  {
    var stored := if dev.Some? then c.open(dev.value.key, record) else DoesNotOpen;
    var unlocked := if pass.Some? then c.unlock(pass.value, record) else None;
    match why
    case OtherAccount => dev.Some? && dev.value.userId != record.userId
    case NoKey => dev.None? && pass.None?
    case NeedsPassphrase => dev.Some? && pass.None? && (force || stored.DoesNotOpen?)
    case WrongPassphrase => pass.Some? && unlocked.None?
    case Tampered => unlocked.Some? && c.open(unlocked.value, record).DoesNotOpen?
    case Malformed => stored.MalformedBody? || (unlocked.Some? && c.open(unlocked.value, record).MalformedBody?)
    case Rollback => dev.Some? && record.version < dev.value.highest
    case Fork => dev.Some? && record.version == dev.value.highest && c.digest(record) != dev.value.digest
    case NothingPulled => false
  }

  lemma RefusalIsTrue(c: Crypto, dev: Option<Device>, record: Record, native: IsNative, pass: Option<Passphrase>,
                      force: bool)
    ensures var r := Accept(c, dev, record, native, pass, force);
            r.Refused? ==> TrueRefusal(r.why, c, dev, record, pass, force)
  {
    hide Usable, Surviving;
  }

  /**
   What applies after an accepted pull, over every run: of the usable rules of the
   body, every block, and every redirect whose approval stands. Nothing else.
   */
  lemma ActiveAfterPull(c: Crypto, es: seq<Event>, e: Event, r: Rule)
    requires e.Pull? && Accept(c, Run(c, es).device, e.record, e.native, e.pass, e.force).Done?
    ensures var w := Step(c, Run(c, es), e);
            && w.device.Some?
            && (r in w.active <==>
                  && (r.Block? || Stands(w.log, r.name, Describe(r.target)))
                  && exists i | 0 <= i < |w.device.value.body| ::
                       IsUsable(w.device.value.body, e.native, i) && w.device.value.body[i] == Some(r))
  {
    var w := Step(c, Run(c, es), e);
    RunJustified(c, es);
    StepJustified(c, Run(c, es), e);
    hide Run, Stands, Describe, Usable, IsUsable;
    ViewPartitions(Usable(w.device.value.body, e.native), w.device.value.approvals);
    var _ := UsableExact(w.device.value.body, e.native);
  }

  ghost predicate HasRedirect(rules: seq<Rule>, n: Name) { exists t :: Redirect(n, t) in rules }

  lemma HasRedirectIff(rules: seq<Rule>, n: Name)
    ensures HasRedirect(rules, n) <==> RedirectOf(rules, n).Some?
    ensures HasRedirect(rules, n) ==> Redirects(rules, n, Describe(RedirectOf(rules, n).value))
  {
    hide RedirectOf, Describe;
    if t :| Redirect(n, t) in rules {
      assert Redirect(n, t).Redirect? && Redirect(n, t).name == n;
    }
  }

  /** Approving goes through if and only if every name is a redirect that is pending now; it pins their targets. */
  lemma {:induction false} ApproveAllIff(pending: seq<Rule>, names: seq<Name>, approvals: Approvals)
    ensures var r := ApproveAll(pending, names, approvals);
            && (r.Done? <==> forall n | n in names :: HasRedirect(pending, n))
            && (r.Done? ==> forall n :: n in r.value <==> n in approvals || n in names)
            && (r.Done? ==> forall n | n in r.value ::
                  if n in names then Redirects(pending, n, r.value[n]) else r.value[n] == approvals[n])
    decreases |names|
  {
    hide Describe, RedirectOf, HasRedirect, Redirects;
    if names != [] {
      var name, rest := names[0], names[1..];
      assert names == [name] + rest;
      assert forall n :: n in names <==> n == name || n in rest;
      HasRedirectIff(pending, name);
      if HasRedirect(pending, name) {
        ApproveAllIff(pending, rest, approvals[name := Describe(RedirectOf(pending, name).value)]);
      }
    }
  }

  /** Then exactly the approved redirects apply besides what did before. */
  lemma ApproveTakesEffect(c: Crypto, w: World, names: seq<Name>, native: IsNative, r: Rule)
    requires w.device.Some?
    ensures var rules, approvals := Usable(w.device.value.body, native), w.device.value.approvals;
            if forall n | n in names :: HasRedirect(Pending(rules, approvals), n) then
              r in Step(c, w, Approve(names, native)).active
              <==> r in rules && (InForce(approvals, r) || r.name in names)
            else Step(c, w, Approve(names, native)) == w
  {
    hide Describe, RedirectOf, Approved, HasRedirect, Redirects, Active, Pending, ApproveAll, ApprovalFacts, Usable;
    var dev := w.device.value;
    var rules := Usable(dev.body, native);
    ApproveAllIff(Pending(rules, dev.approvals), names, dev.approvals);
    var done := ApproveAll(Pending(rules, dev.approvals), names, dev.approvals);
    if done.Done? {
      ViewPartitions(rules, done.value);
      if r in rules {
        ApprovedInForce(rules, dev.approvals, names, done.value, r);
      }
    }
  }

  lemma ApprovedInForce(rules: seq<Rule>, approvals: Approvals, names: seq<Name>, next: Approvals, r: Rule)
    requires r in rules && forall i, j | 0 <= i < j < |rules| :: rules[i].name != rules[j].name
    requires ApproveAll(Pending(rules, approvals), names, approvals) == Done(next)
    ensures InForce(next, r) <==> InForce(approvals, r) || r.name in names
  {
    hide Describe, Pending, ApproveAll;
    var pending := Pending(rules, approvals);
    ViewPartitions(rules, approvals);
    ApproveAllIff(pending, names, approvals);
    if r.name in names {
      assert Redirects(pending, r.name, next[r.name]);
      var t :| Redirect(r.name, t) in pending && Describe(t) == next[r.name];
      SameName(rules, r, Redirect(r.name, t));
    }
  }

  lemma SameName(rules: seq<Rule>, a: Rule, b: Rule)
    requires a in rules && b in rules && a.name == b.name
    requires forall i, j | 0 <= i < j < |rules| :: rules[i].name != rules[j].name
    ensures a == b
  {
    var i :| 0 <= i < |rules| && rules[i] == a;
    var j :| 0 <= j < |rules| && rules[j] == b;
    assert i == j;
  }

  // ---------------------------------------------------------------------
  // No rollback and no fork
  // ---------------------------------------------------------------------

  predicate Breaks(f: Fact) { f.Forgot? || (f.Accepted? && f.reset) }

  /** Nothing after `i` and before `n` resets the history. */
  ghost predicate Unbroken(log: seq<Fact>, i: nat, n: nat)
    requires n <= |log|
  {
    forall j | i < j < n :: !Breaks(log[j])
  }

  ghost predicate NotAfter(f: Fact, version: nat, digest: Digest)
    requires f.Accepted?
  {
    f.version <= version && (f.version == version ==> f.digest == digest)
  }

  ghost predicate Ordered(log: seq<Fact>)
  {
    forall i, j | 0 <= i < j < |log| && log[i].Accepted? && log[j].Accepted? && Unbroken(log, i, j + 1) ::
      NotAfter(log[i], log[j].version, log[j].digest)
  }

  /** The stored version is the latest of the unbroken history. */
  ghost predicate Latest(w: World)
  {
    forall i | 0 <= i < |w.log| && w.log[i].Accepted? && Unbroken(w.log, i, |w.log|) ::
      w.device.Some? && NotAfter(w.log[i], w.device.value.highest, w.device.value.digest)
  }

  lemma PlainFacts(w: World, device: Option<Device>, active: seq<Rule>, facts: seq<Fact>)
    requires Ordered(w.log) && Latest(w) && forall i | 0 <= i < |facts| :: !facts[i].Accepted?
    requires (w.device.Some? && device.Some? && device.value.highest == w.device.value.highest
              && device.value.digest == w.device.value.digest) || facts == [Forgot]
    ensures Ordered(w.log + facts) && Latest(World(device, active, w.log + facts))
  {
    var log := w.log + facts;
    forall i | 0 <= i < |log| && log[i].Accepted? && Unbroken(log, i, |log|)
      ensures device.Some? && NotAfter(log[i], device.value.highest, device.value.digest)
    {
      assert log[i] == w.log[i];
      assert facts == [Forgot] ==> Breaks(log[|log| - 1]);
      assert Unbroken(w.log, i, |w.log|) by {
        forall j | i < j < |w.log| ensures !Breaks(w.log[j]) { assert log[j] == w.log[j]; }
      }
    }
    forall i, j | 0 <= i < j < |log| && log[i].Accepted? && log[j].Accepted? && Unbroken(log, i, j + 1)
      ensures NotAfter(log[i], log[j].version, log[j].digest)
    {
      assert log[i] == w.log[i] && log[j] == w.log[j];
      assert Unbroken(w.log, i, j + 1) by {
        forall k | i < k < j + 1 ensures !Breaks(w.log[k]) { assert log[k] == w.log[k]; }
      }
    }
  }

  lemma AcceptedFact(w: World, device: Device, active: seq<Rule>, f: Fact)
    requires Ordered(w.log) && Latest(w) && f.Accepted? && device.highest == f.version && device.digest == f.digest
    requires !f.reset && w.device.Some? ==>
               w.device.value.highest <= f.version
                 && (w.device.value.highest == f.version ==> w.device.value.digest == f.digest)
    ensures Ordered(w.log + [f]) && Latest(World(Some(device), active, w.log + [f]))
  {
    var log := w.log + [f];
    var n := |w.log|;
    forall i | 0 <= i < n && log[i].Accepted? && Unbroken(log, i, n + 1)
      ensures NotAfter(log[i], f.version, f.digest)
    {
      assert log[i] == w.log[i];
      assert !Breaks(log[n]);
      assert Unbroken(w.log, i, n) by {
        forall j | i < j < n ensures !Breaks(w.log[j]) { assert log[j] == w.log[j]; }
      }
    }
    forall i, j | 0 <= i < j < |log| && log[i].Accepted? && log[j].Accepted? && Unbroken(log, i, j + 1)
      ensures NotAfter(log[i], log[j].version, log[j].digest)
    {
      if j < n {
        assert log[i] == w.log[i] && log[j] == w.log[j];
        assert Unbroken(w.log, i, j + 1) by {
          forall k | i < k < j + 1 ensures !Breaks(w.log[k]) { assert log[k] == w.log[k]; }
        }
      }
    }
  }

  lemma {:induction false} ApprovalFactsPlain(pending: seq<Rule>, names: seq<Name>)
    ensures forall i | 0 <= i < |ApprovalFacts(pending, names)| :: ApprovalFacts(pending, names)[i].Approval?
    decreases |names|
  {
    if names != [] {
      ApprovalFactsPlain(pending, names[1..]);
    }
  }

  lemma AcceptIsNewer(c: Crypto, dev: Option<Device>, record: Record, native: IsNative, pass: Option<Passphrase>,
                      force: bool)
    requires Accept(c, dev, record, native, pass, force).Done?
    ensures var (next, reset) := Accept(c, dev, record, native, pass, force).value;
            !reset && dev.Some? ==>
              dev.value.highest <= next.highest
                && (dev.value.highest == next.highest ==> dev.value.digest == next.digest)
  {
    hide Surviving, Usable;
  }

  lemma StepOrdered(c: Crypto, w: World, e: Event)
    requires Ordered(w.log) && Latest(w)
    ensures Ordered(Step(c, w, e).log) && Latest(Step(c, w, e))
  {
    hide Ordered, Latest, Active, Usable, Pending, ApproveAll, ApprovalFacts, Accept;
    match e
    case Forget =>
      PlainFacts(w, None, [], [Forgot]);
    case Pull(record, native, pass, force) =>
      var r := Accept(c, w.device, record, native, pass, force);
      if r.Done? {
        AcceptIsNewer(c, w.device, record, native, pass, force);
        var (dev, reset) := r.value;
        var f := Accepted(dev.highest, dev.digest, reset, Usable(dev.body, native));
        AcceptedFact(w, dev, Active(Usable(dev.body, native), dev.approvals), f);
      }
    case Approve(names, native) =>
      if w.device.Some? {
        var dev := w.device.value;
        var pending := Pending(Usable(dev.body, native), dev.approvals);
        ApprovalFactsPlain(pending, names);
        PlainFacts(w, Step(c, w, e).device, Step(c, w, e).active, ApprovalFacts(pending, names));
      }
    case Revoke(name, native) =>
      if w.device.Some? {
        PlainFacts(w, Step(c, w, e).device, Step(c, w, e).active, [Revoked(name)]);
      }
  }

  /**
   Between key resets and forgets the accepted version never decreases, and one
   version is never accepted with two ciphertext digests.
   */
  lemma {:induction false} VersionsOrdered(c: Crypto, es: seq<Event>)
    ensures Ordered(Run(c, es).log) && Latest(Run(c, es))
  {
    hide Step;
    if es != [] {
      VersionsOrdered(c, es[..|es| - 1]);
      StepOrdered(c, Run(c, es[..|es| - 1]), es[|es| - 1]);
    }
  }

  // ---------------------------------------------------------------------
  // The operations on the device's files
  // ---------------------------------------------------------------------

  method ViewOf(rules: seq<Rule>, approvals: Approvals) returns (active: seq<Rule>, pending: seq<Rule>)
    ensures active == Active(rules, approvals) && pending == Pending(rules, approvals)
  {
    active, pending := [], [];
    for i := 0 to |rules|
      invariant active == Active(rules[..i], approvals) && pending == Pending(rules[..i], approvals)
    {
      assert rules[..i + 1][..i] == rules[..i];
      if InForce(approvals, rules[i]) {
        active := active + [rules[i]];
      } else {
        pending := pending + [rules[i]];
      }
    }
    assert rules[..|rules|] == rules;
  }

  method KeepApprovals(previous: Approvals, rules: seq<Rule>) returns (approvals: Approvals, dropped: set<Name>)
    ensures approvals == Surviving(previous, rules) && dropped == previous.Keys - approvals.Keys
  {
    approvals, dropped := map[], {};
    var rest := previous.Keys;
    while rest != {}
      invariant rest <= previous.Keys
      invariant forall n :: n in approvals <==> n in previous && n !in rest && Survives(rules, n, previous[n])
      invariant forall n | n in approvals :: approvals[n] == previous[n]
      invariant forall n :: n in dropped <==> n in previous && n !in rest && !Survives(rules, n, previous[n])
      decreases |rest|
    {
      var name :| name in rest;
      if Survives(rules, name, previous[name]) {
        approvals := approvals[name := previous[name]];
      } else {
        dropped := dropped + {name};
      }
      rest := rest - {name};
    }
  }

  class RulesDevice {
    const crypto: Crypto
    var device: Option<Device>
    var active: seq<Rule>
    ghost var log: seq<Fact>

    ghost function View(): World
      reads this
    {
      World(device, active, log)
    }

    constructor (crypto: Crypto)
      ensures this.crypto == crypto && View() == START
    {
      this.crypto, device, active, log := crypto, None, [], [];
    }

    /** `acceptPulledRules`: refused before anything is written, or accepted whole. */
    method AcceptPulledRules(record: Record, native: IsNative, pass: Option<Passphrase>, force: bool)
      returns (r: Outcome<bool>)
      modifies this
      ensures View() == Step(crypto, old(View()), Pull(record, native, pass, force))
      ensures r.Refused? ==> View() == old(View()) && TrueRefusal(r.why, crypto, old(device), record, pass, force)
      ensures r.Done? <==>
                && (old(device).Some? ==> old(device).value.userId == record.userId)
                && exists key, body, reset :: PullsWith(crypto, old(device), record, pass, force, key, body, reset)
      ensures r.Done? ==>
                device.Some? && device.value.highest == record.version && device.value.digest == crypto.digest(record)
    {
      hide Usable, Active, Surviving, PullsWith;
      AcceptIff(crypto, device, record, native, pass, force);
      RefusalIsTrue(crypto, device, record, native, pass, force);
      if device.Some? && device.value.userId != record.userId {
        return Refused(OtherAccount);
      }
      var decrypted := Decrypt(crypto, device, record, pass, force);
      if decrypted.Refused? {
        return Refused(decrypted.why);
      }
      var Pulled(key, body, reset) := decrypted.value;
      var digest := crypto.digest(record);
      if !reset && device.Some? && record.version == device.value.highest && digest != device.value.digest {
        return Refused(Fork);
      }
      var rules := Usable(body, native);
      var approvals, _ := KeepApprovals(if reset || device.None? then map[] else device.value.approvals, rules);
      var now, _ := ViewOf(rules, approvals);
      device := Some(Device(record.userId, key, record.version, digest, approvals, record, body));
      active := now;
      log := log + [Accepted(record.version, digest, reset, rules)];
      return Done(reset);
    }

    /** `approveRedirects`: every name must be pending now, or nothing is approved. */
    method ApproveRedirects(names: seq<Name>, native: IsNative) returns (r: Outcome<seq<Rule>>)
      modifies this
      ensures View() == Step(crypto, old(View()), Approve(names, native))
      ensures r.Refused? ==> View() == old(View())
      ensures r.Done? <==> old(device).Some? && forall n | n in names ::
                HasRedirect(Pending(Usable(old(device).value.body, native), old(device).value.approvals), n)
      ensures r.Done? ==> r.value == active
    {
      hide Usable, Active, Pending, HasRedirect, Redirects;
      if device.None? {
        return Refused(NothingPulled);
      }
      var dev := device.value;
      var rules := Usable(dev.body, native);
      var _, pending := ViewOf(rules, dev.approvals);
      ApproveAllIff(pending, names, dev.approvals);
      var approvals := dev.approvals;
      for i := 0 to |names|
        invariant ApproveAll(pending, names, dev.approvals) == ApproveAll(pending, names[i..], approvals)
        invariant View() == old(View())
      {
        var target := RedirectOf(pending, names[i]);
        if target.None? {
          return Refused(Malformed);
        }
        assert names[i..][1..] == names[i + 1..];
        approvals := approvals[names[i] := Describe(target.value)];
      }
      var now, _ := ViewOf(rules, approvals);
      device, active := Some(dev.(approvals := approvals)), now;
      log := log + ApprovalFacts(pending, names);
      return Done(active);
    }

    method RevokeRedirect(name: Name, native: IsNative) returns (r: Outcome<seq<Rule>>)
      modifies this
      ensures View() == Step(crypto, old(View()), Revoke(name, native))
      ensures r.Refused? ==> View() == old(View())
      ensures r.Done? <==> old(device).Some? && name in old(device).value.approvals
      ensures r.Done? ==> r.value == active
    {
      if device.None? {
        return Refused(NothingPulled);
      }
      var dev := device.value;
      if name !in dev.approvals {
        return Refused(Malformed);
      }
      var now, _ := ViewOf(Usable(dev.body, native), dev.approvals - {name});
      device, active := Some(dev.(approvals := dev.approvals - {name})), now;
      log := log + [Revoked(name)];
      return Done(active);
    }

    method ForgetRules()
      modifies this
      ensures View() == Step(crypto, old(View()), Forget)
    {
      device, active := None, [];
      log := log + [Forgot];
    }
  }
}
