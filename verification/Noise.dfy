/**
 The NK handshake (packages/protocol/src/noise.ts; the Noise Protocol Framework,
 revision 34, sections 4, 5 and 7).
 */
module Noise {
  import opened Bytes
  import opened Wrappers

  const HASHLEN := 32
  const DHLEN := 32

  /**
   The primitives, of unknown value; what is assumed of them is stated where it
   is used. `dh` is `None` where X25519 refuses the public key, and `open` where
   the tag does not verify.
   */
  datatype Crypto = Crypto(
    sha256: Bytes -> Bytes,
    hkdf2: (Bytes, Bytes) -> (Bytes, Bytes),
    publicOf: Bytes -> Bytes,
    dh: (Bytes, Bytes) -> Option<Bytes>,
    seal: (Bytes, nat, Bytes, Bytes) -> Bytes,
    open: (Bytes, nat, Bytes, Bytes) -> Option<Bytes>)

  ghost predicate Commutes(c: Crypto)
  {
    forall a: Bytes, b: Bytes :: c.dh(a, c.publicOf(b)) == c.dh(b, c.publicOf(a))
  }

  ghost predicate OpensSealed(c: Crypto)
  {
    forall k: Bytes, n: nat, ad: Bytes, p: Bytes :: c.open(k, n, ad, c.seal(k, n, ad, p)) == Some(p)
  }

  ghost predicate PublicKeysFit(c: Crypto)
  {
    forall s: Bytes :: |c.publicOf(s)| == DHLEN
  }

  // ---------------------------------------------------------------------
  // SymmetricState
  // ---------------------------------------------------------------------

  /** `epoch` counts the calls of `mixKey`; `used` records the (epoch, nonce) of every seal and successful open. */
  datatype Symmetric = Symmetric(ck: Bytes, h: Bytes, k: Option<Bytes>, n: nat, epoch: nat, used: seq<(nat, nat)>)

  function Padded(name: Bytes, length: nat): Bytes
    requires |name| <= length
  {
    name + seq(length - |name|, _ => 0)
  }

  function Start(c: Crypto, name: Bytes): Symmetric
  {
    var h := if |name| <= HASHLEN then Padded(name, HASHLEN) else c.sha256(name);
    Symmetric(h, h, None, 0, 0, [])
  }

  function MixHash(c: Crypto, s: Symmetric, data: Bytes): Symmetric { s.(h := c.sha256(s.h + data)) }

  function MixKey(c: Crypto, s: Symmetric, ikm: Bytes): Symmetric
  {
    var (ck, k) := c.hkdf2(s.ck, ikm);
    s.(ck := ck, k := Some(k), n := 0, epoch := s.epoch + 1)
  }

  function Spend(s: Symmetric): Symmetric { s.(n := s.n + 1, used := s.used + [(s.epoch, s.n)]) }

  function EncryptAndHash(c: Crypto, s: Symmetric, plain: Bytes): (Symmetric, Bytes)
  {
    if s.k.Some? then
      var cipher := c.seal(s.k.value, s.n, s.h, plain);
      (MixHash(c, Spend(s), cipher), cipher)
    else (MixHash(c, s, plain), plain)
  }

  function DecryptAndHash(c: Crypto, s: Symmetric, cipher: Bytes): (Symmetric, Option<Bytes>)
  {
    if s.k.Some? then
      var plain := c.open(s.k.value, s.n, s.h, cipher);
      if plain.None? then (s, None) else (MixHash(c, Spend(s), cipher), plain)
    else (MixHash(c, s, cipher), Some(cipher))
  }

  /** `split`: the two transport keys; the chaining key and the cipher key are gone. */
  function SplitKeys(c: Crypto, s: Symmetric): (Symmetric, (Bytes, Bytes))
  {
    (s.(ck := [], k := None), c.hkdf2(s.ck, []))
  }

  /** No nonce was used twice in one epoch. */
  predicate NoReuse(s: Symmetric)
  {
    && (forall i, j | 0 <= i < j < |s.used| :: s.used[i] != s.used[j])
    && (forall i | 0 <= i < |s.used| :: s.used[i].0 < s.epoch || (s.used[i].0 == s.epoch && s.used[i].1 < s.n))
  }

  /** Both sides agree on everything the messages depend on. */
  predicate Agree(a: Symmetric, b: Symmetric) { a.ck == b.ck && a.h == b.h && a.k == b.k && a.n == b.n }

  lemma SealedOpens(c: Crypto, a: Symmetric, b: Symmetric, plain: Bytes)
    requires OpensSealed(c) && Agree(a, b)
    ensures var (a', cipher) := EncryptAndHash(c, a, plain);
            DecryptAndHash(c, b, cipher).1 == Some(plain) && Agree(a', DecryptAndHash(c, b, cipher).0)
  {
  }

  class SymmetricState {
    const crypto: Crypto
    var ck: Bytes
    var h: Bytes
    var k: Option<Bytes>
    var n: nat
    ghost var epoch: nat
    ghost var used: seq<(nat, nat)>

    ghost function View(): Symmetric
      reads this
    {
      Symmetric(ck, h, k, n, epoch, used)
    }

    constructor (crypto: Crypto, name: Bytes)
      ensures this.crypto == crypto && View() == Start(crypto, name) && NoReuse(View())
    {
      this.crypto := crypto;
      var first := if |name| <= HASHLEN then Padded(name, HASHLEN) else crypto.sha256(name);
      h, ck, k, n, epoch, used := first, first, None, 0, 0, [];
    }

    method MixHashWith(data: Bytes)
      modifies this
      ensures View() == MixHash(crypto, old(View()), data)
    {
      h := crypto.sha256(h + data);
    }

    method MixKeyWith(ikm: Bytes)
      modifies this
      ensures View() == MixKey(crypto, old(View()), ikm)
    {
      var (newCk, newK) := crypto.hkdf2(ck, ikm);
      ck, k, n, epoch := newCk, Some(newK), 0, epoch + 1;
    }

    method Encrypt(plain: Bytes) returns (cipher: Bytes)
      modifies this
      ensures (View(), cipher) == EncryptAndHash(crypto, old(View()), plain)
    {
      cipher := plain;
      if k.Some? {
        cipher := crypto.seal(k.value, n, h, plain);
        used, n := used + [(epoch, n)], n + 1;
      }
      MixHashWith(cipher);
    }

    method Decrypt(cipher: Bytes) returns (plain: Option<Bytes>)
      modifies this
      ensures (View(), plain) == DecryptAndHash(crypto, old(View()), cipher)
    {
      plain := Some(cipher);
      if k.Some? {
        plain := crypto.open(k.value, n, h, cipher);
        if plain.None? {
          return;
        }
        used, n := used + [(epoch, n)], n + 1;
      }
      MixHashWith(cipher);
    }

    method Split() returns (k1: Bytes, k2: Bytes)
      modifies this
      ensures (View(), (k1, k2)) == SplitKeys(crypto, old(View()))
    {
      var keys := crypto.hkdf2(ck, []);
      ck, k := [], None;
      k1, k2 := keys.0, keys.1;
    }
  }

  // ---------------------------------------------------------------------
  // The two sides as values
  // ---------------------------------------------------------------------

  datatype Transport = Transport(sendKey: Bytes, receiveKey: Bytes, handshakeHash: Bytes)

  /** After the pre-message `<- s`. */
  function Begin(c: Crypto, name: Bytes, prologue: Bytes, responderStatic: Bytes): Symmetric
  {
    MixHash(c, MixHash(c, Start(c, name), prologue), responderStatic)
  }

  datatype InitiatorStep = Write1 | Read2 | InitiatorDone

  /** `alive`: the ephemeral secret has not been wiped. `handed`: how often keys were handed out. */
  datatype Initiator = Initiator(step: InitiatorStep, ss: Symmetric, rs: Bytes, e: Bytes, alive: bool, handed: nat)

  function NewInitiator(c: Crypto, name: Bytes, prologue: Bytes, rs: Bytes, e: Bytes): Initiator
  {
    Initiator(Write1, Begin(c, name, prologue, rs), rs, e, true, 0)
  }

  /** Mix in a DH result: hash the public key, then the key; `None` when the DH is refused. */
  function MixDh(c: Crypto, s: Symmetric, public: Bytes, secret: Bytes, peer: Bytes): (Symmetric, bool)
  {
    var hashed := MixHash(c, s, public);
    var shared := c.dh(secret, peer);
    if shared.None? then (hashed, false) else (MixKey(c, hashed, shared.value), true)
  }

  function WriteMessage1(c: Crypto, i: Initiator, payload: Bytes): (Initiator, Option<Bytes>)
  {
    if !i.step.Write1? then (i, None)
    else
      var (mixed, ok) := MixDh(c, i.ss, c.publicOf(i.e), i.e, i.rs);
      if !ok then (i.(step := Read2, ss := mixed), None)
      else
        var (ss, cipher) := EncryptAndHash(c, mixed, payload);
        (i.(step := Read2, ss := ss), Some(c.publicOf(i.e) + cipher))
  }

  function ReadMessage2(c: Crypto, i: Initiator, message: Bytes): (Initiator, Option<(Bytes, Transport)>)
  {
    if !i.step.Read2? then (i, None)
    else
      var j := i.(step := InitiatorDone, alive := false);
      if |message| < DHLEN then (j, None)
      else
        var (mixed, ok) := MixDh(c, i.ss, message[..DHLEN], i.e, message[..DHLEN]);
        if !ok then (j.(ss := mixed), None)
        else
          var (ss, payload) := DecryptAndHash(c, mixed, message[DHLEN..]);
          if payload.None? then (j.(ss := ss), None)
          else
            var (ended, (k1, k2)) := SplitKeys(c, ss);
            (j.(ss := ended, handed := i.handed + 1), Some((payload.value, Transport(k1, k2, ss.h))))
  }

  datatype ResponderStep = Read1 | Write2 | ResponderDone

  datatype Responder = Responder(
    step: ResponderStep, ss: Symmetric, s: Bytes, e: Bytes, re: Option<Bytes>, alive: bool, handed: nat)

  function NewResponder(c: Crypto, name: Bytes, prologue: Bytes, s: Bytes, e: Bytes): Responder
  {
    Responder(Read1, Begin(c, name, prologue, c.publicOf(s)), s, e, None, true, 0)
  }

  function ReadMessage1(c: Crypto, r: Responder, message: Bytes): (Responder, Option<Bytes>)
  {
    if !r.step.Read1? then (r, None)
    else if |message| < DHLEN then (r.(step := Write2, alive := false), None)
    else
      var (mixed, ok) := MixDh(c, r.ss, message[..DHLEN], r.s, message[..DHLEN]);
      if !ok then (r.(step := Write2, ss := mixed, alive := false), None)
      else
        var (ss, payload) := DecryptAndHash(c, mixed, message[DHLEN..]);
        if payload.None? then (r.(step := Write2, ss := ss, alive := false), None)
        else (r.(step := Write2, ss := ss, re := Some(message[..DHLEN])), payload)
  }

  function WriteMessage2(c: Crypto, r: Responder, payload: Bytes): (Responder, Option<(Bytes, Transport)>)
  {
    if !r.step.Write2? || r.re.None? then (r, None)
    else
      var q := r.(step := ResponderDone, alive := false);
      var (mixed, ok) := MixDh(c, r.ss, c.publicOf(r.e), r.e, r.re.value);
      if !ok then (q.(ss := mixed), None)
      else
        var (ss, cipher) := EncryptAndHash(c, mixed, payload);
        var (ended, (k1, k2)) := SplitKeys(c, ss);
        (q.(ss := ended, handed := r.handed + 1), Some((c.publicOf(r.e) + cipher, Transport(k2, k1, ss.h))))
  }

  // ---------------------------------------------------------------------
  // Agreement
  // ---------------------------------------------------------------------

  lemma DhAgrees(c: Crypto, a: Symmetric, b: Symmetric, public: Bytes, x: Bytes, y: Bytes)
    requires Commutes(c) && Agree(a, b)
    ensures var (a', ok) := MixDh(c, a, public, x, c.publicOf(y));
            var (b', ok') := MixDh(c, b, public, y, c.publicOf(x));
            ok == ok' == c.dh(x, c.publicOf(y)).Some? && Agree(a', b')
  {
  }

  /** What the responder has after reading the honest first message. */
  lemma FirstMessageArrives(c: Crypto, i: Initiator, r: Responder, payload: Bytes)
    requires Commutes(c) && OpensSealed(c) && PublicKeysFit(c)
    requires i.step.Write1? && r.step.Read1? && Agree(i.ss, r.ss) && i.rs == c.publicOf(r.s)
    requires c.dh(i.e, i.rs).Some?
    ensures var (i', m1) := WriteMessage1(c, i, payload);
            && m1.Some?
            && var (r', got) := ReadMessage1(c, r, m1.value);
               && got == Some(payload) && Agree(i'.ss, r'.ss) && i'.step.Read2? && r'.step.Write2?
               && r'.re == Some(c.publicOf(i.e)) && r'.e == r.e && i'.e == i.e
  {
    hide EncryptAndHash, DecryptAndHash, MixDh;
    var e := c.publicOf(i.e);
    DhAgrees(c, i.ss, r.ss, e, i.e, r.s);
    var (mixed, _) := MixDh(c, i.ss, e, i.e, i.rs);
    var (other, _) := MixDh(c, r.ss, e, r.s, e);
    SealedOpens(c, mixed, other, payload);
    var (_, cipher) := EncryptAndHash(c, mixed, payload);
    assert (e + cipher)[..DHLEN] == e && (e + cipher)[DHLEN..] == cipher;
  }

  /** And what the initiator has after reading the honest second message. */
  lemma SecondMessageArrives(c: Crypto, i: Initiator, r: Responder, payload: Bytes)
    requires Commutes(c) && OpensSealed(c) && PublicKeysFit(c)
    requires i.step.Read2? && r.step.Write2? && Agree(i.ss, r.ss) && r.re == Some(c.publicOf(i.e))
    requires c.dh(r.e, c.publicOf(i.e)).Some?
    ensures var (_, m2) := WriteMessage2(c, r, payload);
            && m2.Some?
            && var (_, got) := ReadMessage2(c, i, m2.value.0);
               && got.Some? && got.value.0 == payload
               && got.value.1.sendKey == m2.value.1.receiveKey && got.value.1.receiveKey == m2.value.1.sendKey
               && got.value.1.handshakeHash == m2.value.1.handshakeHash
  {
    hide EncryptAndHash, DecryptAndHash, MixDh;
    var e := c.publicOf(r.e);
    DhAgrees(c, r.ss, i.ss, e, r.e, i.e);
    var (mixed, _) := MixDh(c, r.ss, e, r.e, r.re.value);
    var (other, _) := MixDh(c, i.ss, e, i.e, e);
    SealedOpens(c, mixed, other, payload);
    var (_, cipher) := EncryptAndHash(c, mixed, payload);
    assert (e + cipher)[..DHLEN] == e && (e + cipher)[DHLEN..] == cipher;
  }

  // ---------------------------------------------------------------------
  // What each side computes, in closed form over the primitives
  // ---------------------------------------------------------------------

  /** The protocol name filled up with zeros, or its hash where it is longer than a hash. */
  function NameHash(c: Crypto, name: Bytes): (h: Bytes)
    ensures |name| <= 32 ==> |h| == 32 && name <= h && forall i | |name| <= i < 32 :: h[i] == 0
    ensures |name| > 32 ==> h == c.sha256(name)
  {
    if |name| > 32 then c.sha256(name) else name + seq(32 - |name|, _ => 0)
  }

  /** `sha256` over the hash so far and one part after the other. */
  function HashAll(c: Crypto, h: Bytes, parts: seq<Bytes>): Bytes
  {
    if parts == [] then h else c.sha256(HashAll(c, h, parts[..|parts| - 1]) + parts[|parts| - 1])
  }

  /** The transcript hash after the pre-message and the given parts of the two messages. */
  function Transcript(c: Crypto, name: Bytes, prologue: Bytes, rs: Bytes, parts: seq<Bytes>): Bytes
  {
    HashAll(c, NameHash(c, name), [prologue, rs] + parts)
  }

  /** The key of the first payload, from the DH result `es`; below, that of the second, from `es` and `ee`. */
  function Key1(c: Crypto, name: Bytes, es: Bytes): Bytes { c.hkdf2(NameHash(c, name), es).1 }

  function Key2(c: Crypto, name: Bytes, es: Bytes, ee: Bytes): Bytes
  {
    c.hkdf2(c.hkdf2(NameHash(c, name), es).0, ee).1
  }

  function TransportKeys(c: Crypto, name: Bytes, es: Bytes, ee: Bytes): (Bytes, Bytes)
  {
    c.hkdf2(c.hkdf2(c.hkdf2(NameHash(c, name), es).0, ee).0, [])
  }

  /** The payload of the first message, sealed. */
  function Cipher1(c: Crypto, name: Bytes, prologue: Bytes, rs: Bytes, e1: Bytes, es: Bytes, p1: Bytes): Bytes
  {
    c.seal(Key1(c, name, es), 0, Transcript(c, name, prologue, rs, [e1]), p1)
  }

  /** The payload of the second, sealed; `c1` is the sealed first one. */
  function Cipher2(c: Crypto, name: Bytes, prologue: Bytes, rs: Bytes, e1: Bytes, es: Bytes, c1: Bytes,
                   e2: Bytes, ee: Bytes, p2: Bytes): Bytes
  {
    c.seal(Key2(c, name, es, ee), 0, Transcript(c, name, prologue, rs, [e1, c1, e2]), p2)
  }

  lemma HashSnoc(c: Crypto, name: Bytes, prologue: Bytes, rs: Bytes, parts: seq<Bytes>, x: Bytes)
    ensures Transcript(c, name, prologue, rs, parts + [x]) == c.sha256(Transcript(c, name, prologue, rs, parts) + x)
  {
    var all := [prologue, rs] + parts;
    assert [prologue, rs] + (parts + [x]) == all + [x] && (all + [x])[..|all|] == all;
  }

  /** The state between the two messages: `es` mixed in, and the first public key and payload hashed. */
  predicate HalfWay(c: Crypto, s: Symmetric, name: Bytes, prologue: Bytes, rs: Bytes, e1: Bytes, es: Bytes, c1: Bytes)
  {
    && s.ck == c.hkdf2(NameHash(c, name), es).0
    && s.h == Transcript(c, name, prologue, rs, [e1, c1])
  }

  lemma HalfWayTogether(c: Crypto, a: Symmetric, b: Symmetric, name: Bytes, prologue: Bytes, rs: Bytes, e1: Bytes,
                        es: Bytes, c1: Bytes)
    requires Agree(a, b) && HalfWay(c, a, name, prologue, rs, e1, es, c1)
    ensures HalfWay(c, b, name, prologue, rs, e1, es, c1)
  {
  }

  lemma BeginForm(c: Crypto, name: Bytes, prologue: Bytes, rs: Bytes)
    ensures var s := Begin(c, name, prologue, rs);
            s.ck == NameHash(c, name) && s.h == Transcript(c, name, prologue, rs, []) && s.k.None?
  {
    var h := NameHash(c, name);
    assert [prologue, rs] + [] == [prologue, rs];
    assert [prologue, rs][..1] == [prologue] && [prologue][..0] == [];
    assert HashAll(c, h, [prologue]) == c.sha256(h + prologue);
    assert HashAll(c, h, [prologue, rs]) == c.sha256(c.sha256(h + prologue) + rs);
    if |name| <= HASHLEN {
      assert Padded(name, HASHLEN) == h;
    }
  }

  /** The first message an initiator writes, exactly. */
  lemma FirstWritten(c: Crypto, name: Bytes, prologue: Bytes, rs: Bytes, e: Bytes, p1: Bytes)
    ensures var (i, m1) := WriteMessage1(c, NewInitiator(c, name, prologue, rs, e), p1);
            && i.e == e && i.step.Read2?
            && match c.dh(e, rs)
               case None => m1.None?
               case Some(es) =>
                 var c1 := Cipher1(c, name, prologue, rs, c.publicOf(e), es, p1);
                 m1 == Some(c.publicOf(e) + c1) && HalfWay(c, i.ss, name, prologue, rs, c.publicOf(e), es, c1)
  {
    hide Transcript, NameHash, Begin;
    BeginForm(c, name, prologue, rs);
    if c.dh(e, rs).Some? {
      var e1, es := c.publicOf(e), c.dh(e, rs).value;
      HashSnoc(c, name, prologue, rs, [], e1);
      var c1 := Cipher1(c, name, prologue, rs, e1, es, p1);
      HashSnoc(c, name, prologue, rs, [e1], c1);
      assert [] + [e1] == [e1] && [e1] + [c1] == [e1, c1];
    }
  }

  /** What a responder reads, exactly, from any first message. */
  lemma FirstRead(c: Crypto, name: Bytes, prologue: Bytes, s: Bytes, e: Bytes, m1: Bytes)
    ensures var (r, got) := ReadMessage1(c, NewResponder(c, name, prologue, s, e), m1);
            if |m1| < 32 || c.dh(s, m1[..32]).None? then got.None?
            else
              var e1, c1, es, rs := m1[..32], m1[32..], c.dh(s, m1[..32]).value, c.publicOf(s);
              && got == c.open(Key1(c, name, es), 0, Transcript(c, name, prologue, rs, [e1]), c1)
              && (got.Some? ==> r.e == e && r.re == Some(e1) && r.step.Write2?
                                && HalfWay(c, r.ss, name, prologue, rs, e1, es, c1))
  {
    hide Transcript, NameHash, Begin;
    BeginForm(c, name, prologue, c.publicOf(s));
    if |m1| >= 32 {
      var e1, c1 := m1[..32], m1[32..];
      HashSnoc(c, name, prologue, c.publicOf(s), [], e1);
      HashSnoc(c, name, prologue, c.publicOf(s), [e1], c1);
      assert [] + [e1] == [e1] && [e1] + [c1] == [e1, c1];
    }
  }

  /** The second message a responder writes, exactly, and what it goes on with. */
  lemma SecondWritten(c: Crypto, r: Responder, name: Bytes, prologue: Bytes, rs: Bytes, e1: Bytes, es: Bytes, c1: Bytes,
                      p2: Bytes)
    requires r.step.Write2? && r.re == Some(e1) && HalfWay(c, r.ss, name, prologue, rs, e1, es, c1)
    ensures var out := WriteMessage2(c, r, p2).1;
            match c.dh(r.e, e1)
            case None => out.None?
            case Some(ee) =>
              var e2, keys := c.publicOf(r.e), TransportKeys(c, name, es, ee);
              var c2 := Cipher2(c, name, prologue, rs, e1, es, c1, e2, ee, p2);
              var hash := Transcript(c, name, prologue, rs, [e1, c1, e2, c2]);
              out == Some((e2 + c2, Transport(keys.1, keys.0, hash)))
  {
    hide Transcript, NameHash;
    if c.dh(r.e, e1).Some? {
      var e2, ee := c.publicOf(r.e), c.dh(r.e, e1).value;
      var c2 := Cipher2(c, name, prologue, rs, e1, es, c1, e2, ee, p2);
      HashSnoc(c, name, prologue, rs, [e1, c1], e2);
      HashSnoc(c, name, prologue, rs, [e1, c1, e2], c2);
      assert [e1, c1] + [e2] == [e1, c1, e2] && [e1, c1, e2] + [c2] == [e1, c1, e2, c2];
    }
  }

  /** What an initiator reads, exactly, from any second message, and what it goes on with. */
  lemma SecondRead(c: Crypto, i: Initiator, name: Bytes, prologue: Bytes, rs: Bytes, e1: Bytes, es: Bytes, c1: Bytes,
                   m2: Bytes)
    requires i.step.Read2? && HalfWay(c, i.ss, name, prologue, rs, e1, es, c1)
    ensures var got := ReadMessage2(c, i, m2).1;
            if |m2| < 32 || c.dh(i.e, m2[..32]).None? then got.None?
            else
              var e2, c2, ee := m2[..32], m2[32..], c.dh(i.e, m2[..32]).value;
              match c.open(Key2(c, name, es, ee), 0, Transcript(c, name, prologue, rs, [e1, c1, e2]), c2)
              case None => got.None?
              case Some(payload) =>
                var keys := TransportKeys(c, name, es, ee);
                var hash := Transcript(c, name, prologue, rs, [e1, c1, e2, c2]);
                got == Some((payload, Transport(keys.0, keys.1, hash)))
  {
    hide Transcript, NameHash;
    if |m2| >= 32 {
      var e2, c2 := m2[..32], m2[32..];
      HashSnoc(c, name, prologue, rs, [e1, c1], e2);
      HashSnoc(c, name, prologue, rs, [e1, c1, e2], c2);
      assert [e1, c1] + [e2] == [e1, c1, e2] && [e1, c1, e2] + [c2] == [e1, c1, e2, c2];
    }
  }

  // ---------------------------------------------------------------------
  // Any order of calls
  // ---------------------------------------------------------------------

  lemma SpendFresh(s: Symmetric)
    requires NoReuse(s)
    ensures NoReuse(Spend(s))
  {
  }

  lemma MixDhFresh(c: Crypto, s: Symmetric, public: Bytes, secret: Bytes, peer: Bytes)
    requires NoReuse(s)
    ensures NoReuse(MixDh(c, s, public, secret, peer).0)
  {
  }

  lemma SealFresh(c: Crypto, s: Symmetric, data: Bytes)
    requires NoReuse(s)
    ensures NoReuse(EncryptAndHash(c, s, data).0) && NoReuse(DecryptAndHash(c, s, data).0)
    ensures NoReuse(SplitKeys(c, s).0)
  {
    hide NoReuse;
    SpendFresh(s);
    if s.k.Some? {
      var cipher := c.seal(s.k.value, s.n, s.h, data);
      HashFresh(c, Spend(s), cipher);
      HashFresh(c, Spend(s), data);
    }
    HashFresh(c, s, data);
    EndFresh(s);
  }

  lemma HashFresh(c: Crypto, s: Symmetric, data: Bytes)
    requires NoReuse(s)
    ensures NoReuse(MixHash(c, s, data))
  {
  }

  lemma EndFresh(s: Symmetric)
    requires NoReuse(s)
    ensures NoReuse(s.(ck := [], k := None))
  {
  }

  datatype Call = Write(payload: Bytes) | Read(message: Bytes)

  function InitiatorCall(c: Crypto, i: Initiator, call: Call): Initiator
  {
    match call
    case Write(payload) => WriteMessage1(c, i, payload).0
    case Read(message) => ReadMessage2(c, i, message).0
  }

  function InitiatorRun(c: Crypto, i: Initiator, calls: seq<Call>): Initiator
  {
    if calls == [] then i else InitiatorCall(c, InitiatorRun(c, i, calls[..|calls| - 1]), calls[|calls| - 1])
  }

  function ResponderCall(c: Crypto, r: Responder, call: Call): Responder
  {
    match call
    case Write(payload) => WriteMessage2(c, r, payload).0
    case Read(message) => ReadMessage1(c, r, message).0
  }

  function ResponderRun(c: Crypto, r: Responder, calls: seq<Call>): Responder
  {
    if calls == [] then r else ResponderCall(c, ResponderRun(c, r, calls[..|calls| - 1]), calls[|calls| - 1])
  }

  /** Keys at most once, no nonce twice, and the ephemeral secret alive whenever a step may still use it. */
  predicate InitiatorOk(i: Initiator)
  {
    && NoReuse(i.ss) && i.handed <= (if i.step.InitiatorDone? then 1 else 0)
    && (!i.step.InitiatorDone? ==> i.alive)
  }

  predicate ResponderOk(r: Responder)
  {
    && NoReuse(r.ss) && r.handed <= (if r.step.ResponderDone? then 1 else 0)
    && (r.step.Read1? ==> r.alive && r.re.None?) && (r.step.Write2? && r.re.Some? ==> r.alive)
  }

  lemma InitiatorCallOk(c: Crypto, i: Initiator, call: Call)
    requires InitiatorOk(i)
    ensures InitiatorOk(InitiatorCall(c, i, call))
  {
    hide NoReuse, EncryptAndHash, DecryptAndHash, MixDh, SplitKeys;
    match call
    case Write(payload) =>
      MixDhFresh(c, i.ss, c.publicOf(i.e), i.e, i.rs);
      SealFresh(c, MixDh(c, i.ss, c.publicOf(i.e), i.e, i.rs).0, payload);
    case Read(message) =>
      if |message| >= DHLEN {
        var re := message[..DHLEN];
        MixDhFresh(c, i.ss, re, i.e, re);
        var mixed := MixDh(c, i.ss, re, i.e, re).0;
        SealFresh(c, mixed, message[DHLEN..]);
        SealFresh(c, DecryptAndHash(c, mixed, message[DHLEN..]).0, []);
      }
  }

  lemma ResponderCallOk(c: Crypto, r: Responder, call: Call)
    requires ResponderOk(r)
    ensures ResponderOk(ResponderCall(c, r, call))
  {
    hide NoReuse, EncryptAndHash, DecryptAndHash, MixDh, SplitKeys;
    match call
    case Read(message) =>
      if |message| >= DHLEN {
        var re := message[..DHLEN];
        MixDhFresh(c, r.ss, re, r.s, re);
        SealFresh(c, MixDh(c, r.ss, re, r.s, re).0, message[DHLEN..]);
      }
    case Write(payload) =>
      if r.re.Some? {
        MixDhFresh(c, r.ss, c.publicOf(r.e), r.e, r.re.value);
        var mixed := MixDh(c, r.ss, c.publicOf(r.e), r.e, r.re.value).0;
        SealFresh(c, mixed, payload);
        SealFresh(c, EncryptAndHash(c, mixed, payload).0, []);
      }
  }

  /** Whatever is called in whatever order, an initiator yields keys at most once and reuses no nonce. */
  lemma {:induction false} InitiatorRunOk(c: Crypto, name: Bytes, prologue: Bytes, rs: Bytes, e: Bytes,
                                          calls: seq<Call>)
    ensures InitiatorOk(InitiatorRun(c, NewInitiator(c, name, prologue, rs, e), calls))
  {
    hide InitiatorCall;
    if calls != [] {
      InitiatorRunOk(c, name, prologue, rs, e, calls[..|calls| - 1]);
      InitiatorCallOk(c, InitiatorRun(c, NewInitiator(c, name, prologue, rs, e), calls[..|calls| - 1]),
                      calls[|calls| - 1]);
    }
  }

  lemma {:induction false} ResponderRunOk(c: Crypto, name: Bytes, prologue: Bytes, s: Bytes, e: Bytes, calls: seq<Call>)
    ensures ResponderOk(ResponderRun(c, NewResponder(c, name, prologue, s, e), calls))
  {
    hide ResponderCall;
    if calls != [] {
      ResponderRunOk(c, name, prologue, s, e, calls[..|calls| - 1]);
      ResponderCallOk(c, ResponderRun(c, NewResponder(c, name, prologue, s, e), calls[..|calls| - 1]),
                      calls[|calls| - 1]);
    }
  }

  /** A responder whose first message failed never yields keys, whatever is called afterwards. */
  lemma {:induction false} FailedFirstMessageIsFinal(c: Crypto, r: Responder, message: Bytes, calls: seq<Call>)
    requires r.step.Read1? && r.re.None? && r.handed == 0 && ReadMessage1(c, r, message).1.None?
    ensures var q := ResponderRun(c, ReadMessage1(c, r, message).0, calls);
            q == ReadMessage1(c, r, message).0 && q.handed == 0 && q.step.Write2? && q.re.None?
  {
    hide MixDh, DecryptAndHash;
    if calls != [] {
      FailedFirstMessageIsFinal(c, r, message, calls[..|calls| - 1]);
    }
  }

  // ---------------------------------------------------------------------
  // The classes
  // ---------------------------------------------------------------------

  class NkInitiator {
    const crypto: Crypto
    const ss: SymmetricState
    const rs: Bytes
    const publicKey: Bytes
    ghost const e: Bytes
    /** The ephemeral secret, `None` once wiped. */
    var secret: Option<Bytes>
    var step: InitiatorStep
    ghost var handed: nat

    ghost function View(): Initiator
      reads this, ss
    {
      Initiator(step, ss.View(), rs, e, secret.Some?, handed)
    }

    ghost predicate Valid()
      reads this, ss
    {
      && ss.crypto == crypto && publicKey == crypto.publicOf(e) && (secret.Some? ==> secret.value == e)
      && InitiatorOk(View())
    }

    constructor (crypto: Crypto, name: Bytes, prologue: Bytes, responderStatic: Bytes, ephemeral: Bytes)
      ensures Valid() && fresh(ss) && this.crypto == crypto
      ensures View() == NewInitiator(crypto, name, prologue, responderStatic, ephemeral)
    {
      this.crypto, rs, publicKey, e := crypto, responderStatic, crypto.publicOf(ephemeral), ephemeral;
      secret, step, handed := Some(ephemeral), Write1, 0;
      var fresh1 := new SymmetricState(crypto, name);
      ss := fresh1;
      new;
      ss.MixHashWith(prologue);
      ss.MixHashWith(rs);
    }

    method WriteFirst(payload: Bytes) returns (message: Option<Bytes>)
      requires Valid()
      modifies this, ss
      ensures Valid() && (View(), message) == WriteMessage1(crypto, old(View()), payload)
    {
      hide EncryptAndHash, MixHash, MixKey, NoReuse, SplitKeys;
      InitiatorCallOk(crypto, View(), Write(payload));
      if step != Write1 {
        return None;
      }
      step := Read2;
      ss.MixHashWith(publicKey);
      var shared := crypto.dh(secret.value, rs);
      if shared.None? {
        return None;
      }
      ss.MixKeyWith(shared.value);
      var cipher := ss.Encrypt(payload);
      return Some(publicKey + cipher);
    }

    method ReadSecond(message: Bytes) returns (r: Option<(Bytes, Transport)>)
      requires Valid()
      modifies this, ss
      ensures Valid() && (View(), r) == ReadMessage2(crypto, old(View()), message)
    {
      hide DecryptAndHash, MixHash, MixKey, NoReuse, SplitKeys;
      InitiatorCallOk(crypto, View(), Read(message));
      if step != Read2 {
        return None;
      }
      step := InitiatorDone;
      var key := secret.value;
      secret := None;
      if |message| < DHLEN {
        return None;
      }
      ss.MixHashWith(message[..DHLEN]);
      var shared := crypto.dh(key, message[..DHLEN]);
      if shared.None? {
        return None;
      }
      ss.MixKeyWith(shared.value);
      var payload := ss.Decrypt(message[DHLEN..]);
      if payload.None? {
        return None;
      }
      var hash := ss.h;
      var k1, k2 := ss.Split();
      handed := handed + 1;
      return Some((payload.value, Transport(k1, k2, hash)));
    }
  }

  class NkResponder {
    const crypto: Crypto
    const ss: SymmetricState
    const s: Bytes
    const publicKey: Bytes
    ghost const e: Bytes
    var secret: Option<Bytes>
    var re: Option<Bytes>
    var step: ResponderStep
    ghost var handed: nat

    ghost function View(): Responder
      reads this, ss
    {
      Responder(step, ss.View(), s, e, re, secret.Some?, handed)
    }

    ghost predicate Valid()
      reads this, ss
    {
      && ss.crypto == crypto && publicKey == crypto.publicOf(e) && (secret.Some? ==> secret.value == e)
      && ResponderOk(View())
    }

    constructor (crypto: Crypto, name: Bytes, prologue: Bytes, s: Bytes, ephemeral: Bytes)
      ensures Valid() && fresh(ss) && this.crypto == crypto
      ensures View() == NewResponder(crypto, name, prologue, s, ephemeral)
    {
      this.crypto, this.s, publicKey, e := crypto, s, crypto.publicOf(ephemeral), ephemeral;
      secret, re, step, handed := Some(ephemeral), None, Read1, 0;
      var fresh1 := new SymmetricState(crypto, name);
      ss := fresh1;
      new;
      ss.MixHashWith(prologue);
      ss.MixHashWith(crypto.publicOf(s));
    }

    method ReadFirst(message: Bytes) returns (payload: Option<Bytes>)
      requires Valid()
      modifies this, ss
      ensures Valid() && (View(), payload) == ReadMessage1(crypto, old(View()), message)
    {
      hide DecryptAndHash, MixHash, MixKey, NoReuse, SplitKeys;
      ResponderCallOk(crypto, View(), Read(message));
      if step != Read1 {
        return None;
      }
      step := Write2;
      if |message| < DHLEN {
        secret := None;
        return None;
      }
      ss.MixHashWith(message[..DHLEN]);
      var shared := crypto.dh(s, message[..DHLEN]);
      if shared.None? {
        secret := None;
        return None;
      }
      ss.MixKeyWith(shared.value);
      payload := ss.Decrypt(message[DHLEN..]);
      if payload.None? {
        secret := None;
        return None;
      }
      re := Some(message[..DHLEN]);
    }

    method WriteSecond(payload: Bytes) returns (r: Option<(Bytes, Transport)>)
      requires Valid()
      modifies this, ss
      ensures Valid() && (View(), r) == WriteMessage2(crypto, old(View()), payload)
    {
      hide EncryptAndHash, MixHash, MixKey, NoReuse, SplitKeys;
      ResponderCallOk(crypto, View(), Write(payload));
      if step != Write2 || re.None? {
        return None;
      }
      step := ResponderDone;
      var key := secret.value;
      secret := None;
      ss.MixHashWith(publicKey);
      var shared := crypto.dh(key, re.value);
      if shared.None? {
        return None;
      }
      ss.MixKeyWith(shared.value);
      var cipher := ss.Encrypt(payload);
      var hash := ss.h;
      var k1, k2 := ss.Split();
      handed := handed + 1;
      return Some((publicKey + cipher, Transport(k2, k1, hash)));
    }
  }

  /**
   An honest exchange over the two classes, for any keys, prologue and payloads
   whose DH results X25519 accepts: both payloads arrive, the handshake hashes
   are equal, each side sends with the key the other receives with, and the keys,
   the hash and the two messages are the closed forms over both DH results.
   */
  method HonestExchange(c: Crypto, name: Bytes, prologue: Bytes, s: Bytes, e1: Bytes, e2: Bytes, p1: Bytes, p2: Bytes)
    returns (got1: Option<Bytes>, got2: Option<Bytes>, initiator: Option<Transport>, responder: Option<Transport>,
             m1: Option<Bytes>, m2: Bytes)
    requires Commutes(c) && OpensSealed(c) && PublicKeysFit(c)
    requires c.dh(e1, c.publicOf(s)).Some? && c.dh(e2, c.publicOf(e1)).Some?
    ensures got1 == Some(p1) && got2 == Some(p2) && initiator.Some? && responder.Some?
    ensures initiator.value.handshakeHash == responder.value.handshakeHash
    ensures initiator.value.sendKey == responder.value.receiveKey
            && initiator.value.receiveKey == responder.value.sendKey
    ensures var es, ee, rs, q1, q2 := c.dh(e1, c.publicOf(s)).value, c.dh(e2, c.publicOf(e1)).value, c.publicOf(s),
                                      c.publicOf(e1), c.publicOf(e2);
            var c1 := Cipher1(c, name, prologue, rs, q1, es, p1);
            var c2 := Cipher2(c, name, prologue, rs, q1, es, c1, q2, ee, p2);
            && m1 == Some(q1 + c1) && m2 == q2 + c2
            && (initiator.value.sendKey, initiator.value.receiveKey) == TransportKeys(c, name, es, ee)
            && initiator.value.handshakeHash == Transcript(c, name, prologue, rs, [q1, c1, q2, c2])
  {
    hide WriteMessage1, ReadMessage1, WriteMessage2, ReadMessage2, Commutes, OpensSealed, PublicKeysFit, Transcript;
    hide HalfWay, Cipher1, Cipher2, TransportKeys, Key1;
    var i := new NkInitiator(c, name, prologue, c.publicOf(s), e1);
    var r := new NkResponder(c, name, prologue, s, e2);
    FirstMessageArrives(c, i.View(), r.View(), p1);
    FirstWritten(c, name, prologue, c.publicOf(s), e1, p1);
    m1 := i.WriteFirst(p1);
    got1 := r.ReadFirst(m1.value);
    SecondMessageArrives(c, i.View(), r.View(), p2);
    ghost var es := c.dh(e1, c.publicOf(s)).value;
    ghost var c1 := Cipher1(c, name, prologue, c.publicOf(s), c.publicOf(e1), es, p1);
    HalfWayTogether(c, i.View().ss, r.View().ss, name, prologue, c.publicOf(s), c.publicOf(e1), es, c1);
    SecondWritten(c, r.View(), name, prologue, c.publicOf(s), c.publicOf(e1), es, c1, p2);
    var out := r.WriteSecond(p2);
    m2 := out.value.0;
    var end := i.ReadSecond(m2);
    got2, initiator, responder := Some(end.value.0), Some(end.value.1), Some(out.value.1);
  }
}
