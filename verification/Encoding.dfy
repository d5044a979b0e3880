/**
 Strict encodings for everything that is signed or compared
 (packages/crypto/src/encoding.ts): canonical base64 and the canonical writer.
 */
module Encoding {
  import opened Wrappers
  import opened Bytes
  import opened Text

  const PUBLIC_KEY_LENGTH := 32
  const SIGNATURE_LENGTH := 64
  const MAX_SAFE_INTEGER: nat := 0x1F_FFFF_FFFF_FFFF

  // ---------------------------------------------------------------------
  // Base64 (section 4 of RFC 4648)
  // ---------------------------------------------------------------------

  type Sextet = x: int | 0 <= x < 64

  const PAD: Unit := 61

  /** The standard alphabet: A-Z, a-z, 0-9, `+`, `/`. */
  function Letter(d: Sextet): (u: Unit)
    ensures u != PAD
  {
    if d < 26 then 65 + d
    else if d < 52 then 97 + (d - 26)
    else if d < 62 then 48 + (d - 52)
    else if d == 62 then 43 else 47
  }

  /** Its inverse table, -1 outside the alphabet. */
  function LetterValue(u: Unit): (d: int)
    ensures -1 <= d < 64
    ensures d >= 0 ==> Letter(d) == u
    ensures d < 0 ==> forall s: Sextet :: Letter(s) != u
  {
    if 65 <= u < 91 then u - 65
    else if 97 <= u < 123 then u - 97 + 26
    else if 48 <= u < 58 then u - 48 + 52
    else if u == 43 then 62 else if u == 47 then 63 else -1
  }

  /** What is encoded at a time: three bytes, or the one or two left over. */
  type Block = g: Bytes | 1 <= |g| <= 3 witness [0]

  function Value24(g: Block): (n: int)
    ensures 0 <= n < 0x100_0000
  {
    g[0] as int * 0x1_0000 + (if |g| > 1 then g[1] as int * 0x100 else 0) + (if |g| > 2 then g[2] as int else 0)
  }

  type Letters = s: JsString | |s| == 4 witness [PAD, PAD, PAD, PAD]

  function Group(g: Block): (s: Letters)
  {
    var n := Value24(g);
    [Letter(n / 0x4_0000), Letter(n / 0x1000 % 64),
     if |g| > 1 then Letter(n / 64 % 64) else PAD,
     if |g| > 2 then Letter(n % 64) else PAD]
  }

  /** The blocks of `b`, each turned into four letters. */
  function Blocks(b: Bytes, f: Block -> Letters): (s: JsString)
  {
    if b == [] then [] else if |b| <= 3 then f(b) else f(b[..3]) + Blocks(b[3..], f)
  }

  function Base64(b: Bytes): (s: JsString) { Blocks(b, Group) }

  /** `encodeBase64`: whole groups in a loop, then the one or two bytes left over. */
  method EncodeBase64(bytes: Bytes) returns (out: JsString)
    ensures out == Base64(bytes)
  {
    out := [];
    var i := 0;
    while i + 3 <= |bytes|
      invariant 0 <= i <= |bytes|
      invariant out + Blocks(bytes[i..], Group) == Blocks(bytes, Group)
    {
      BlocksStep(bytes[i..], Group);
      assert bytes[i..][..3] == bytes[i..i + 3] && bytes[i..][3..] == bytes[i + 3..];
      out := out + Group(bytes[i..i + 3]);
      i := i + 3;
    }
    if i < |bytes| {
      out := out + Group(bytes[i..]);
    }
  }

  lemma BlocksStep(b: Bytes, f: Block -> Letters)
    requires |b| >= 3
    ensures Blocks(b, f) == f(b[..3]) + Blocks(b[3..], f)
  {
    if |b| == 3 {
      assert b[..3] == b;
    }
  }

  function BlockAt(b: Bytes, q: nat): (g: Block)
    requires 3 * q < |b|
  {
    if 3 * q + 3 <= |b| then b[3 * q..3 * q + 3] else b[3 * q..]
  }

  lemma {:induction false} BlocksLength(b: Bytes, f: Block -> Letters)
    ensures |Blocks(b, f)| == 4 * ((|b| + 2) / 3)
  {
    if |b| > 3 {
      BlocksLength(b[3..], f);
    }
  }

  lemma {:induction false} LettersAt(b: Bytes, f: Block -> Letters, q: nat)
    requires 3 * q < |b|
    ensures 4 * q + 4 <= |Blocks(b, f)|
    ensures Blocks(b, f)[4 * q..4 * q + 4] == f(BlockAt(b, q))
    decreases q
  {
    if q == 0 {
      assert |b| <= 3 ==> BlockAt(b, 0) == b;
      assert |b| > 3 ==> BlockAt(b, 0) == b[..3];
    } else {
      LettersAt(b[3..], f, q - 1);
      BlockAtStep(b, q);
      SliceAfter(f(b[..3]), Blocks(b[3..], f), 4 * q - 4);
    }
  }

  lemma BlockAtStep(b: Bytes, q: nat)
    requires 3 * q < |b| && q > 0
    ensures BlockAt(b[3..], q - 1) == BlockAt(b, q)
  {
  }

  lemma SliceAfter<T>(head: seq<T>, rest: seq<T>, k: nat)
    requires k + 4 <= |rest|
    ensures (head + rest)[|head| + k..|head| + k + 4] == rest[k..k + 4]
  {
  }

  /** A string of `q` whole blocks and one more, whole or not, has `q + 1` groups of letters. */
  lemma {:induction false} BlocksCount(b: Bytes, f: Block -> Letters, q: nat)
    requires 3 * q < |b| <= 3 * q + 3
    ensures |Blocks(b, f)| == 4 * q + 4
    decreases q
  {
    if q > 0 {
      BlocksCount(b[3..], f, q - 1);
    }
  }

  lemma GroupPadding(g: Block)
    ensures (Group(g)[2] == PAD <==> |g| == 1) && (Group(g)[3] == PAD <==> |g| <= 2)
  {
  }

  function Padding(s: JsString): (p: nat)
    ensures p <= 2 && p <= |s|
  {
    if |s| >= 2 && s[|s| - 1] == PAD && s[|s| - 2] == PAD then 2
    else if |s| >= 1 && s[|s| - 1] == PAD then 1 else 0
  }

  /** The padding says how many bytes the last block lacks. */
  lemma Base64Padding(b: Bytes)
    requires b != []
    ensures |Base64(b)| % 4 == 0
    ensures |b| == |Base64(b)| / 4 * 3 - Padding(Base64(b))
  {
    hide Base64, BlockAt;
    var q := (|b| - 1) / 3;
    LastLetters(b, q);
  }

  lemma LastLetters(b: Bytes, q: nat)
    requires 3 * q < |b| <= 3 * q + 3
    ensures var s := Base64(b);
            && |s| == 4 * q + 4 && (s[4 * q + 2] == PAD <==> |b| == 3 * q + 1)
            && (s[4 * q + 3] == PAD <==> |b| <= 3 * q + 2)
  {
    hide Blocks, Group;
    BlocksCount(b, Group, q);
    LettersAt(b, Group, q);
    GroupPadding(BlockAt(b, q));
    var s := Base64(b);
    assert s[4 * q..4 * q + 4][3] == s[4 * q + 3] && s[4 * q..4 * q + 4][2] == s[4 * q + 2];
  }

  /** The value the decoder reads for letter `j` of the group at `i`; -1 is an error. */
  function SextetAt(s: JsString, i: nat, j: nat, padding: nat): (d: int)
    requires i + j < |s|
    ensures -1 <= d < 64
  {
    if s[i + j] == PAD && i + 4 == |s| && j >= 4 - padding then 0 else LetterValue(s[i + j])
  }

  function Combine(a: int, b: int, c: int, d: int): int { a * 0x4_0000 + b * 0x1000 + c * 64 + d }

  lemma Sextets(n: int)
    requires 0 <= n < 0x100_0000
    ensures 0 <= n / 0x4_0000 < 64
    ensures Combine(n / 0x4_0000, n / 0x1000 % 64, n / 64 % 64, n % 64) == n
  {
    var high := n / 64;
    assert high / 64 == n / 0x1000 && n / 0x1000 / 64 == n / 0x4_0000;
  }

  lemma DigitsOf(x: byte, y: byte, z: byte)
    ensures var n := x as int * 0x1_0000 + y as int * 0x100 + z as int;
            n / 0x1_0000 % 0x100 == x && n / 0x100 % 0x100 == y && n % 0x100 == z
  {
    var n := x as int * 0x1_0000 + y as int * 0x100 + z as int;
    assert n / 0x100 == x as int * 0x100 + y as int;
  }

  lemma BytesOf(g: Block)
    ensures Value24(g) / 0x1_0000 % 0x100 == g[0]
    ensures |g| > 1 ==> Value24(g) / 0x100 % 0x100 == g[1]
    ensures |g| > 2 ==> Value24(g) % 0x100 == g[2]
  {
    DigitsOf(g[0], if |g| > 1 then g[1] else 0, if |g| > 2 then g[2] else 0);
  }

  /** The letters a short block leaves out would have stood for zero. */
  lemma ShortBlock(g: Block)
    ensures |g| == 1 ==> Value24(g) / 64 % 64 == 0
    ensures |g| <= 2 ==> Value24(g) % 64 == 0
  {
    var n := Value24(g);
    if |g| == 1 {
      assert n == 64 * (64 * (16 * g[0] as int));
    } else if |g| == 2 {
      assert n == 64 * (0x400 * g[0] as int + 4 * g[1] as int);
    }
  }

  lemma Value24Injective(g: Block, h: Block)
    requires |g| == |h| && Value24(g) == Value24(h)
    ensures g == h
  {
    BytesOf(g);
    BytesOf(h);
  }

  /** Four letters read back as the value of the block they encode. */
  lemma GroupReads(s: JsString, i: nat, padding: nat, g: Block)
    requires i + 4 <= |s| && s[i..i + 4] == Group(g)
    requires |g| < 3 ==> i + 4 == |s| && padding == 3 - |g|
    ensures forall j | 0 <= j < 4 :: SextetAt(s, i, j, padding) >= 0
    ensures Combine(SextetAt(s, i, 0, padding), SextetAt(s, i, 1, padding),
                    SextetAt(s, i, 2, padding), SextetAt(s, i, 3, padding)) == Value24(g)
  {
    var n := Value24(g);
    Sextets(n);
    ShortBlock(g);
    LetterInverse(n / 0x4_0000);
    LetterInverse(n / 0x1000 % 64);
    LetterInverse(n / 64 % 64);
    LetterInverse(n % 64);
    assert s[i] == s[i..i + 4][0] && s[i + 1] == s[i..i + 4][1];
    assert s[i + 2] == s[i..i + 4][2] && s[i + 3] == s[i..i + 4][3];
  }

  lemma LetterInverse(d: Sextet)
    ensures LetterValue(Letter(d)) == d
  {
  }

  lemma LastBlock(b: Bytes, q: nat)
    requires 3 * q < |b|
    ensures |BlockAt(b, q)| < 3 ==> 4 * q + 4 == |Base64(b)| && Padding(Base64(b)) == 3 - |BlockAt(b, q)|
  {
    Base64Padding(b);
    BlocksLength(b, Group);
  }

  predicate Encodes(b: Bytes, s: JsString) { Base64(b) == s }

  /** Appending to `out[..o]` what the decoder takes from one 24-bit value. */
  function TakeBytes(n: nat, room: nat): (b: Bytes)
    ensures |b| == Min(3, room)
  {
    if room == 0 then [] else if room == 1 then [n / 0x1_0000 % 0x100]
    else if room == 2 then [n / 0x1_0000 % 0x100, n / 0x100 % 0x100]
    else [n / 0x1_0000 % 0x100, n / 0x100 % 0x100, n % 0x100]
  }

  function Min(a: int, b: int): int { if a < b then a else b }

  lemma TakesBlock(b: Bytes, q: nat)
    requires 3 * q < |b|
    ensures TakeBytes(Value24(BlockAt(b, q)), |b| - 3 * q) == b[3 * q..Min(3 * q + 3, |b|)]
  {
    BytesOf(BlockAt(b, q));
  }

  /** One group of the decoder: the 24-bit value, or -1 on a character outside the alphabet. */
  method ReadGroup(s: JsString, i: nat, padding: nat) returns (n: int)
    requires i + 4 <= |s|
    ensures n >= -1
    ensures n == -1 ==> exists j | 0 <= j < 4 :: SextetAt(s, i, j, padding) < 0
    ensures n != -1 ==> n == Combine(SextetAt(s, i, 0, padding), SextetAt(s, i, 1, padding),
                                     SextetAt(s, i, 2, padding), SextetAt(s, i, 3, padding))
  {
    n := 0;
    var j := 0;
    ghost var read: seq<int> := [];
    while j < 4
      invariant 0 <= j <= 4 && 0 <= n
      invariant |read| == j && forall k | 0 <= k < j :: read[k] == SextetAt(s, i, k, padding) >= 0
      invariant n == if j == 0 then 0 else if j == 1 then read[0] else if j == 2 then read[0] * 64 + read[1]
                else if j == 3 then read[0] * 0x1000 + read[1] * 64 + read[2]
                else Combine(read[0], read[1], read[2], read[3])
    {
      var d := SextetAt(s, i, j, padding);
      if d < 0 {
        return -1;
      }
      n := n * 64 + d;
      j := j + 1;
      read := read + [d];
    }
  }

  /** A group of an encoding is read without error and yields the bytes it stands for. */
  method DecodeGroup(s: JsString, i: nat, padding: nat, ghost b: Bytes) returns (n: int)
    requires i + 4 <= |s| && i % 4 == 0 && padding == Padding(s)
    ensures n >= -1
    ensures Encodes(b, s) && i / 4 * 3 < |b| ==>
              n >= 0 && TakeBytes(n, |b| - i / 4 * 3) == b[i / 4 * 3..Min(i / 4 * 3 + 3, |b|)]
  {
    n := ReadGroup(s, i, padding);
    if Encodes(b, s) && i / 4 * 3 < |b| {
      LettersAt(b, Group, i / 4);
      LastBlock(b, i / 4);
      GroupReads(s, i, padding, BlockAt(b, i / 4));
      TakesBlock(b, i / 4);
    }
  }

  /** Storing a group stops at the end of the buffer. */
  method StoreGroup(out: array<byte>, start: nat, n: nat) returns (o: nat)
    requires start <= out.Length
    modifies out
    ensures o == Min(start + 3, out.Length)
    ensures out[..o] == old(out[..start]) + TakeBytes(n, out.Length - start)
  {
    o := start;
    if o < out.Length { out[o] := n / 0x1_0000 % 0x100; o := o + 1; }
    if o < out.Length { out[o] := n / 0x100 % 0x100; o := o + 1; }
    if o < out.Length { out[o] := n % 0x100; o := o + 1; }
  }

  /** The decoding loop: on the encoding of `b` it produces `b`. */
  method DecodeGroups(value: JsString, padding: nat, ghost b: Bytes) returns (r: Result<Bytes>)
    requires |value| % 4 == 0 && padding == Padding(value)
    ensures Encodes(b, value) ==> r == Ok(b)
  {
    hide Base64, Padding;
    ghost var known := Encodes(b, value);
    if known {
      EncodedLength(b);
    }
    var out := new byte[|value| / 4 * 3 - padding];
    var o := 0;
    var i := 0;
    while i < |value|
      invariant 0 <= i <= |value| && i % 4 == 0
      invariant o == Min(i / 4 * 3, out.Length)
      invariant known ==> |b| == out.Length && out[..o] == b[..o]
    {
      var n := DecodeGroup(value, i, padding, b);
      if n == -1 {
        return Err;
      }
      ghost var start := o;
      o := StoreGroup(out, o, n);
      assert known ==> b[..o] == b[..start] + b[start..o];
      i := i + 4;
    }
    assert out[..] == out[..o];
    assert known ==> b[..o] == b;
    return Ok(out[..]);
  }

  /**
   `decodeBase64Strict`. It accepts exactly the encodings: what it returns
   encodes to the input, and it refuses only a string that no byte string (of
   the expected length, when one is given) encodes to.
   */
  method DecodeBase64Strict(value: JsString, expectedLength: Option<nat>) returns (r: Result<Bytes>)
    ensures r.Ok? ==> Encodes(r.value, value) && (expectedLength.Some? ==> |r.value| == expectedLength.value)
    ensures r.Err? ==> forall b | Encodes(b, value) :: expectedLength.Some? && |b| != expectedLength.value
  {
    if |value| % 4 != 0 {
      forall b ensures !Encodes(b, value) { EncodedLength(b); }
      return Err;
    }
    ghost var b :| (exists c :: Encodes(c, value)) ==> Encodes(b, value);
    forall c | Encodes(c, value) ensures c == b {
      assert Encodes(b, value);
      Base64Injective(c, b);
    }
    var decoded := DecodeGroups(value, Padding(value), b);
    if decoded.Err? {
      return Err;
    }
    var again := EncodeBase64(decoded.value);
    if again != value || (expectedLength.Some? && |decoded.value| != expectedLength.value) {
      return Err;
    }
    return decoded;
  }

  lemma EncodedLength(b: Bytes)
    ensures |Base64(b)| % 4 == 0 && |b| == |Base64(b)| / 4 * 3 - Padding(Base64(b))
  {
    if b != [] {
      Base64Padding(b);
    }
  }

  lemma SameBlock(b: Bytes, c: Bytes, q: nat)
    requires Base64(b) == Base64(c) && |b| == |c| && 3 * q < |b|
    ensures BlockAt(b, q) == BlockAt(c, q)
  {
    var s, g, h := Base64(b), BlockAt(b, q), BlockAt(c, q);
    LettersAt(b, Group, q);
    LettersAt(c, Group, q);
    LastBlock(b, q);
    LastBlock(c, q);
    GroupReads(s, 4 * q, Padding(s), g);
    GroupReads(s, 4 * q, Padding(s), h);
    Value24Injective(g, h);
  }

  /** One key, one spelling: no two byte strings encode alike. */
  lemma Base64Injective(b: Bytes, c: Bytes)
    requires Base64(b) == Base64(c)
    ensures b == c
  {
    if b != [] && c != [] {
      Base64Padding(b);
      Base64Padding(c);
      forall k | 0 <= k < |b| ensures b[k] == c[k] {
        SameBlock(b, c, k / 3);
        assert b[k] == BlockAt(b, k / 3)[k % 3] && c[k] == BlockAt(c, k / 3)[k % 3];
      }
    } else {
      BlocksLength(b, Group);
      BlocksLength(c, Group);
    }
  }

  // ---------------------------------------------------------------------
  // The canonical writer
  // ---------------------------------------------------------------------

  /** One call of the writer. `Uint` is a safe integer, written as u64. */
  datatype Field = Prefixed(bytes: Bytes) | Fixed(bytes: Bytes) | Uint(value: nat)

  function FieldBytes(f: Field): (b: Bytes)
  {
    match f
    case Prefixed(bytes) => BigEndian(|bytes|, 4) + bytes
    case Fixed(bytes) => bytes
    case Uint(value) => BigEndian(value, 8)
  }

  function Canonical(fs: seq<Field>): (b: Bytes)
  {
    if fs == [] then [] else FieldBytes(fs[0]) + Canonical(fs[1..])
  }

  /** A domain-separation tag: ASCII, so its UTF-8 is one byte per character. */
  function Tag(s: string): (b: Bytes)
    requires forall i | 0 <= i < |s| :: s[i] as int < 0x80
    ensures |b| == |s|
  {
    seq<byte>(|s|, i requires 0 <= i < |s| => s[i] as int)
  }

  /** The length prefix and the u64 hold the whole value. */
  predicate Fits(f: Field)
  {
    match f
    case Prefixed(bytes) => |bytes| < 0x1_0000_0000
    case Fixed(_) => true
    case Uint(value) => value <= MAX_SAFE_INTEGER
  }

  predicate AllFit(fs: seq<Field>) { forall i | 0 <= i < |fs| :: Fits(fs[i]) }

  predicate SameKind(f: Field, g: Field)
  {
    match (f, g)
    case (Prefixed(_), Prefixed(_)) => true
    case (Fixed(a), Fixed(b)) => |a| == |b|
    case (Uint(_), Uint(_)) => true
    case _ => false
  }

  predicate SameShape(fs: seq<Field>, gs: seq<Field>)
  {
    |fs| == |gs| && forall i | 0 <= i < |fs| :: SameKind(fs[i], gs[i])
  }

  lemma PrefixedCancel(a: Bytes, x: Bytes, b: Bytes, y: Bytes)
    requires |a| < 0x1_0000_0000 && |b| < 0x1_0000_0000
    requires FieldBytes(Prefixed(a)) + x == FieldBytes(Prefixed(b)) + y
    ensures a == b && x == y
  {
    ConcatAssociates(BigEndian(|a|, 4), a, x, BigEndian(|b|, 4), b, y);
    Widths();
    BigEndianInjective(|a|, |b|, 4);
    ConcatCancel(a, x, b, y);
  }

  lemma ConcatAssociates(m: Bytes, a: Bytes, x: Bytes, n: Bytes, b: Bytes, y: Bytes)
    requires |m| == |n| && (m + a) + x == (n + b) + y
    ensures m == n && a + x == b + y
  {
    assert m + (a + x) == (m + a) + x && n + (b + y) == (n + b) + y;
    ConcatCancel(m, a + x, n, b + y);
  }

  lemma UintCancel(v: nat, x: Bytes, w: nat, y: Bytes)
    requires v <= MAX_SAFE_INTEGER && w <= MAX_SAFE_INTEGER
    requires FieldBytes(Uint(v)) + x == FieldBytes(Uint(w)) + y
    ensures v == w && x == y
  {
    ConcatCancel(BigEndian(v, 8), x, BigEndian(w, 8), y);
    Widths();
    BigEndianInjective(v, w, 8);
  }

  lemma FieldCancel(f: Field, x: Bytes, g: Field, y: Bytes)
    requires SameKind(f, g) && Fits(f) && Fits(g)
    requires FieldBytes(f) + x == FieldBytes(g) + y
    ensures f == g && x == y
  {
    match f {
      case Prefixed(a) => PrefixedCancel(a, x, g.bytes, y);
      case Fixed(a) => ConcatCancel(a, x, g.bytes, y);
      case Uint(v) => UintCancel(v, x, g.value, y);
    }
  }

  lemma Regroup(fs: seq<Field>, x: Bytes)
    requires fs != []
    ensures Canonical(fs) + x == FieldBytes(fs[0]) + (Canonical(fs[1..]) + x)
  {
    var head, tail := FieldBytes(fs[0]), Canonical(fs[1..]);
    assert (head + tail) + x == head + (tail + x);
  }

  /**
   Field boundaries cannot move: byte strings that begin with encodings of one
   shape begin with the same fields and continue with the same bytes.
   */
  lemma {:induction false} CanonicalCancel(fs: seq<Field>, x: Bytes, gs: seq<Field>, y: Bytes)
    requires SameShape(fs, gs) && AllFit(fs) && AllFit(gs)
    requires Canonical(fs) + x == Canonical(gs) + y
    ensures fs == gs && x == y
  {
    if fs == [] {
      assert Canonical(fs) + x == x && Canonical(gs) + y == y;
    } else {
      Regroup(fs, x);
      Regroup(gs, y);
      FieldCancel(fs[0], Canonical(fs[1..]) + x, gs[0], Canonical(gs[1..]) + y);
      CanonicalCancel(fs[1..], x, gs[1..], y);
      assert fs == [fs[0]] + fs[1..] && gs == [gs[0]] + gs[1..];
    }
  }

  lemma CanonicalInjective(fs: seq<Field>, gs: seq<Field>)
    requires SameShape(fs, gs) && AllFit(fs) && AllFit(gs)
    requires Canonical(fs) == Canonical(gs)
    ensures fs == gs
  {
    assert Canonical(fs) + [] == Canonical(gs) + [];
    CanonicalCancel(fs, [], gs, []);
  }

  /** Different context tags never give equal bytes, whatever follows them. */
  lemma ContextSeparates(c: Bytes, fs: seq<Field>, d: Bytes, gs: seq<Field>)
    requires c != d && |c| < 0x1_0000_0000 && |d| < 0x1_0000_0000
    ensures Canonical([Prefixed(c)] + fs) != Canonical([Prefixed(d)] + gs)
  {
    assert ([Prefixed(c)] + fs)[1..] == fs && ([Prefixed(d)] + gs)[1..] == gs;
    if FieldBytes(Prefixed(c)) + Canonical(fs) == FieldBytes(Prefixed(d)) + Canonical(gs) {
      FieldCancel(Prefixed(c), Canonical(fs), Prefixed(d), Canonical(gs));
    }
  }

  lemma {:induction false} CanonicalConcat(fs: seq<Field>, gs: seq<Field>)
    ensures Canonical(fs + gs) == Canonical(fs) + Canonical(gs)
  {
    hide FieldBytes;
    if fs == [] {
      assert fs + gs == gs;
    } else {
      CanonicalConcat(fs[1..], gs);
      assert (fs + gs)[1..] == fs[1..] + gs;
      ConcatAssociative(FieldBytes(fs[0]), Canonical(fs[1..]), Canonical(gs));
    }
  }

  lemma ConcatAssociative<T>(a: seq<T>, b: seq<T>, c: seq<T>)
    ensures a + (b + c) == (a + b) + c
  {
  }

  function Flatten(parts: seq<Bytes>): (b: Bytes)
  {
    if parts == [] then [] else Flatten(parts[..|parts| - 1]) + parts[|parts| - 1]
  }

  /** `concatBytes`: one buffer of the total size, filled part by part. */
  method ConcatBytes(parts: seq<Bytes>) returns (out: array<byte>)
    ensures fresh(out) && out[..] == Flatten(parts)
  {
    var total := 0;
    for i := 0 to |parts|
      invariant total == |Flatten(parts[..i])|
    {
      total := total + |parts[i]|;
      assert parts[..i + 1][..i] == parts[..i];
    }
    assert parts[..|parts|] == parts;
    out := new byte[total];
    var offset := 0;
    for i := 0 to |parts|
      invariant offset == |Flatten(parts[..i])| && offset <= total == |Flatten(parts)|
      invariant out[..offset] == Flatten(parts[..i])
    {
      assert parts[..i + 1][..i] == parts[..i];
      PartsFit(parts, i + 1);
      ghost var done := out[..offset];
      forall k | 0 <= k < |parts[i]| {
        out[offset + k] := parts[i][k];
      }
      assert out[..offset] == done;
      offset := offset + |parts[i]|;
      assert out[..offset] == done + parts[i];
    }
    assert out[..] == out[..offset];
  }

  lemma {:induction false} PartsFit(parts: seq<Bytes>, i: nat)
    requires i <= |parts|
    ensures |Flatten(parts[..i])| <= |Flatten(parts)|
  {
    if i == |parts| {
      assert parts[..i] == parts;
    } else {
      PartsFit(parts[..|parts| - 1], i);
      assert parts[..|parts| - 1][..i] == parts[..i];
    }
  }

  lemma FlattenSnoc(parts: seq<Bytes>, b: Bytes)
    ensures Flatten(parts + [b]) == Flatten(parts) + b
  {
    assert (parts + [b])[..|parts|] == parts;
  }

  lemma FlattenTwo(parts: seq<Bytes>, a: Bytes, b: Bytes)
    ensures Flatten(parts + [a, b]) == Flatten(parts) + (a + b)
  {
    hide Flatten;
    FlattenSnoc(parts, a);
    FlattenSnoc(parts + [a], b);
    assert parts + [a, b] == (parts + [a]) + [b];
    assert (Flatten(parts) + a) + b == Flatten(parts) + (a + b);
  }

  lemma CanonicalSnoc(fs: seq<Field>, f: Field)
    ensures Canonical(fs + [f]) == Canonical(fs) + FieldBytes(f)
  {
    CanonicalConcat(fs, [f]);
    assert [f][1..] == [];
  }

  /**
   `CanonicalWriter`: every call appends one field; a refused call appends
   nothing. `fields` records what was written, and the parts are its encoding.
   */
  class CanonicalWriter {
    var parts: seq<Bytes>
    ghost var fields: seq<Field>

    ghost predicate Valid()
      reads this
    {
      Flatten(parts) == Canonical(fields)
    }

    constructor ()
      ensures Valid() && fields == []
    {
      parts, fields := [], [];
    }

    method BytesPrefixed(bytes: Bytes)
      requires Valid()
      modifies this
      ensures Valid() && fields == old(fields) + [Prefixed(bytes)]
    {
      hide Flatten, Canonical;
      var prefix := BigEndian(|bytes|, 4);
      FlattenTwo(parts, prefix, bytes);
      CanonicalSnoc(fields, Prefixed(bytes));
      parts, fields := parts + [prefix, bytes], fields + [Prefixed(bytes)];
    }

    method String(value: JsString)
      requires Valid()
      modifies this
      ensures Valid() && fields == old(fields) + [Prefixed(Utf8(value))]
    {
      BytesPrefixed(Utf8(value));
    }

    method Fixed(bytes: Bytes, length: nat) returns (ok: bool)
      requires Valid()
      modifies this
      ensures Valid() && ok == (|bytes| == length)
      ensures fields == old(fields) + if ok then [Field.Fixed(bytes)] else []
    {
      ok := |bytes| == length;
      if ok {
        FlattenSnoc(parts, bytes);
        CanonicalSnoc(fields, Field.Fixed(bytes));
        parts, fields := parts + [bytes], fields + [Field.Fixed(bytes)];
      }
    }

    method Uint(value: int) returns (ok: bool)
      requires Valid()
      modifies this
      ensures Valid() && ok == (0 <= value <= MAX_SAFE_INTEGER)
      ensures fields == old(fields) + if ok then [Field.Uint(value)] else []
    {
      ok := 0 <= value <= MAX_SAFE_INTEGER;
      if ok {
        FlattenSnoc(parts, BigEndian(value, 8));
        CanonicalSnoc(fields, Field.Uint(value));
        parts, fields := parts + [BigEndian(value, 8)], fields + [Field.Uint(value)];
      }
    }

    method Finish() returns (out: array<byte>)
      requires Valid()
      ensures fresh(out) && out[..] == Canonical(fields)
    {
      out := ConcatBytes(parts);
    }
  }
}
