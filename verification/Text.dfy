/**
 JavaScript text: strings are sequences of 16-bit code units, which need not be
 well-formed UTF-16. `Utf8` is what `TextEncoder.encode` produces; it replaces
 every lone surrogate by U+FFFD, so it is not injective on all strings. This
 module proves exactly where it is.
 */
module Text {
  import opened Bytes

  type Unit = x: int | 0 <= x < 0x1_0000
  type JsString = seq<Unit>

  /** A Unicode scalar value: a code point that is not a surrogate. */
  type Scalar = x: int | 0 <= x < 0xD800 || 0xE000 <= x < 0x11_0000

  const REPLACEMENT: Scalar := 0xFFFD

  const COMMA: Unit := 44

  predicate IsHigh(u: Unit) { 0xD800 <= u < 0xDC00 }
  predicate IsLow(u: Unit) { 0xDC00 <= u < 0xE000 }

  /** Source literals used in the formats are all ASCII. */
  function Ascii(s: string): (r: JsString)
    requires forall i | 0 <= i < |s| :: s[i] as int < 0x80
    ensures |r| == |s| && IsAscii(r)
  {
    seq<Unit>(|s|, i requires 0 <= i < |s| => s[i] as int)
  }

  predicate IsAscii(s: JsString) { forall i | 0 <= i < |s| :: s[i] < 0x80 }

  // ---------------------------------------------------------------------
  // UTF-16 to scalar values
  // ---------------------------------------------------------------------

  function Scalars(s: JsString): (r: seq<Scalar>)
  {
    if s == [] then []
    else if IsHigh(s[0]) && |s| > 1 && IsLow(s[1]) then
      [0x1_0000 + (s[0] - 0xD800) * 0x400 + (s[1] - 0xDC00)] + Scalars(s[2..])
    else if IsHigh(s[0]) || IsLow(s[0]) then [REPLACEMENT] + Scalars(s[1..])
    else [s[0]] + Scalars(s[1..])
  }

  /** Every surrogate is half of a pair. */
  predicate WellFormed(s: JsString)
  {
    if s == [] then true
    else if IsHigh(s[0]) then |s| > 1 && IsLow(s[1]) && WellFormed(s[2..])
    else !IsLow(s[0]) && WellFormed(s[1..])
  }

  function UnitsOf(c: Scalar): (r: JsString)
    ensures 1 <= |r| <= 2
  {
    if c < 0x1_0000 then [c]
    else [0xD800 + (c - 0x1_0000) / 0x400, 0xDC00 + (c - 0x1_0000) % 0x400]
  }

  function Units(cs: seq<Scalar>): (r: JsString)
  {
    if cs == [] then [] else UnitsOf(cs[0]) + Units(cs[1..])
  }

  /** The scalar values of a well-formed string determine it. */
  lemma {:induction false} UnitsOfScalars(s: JsString)
    requires WellFormed(s)
    ensures Units(Scalars(s)) == s
  {
    if s == [] {
    } else if IsHigh(s[0]) {
      UnitsOfScalars(s[2..]);
      assert s == s[..2] + s[2..];
      assert UnitsOf(Scalars(s)[0]) == s[..2];
      assert Scalars(s)[1..] == Scalars(s[2..]);
    } else {
      UnitsOfScalars(s[1..]);
      assert s == s[..1] + s[1..];
      assert Scalars(s)[1..] == Scalars(s[1..]);
    }
  }

  /** Re-spelling scalar values gives a well-formed string with those values. */
  lemma {:induction false} ScalarsOfUnits(cs: seq<Scalar>)
    ensures WellFormed(Units(cs))
    ensures Scalars(Units(cs)) == cs
  {
    if cs != [] {
      ScalarsOfUnits(cs[1..]);
      var head, tail := UnitsOf(cs[0]), Units(cs[1..]);
      assert (head + tail)[|head|..] == tail;
      assert cs == [cs[0]] + cs[1..];
    }
  }

  // ---------------------------------------------------------------------
  // Scalar values to UTF-8
  // ---------------------------------------------------------------------

  function EncodeScalar(c: Scalar): (b: Bytes)
    ensures 1 <= |b| <= 4
    ensures !IsContinuation(b[0])
    ensures forall i | 1 <= i < |b| :: IsContinuation(b[i])
  {
    if c < 0x80 then [c]
    else if c < 0x800 then [0xC0 + c / 0x40, 0x80 + c % 0x40]
    else if c < 0x1_0000 then [0xE0 + c / 0x1000, 0x80 + c / 0x40 % 0x40, 0x80 + c % 0x40]
    else [0xF0 + c / 0x4_0000, 0x80 + c / 0x1000 % 0x40, 0x80 + c / 0x40 % 0x40, 0x80 + c % 0x40]
  }

  /** `0b10xxxxxx` */
  predicate IsContinuation(b: byte) { b / 0x40 == 2 }

  function EncodeScalars(cs: seq<Scalar>): (b: Bytes)
  {
    if cs == [] then [] else EncodeScalar(cs[0]) + EncodeScalars(cs[1..])
  }

  function Utf8(s: JsString): (b: Bytes) { EncodeScalars(Scalars(s)) }

  /** The code of one scalar value can be read off the front of any byte string. */
  function DecodeFirst(b: Bytes): (c: int)
    requires b != []
  {
    var at := (i: nat) => if i < |b| then b[i] as int else 0;
    if at(0) < 0x80 then at(0)
    else if at(0) < 0xE0 then (at(0) - 0xC0) * 0x40 + (at(1) - 0x80)
    else if at(0) < 0xF0 then (at(0) - 0xE0) * 0x1000 + (at(1) - 0x80) * 0x40 + (at(2) - 0x80)
    else (at(0) - 0xF0) * 0x4_0000 + (at(1) - 0x80) * 0x1000 + (at(2) - 0x80) * 0x40 + (at(3) - 0x80)
  }

  lemma DecodeFirstInverts(c: Scalar, rest: Bytes)
    ensures DecodeFirst(EncodeScalar(c) + rest) == c
  {
    var b := EncodeScalar(c) + rest;
    assert forall i | 0 <= i < |EncodeScalar(c)| :: b[i] == EncodeScalar(c)[i];
    assert c / 0x40 / 0x40 == c / 0x1000;
    assert c / 0x1000 / 0x40 == c / 0x4_0000;
  }

  lemma {:induction false} EncodeScalarsInjective(cs: seq<Scalar>, ds: seq<Scalar>)
    requires EncodeScalars(cs) == EncodeScalars(ds)
    ensures cs == ds
  {
    if cs == [] || ds == [] {
    } else {
      DecodeFirstInverts(cs[0], EncodeScalars(cs[1..]));
      DecodeFirstInverts(ds[0], EncodeScalars(ds[1..]));
      ConcatCancel(EncodeScalar(cs[0]), EncodeScalars(cs[1..]), EncodeScalar(ds[0]), EncodeScalars(ds[1..]));
      EncodeScalarsInjective(cs[1..], ds[1..]);
      assert cs == [cs[0]] + cs[1..] && ds == [ds[0]] + ds[1..];
    }
  }

  /** Two strings have one encoding exactly when they agree up to replacement of lone surrogates. */
  lemma Utf8Equal(s: JsString, t: JsString)
    ensures Utf8(s) == Utf8(t) <==> Scalars(s) == Scalars(t)
  {
    if Utf8(s) == Utf8(t) {
      EncodeScalarsInjective(Scalars(s), Scalars(t));
    }
  }

  lemma Utf8Injective(s: JsString, t: JsString)
    requires WellFormed(s) && WellFormed(t)
    requires Utf8(s) == Utf8(t)
    ensures s == t
  {
    Utf8Equal(s, t);
    UnitsOfScalars(s);
    UnitsOfScalars(t);
  }

  ghost predicate OnlySpelling(s: JsString)
  {
    forall t: JsString :: Utf8(t) == Utf8(s) ==> t == s
  }

  /**
   A string is the only one with its bytes exactly when U+FFFD is not among its
   scalar values, that is, when it has no lone surrogate and no literal U+FFFD.
   */
  lemma OnlySpellingIff(s: JsString)
    ensures OnlySpelling(s) <==> REPLACEMENT !in Scalars(s)
  {
    if REPLACEMENT !in Scalars(s) {
      forall t: JsString | Utf8(t) == Utf8(s)
        ensures t == s
      {
        Utf8Equal(t, s);
        NoReplacementWellFormed(t);
        NoReplacementWellFormed(s);
        Utf8Injective(t, s);
      }
    } else {
      var t := Respell(s);
      assert Utf8(t) == Utf8(s) && t != s;
    }
  }

  lemma {:induction false} NoReplacementWellFormed(s: JsString)
    requires REPLACEMENT !in Scalars(s)
    ensures WellFormed(s)
  {
    if s == [] {
    } else if IsHigh(s[0]) && |s| > 1 && IsLow(s[1]) {
      NoReplacementWellFormed(s[2..]);
    } else {
      assert REPLACEMENT in [REPLACEMENT] + Scalars(s[1..]);
      NoReplacementWellFormed(s[1..]);
    }
  }

  /** Another string with the same bytes: a lone surrogate and U+FFFD change places. */
  lemma {:induction false} Respell(s: JsString) returns (t: JsString)
    requires REPLACEMENT in Scalars(s)
    ensures t != s && Scalars(t) == Scalars(s)
  {
    if IsHigh(s[0]) && |s| > 1 && IsLow(s[1]) {
      var tail := Respell(s[2..]);
      t := s[..2] + tail;
      assert t[2..] == tail && s == s[..2] + s[2..];
    } else if IsHigh(s[0]) || IsLow(s[0]) {
      t := [REPLACEMENT] + s[1..];
      assert t[1..] == s[1..];
    } else if s[0] == REPLACEMENT {
      // A lone LOW surrogate: it cannot pair with whatever follows.
      t := [0xDC00] + s[1..];
      assert t[1..] == s[1..];
    } else {
      var tail := Respell(s[1..]);
      t := [s[0]] + tail;
      assert t[1..] == tail && s == [s[0]] + s[1..];
    }
  }

  lemma {:induction false} AsciiUtf8(s: JsString)
    requires IsAscii(s)
    ensures WellFormed(s)
    ensures |Utf8(s)| == |s| && forall i | 0 <= i < |s| :: Utf8(s)[i] == s[i]
  {
    if s != [] {
      assert IsAscii(s[1..]);
      AsciiUtf8(s[1..]);
      assert Scalars(s)[1..] == Scalars(s[1..]);
      assert Utf8(s) == [s[0]] + Utf8(s[1..]);
    }
  }

  /** A string of n units never needs more than 3n bytes. */
  lemma {:induction false} Utf8Length(s: JsString)
    ensures |Utf8(s)| <= 3 * |s|
  {
    if s == [] {
    } else if IsHigh(s[0]) && |s| > 1 && IsLow(s[1]) {
      Utf8Length(s[2..]);
      assert Scalars(s)[1..] == Scalars(s[2..]);
    } else {
      Utf8Length(s[1..]);
      assert Scalars(s)[1..] == Scalars(s[1..]);
    }
  }

  // ---------------------------------------------------------------------
  // Truncation on a character boundary (packages/protocol/src/frame.ts)
  // ---------------------------------------------------------------------

  /** `p` is where the encoding of some prefix of `cs` ends. */
  ghost predicate IsBoundary(cs: seq<Scalar>, p: nat)
  {
    exists k | 0 <= k <= |cs| :: |EncodeScalars(cs[..k])| == p
  }

  lemma {:induction false} PrefixEncoding(cs: seq<Scalar>, k: nat)
    requires k <= |cs|
    ensures EncodeScalars(cs) == EncodeScalars(cs[..k]) + EncodeScalars(cs[k..])
  {
    if k > 0 {
      PrefixEncoding(cs[1..], k - 1);
      assert cs[..k][1..] == cs[1..][..k - 1];
      assert cs[1..][k - 1..] == cs[k..];
    } else {
      assert cs[0..] == cs;
    }
  }

  lemma BoundaryCons(cs: seq<Scalar>, p: nat)
    requires cs != []
    ensures IsBoundary(cs, p) <==>
            p == 0 || (p >= |EncodeScalar(cs[0])| && IsBoundary(cs[1..], p - |EncodeScalar(cs[0])|))
  {
    var w := |EncodeScalar(cs[0])|;
    if IsBoundary(cs, p) && p > 0 {
      var k :| 0 <= k <= |cs| && |EncodeScalars(cs[..k])| == p;
      assert cs[..k][1..] == cs[1..][..k - 1];
      assert |EncodeScalars(cs[1..][..k - 1])| == p - w;
    }
    if p == 0 {
      assert |EncodeScalars(cs[..0])| == p;
    }
    if p >= w && IsBoundary(cs[1..], p - w) {
      var k :| 0 <= k <= |cs[1..]| && |EncodeScalars(cs[1..][..k])| == p - w;
      assert cs[..k + 1][1..] == cs[1..][..k];
      assert |EncodeScalars(cs[..k + 1])| == p;
    }
  }

  /** The byte test of the truncation loop recognises exactly the character boundaries. */
  lemma {:induction false} BoundaryByByte(cs: seq<Scalar>, p: nat)
    requires p < |EncodeScalars(cs)|
    ensures IsBoundary(cs, p) <==> !IsContinuation(EncodeScalars(cs)[p])
  {
    BoundaryCons(cs, p);
    var head := EncodeScalar(cs[0]);
    if p >= |head| {
      BoundaryByByte(cs[1..], p - |head|);
      assert EncodeScalars(cs)[p] == EncodeScalars(cs[1..])[p - |head|];
    } else {
      assert EncodeScalars(cs)[p] == head[p];
    }
  }

  /**
   `truncateUtf8`: the longest prefix of the encoding that holds at most
   `maxBytes` bytes and ends on a character boundary.
   */
  method TruncateUtf8(value: JsString, maxBytes: nat) returns (r: Bytes)
    ensures r <= Utf8(value) && |r| <= maxBytes
    ensures IsBoundary(Scalars(value), |r|)
    ensures forall p: nat | |r| < p <= maxBytes && p <= |Utf8(value)| :: !IsBoundary(Scalars(value), p)
  {
    var encoded := Utf8(value);
    ghost var cs := Scalars(value);
    if |encoded| <= maxBytes {
      assert cs[..|cs|] == cs;
      return encoded;
    }
    var end: nat := maxBytes;
    while end > 0 && IsContinuation(encoded[end])
      invariant 0 <= end <= maxBytes
      invariant forall p: nat | end < p <= maxBytes :: !IsBoundary(cs, p)
    {
      BoundaryByByte(cs, end);
      end := end - 1;
    }
    BoundaryByByte(cs, end);
    if end == 0 {
      assert |EncodeScalars(cs[..0])| == 0;
    }
    r := encoded[..end];
  }

  // ---------------------------------------------------------------------
  // split and join
  // ---------------------------------------------------------------------

  function Split<T(==)>(s: seq<T>, sep: T): (parts: seq<seq<T>>)
    ensures |parts| >= 1
  {
    if s == [] then [[]]
    else
      var rest := Split(s[1..], sep);
      if s[0] == sep then [[]] + rest else [[s[0]] + rest[0]] + rest[1..]
  }

  function Join<T>(parts: seq<seq<T>>, sep: T): (s: seq<T>)
  {
    if |parts| == 0 then []
    else if |parts| == 1 then parts[0]
    else parts[0] + [sep] + Join(parts[1..], sep)
  }

  lemma {:induction false} JoinSplit<T>(s: seq<T>, sep: T)
    ensures Join(Split(s, sep), sep) == s
  {
    if s != [] {
      JoinSplit(s[1..], sep);
      var rest := Split(s[1..], sep);
      var parts := Split(s, sep);
      assert s == [s[0]] + s[1..];
      if s[0] == sep {
        assert parts[1..] == rest;
      } else if |rest| == 1 {
      } else {
        assert parts[1..] == rest[1..];
        assert Join(parts, sep) == [s[0]] + (rest[0] + [sep] + Join(rest[1..], sep));
      }
    }
  }

  lemma {:induction false} SplitWhole<T>(s: seq<T>, sep: T)
    requires sep !in s
    ensures Split(s, sep) == [s]
  {
    if s != [] {
      SplitWhole(s[1..], sep);
      assert s == [s[0]] + s[1..];
    }
  }

  /** How one more element at the front changes the parts. */
  function Prepend<T(==)>(x: T, parts: seq<seq<T>>, sep: T): (r: seq<seq<T>>)
    requires |parts| >= 1
  {
    if x == sep then [[]] + parts else [[x] + parts[0]] + parts[1..]
  }

  lemma SplitCons<T>(x: T, s: seq<T>, sep: T)
    ensures Split([x] + s, sep) == Prepend(x, Split(s, sep), sep)
  {
    assert ([x] + s)[1..] == s;
  }

  lemma PrependConcat<T>(x: T, p: seq<seq<T>>, q: seq<seq<T>>, sep: T)
    requires |p| >= 1
    ensures Prepend(x, p + q, sep) == Prepend(x, p, sep) + q
  {
    assert (p + q)[0] == p[0] && (p + q)[1..] == p[1..] + q;
  }

  lemma {:induction false} SplitAppend<T>(a: seq<T>, b: seq<T>, sep: T)
    ensures Split(a + [sep] + b, sep) == Split(a, sep) + Split(b, sep)
  {
    if a == [] {
      assert a + [sep] + b == [sep] + b;
      SplitCons(sep, b, sep);
    } else {
      var x, t := a[0], a[1..];
      SplitAppend(t, b, sep);
      assert a == [x] + t && a + [sep] + b == [x] + (t + [sep] + b);
      SplitCons(x, t, sep);
      SplitCons(x, t + [sep] + b, sep);
      PrependConcat(x, Split(t, sep), Split(b, sep), sep);
    }
  }

  /** Joining is undone by splitting when no part contains the separator. */
  lemma {:induction false} SplitJoin<T>(parts: seq<seq<T>>, sep: T)
    requires parts != [] && forall p | p in parts :: sep !in p
    ensures Split(Join(parts, sep), sep) == parts
  {
    SplitWhole(parts[0], sep);
    if |parts| > 1 {
      SplitJoin(parts[1..], sep);
      SplitAppend(parts[0], Join(parts[1..], sep), sep);
      assert parts == [parts[0]] + parts[1..];
    }
  }

  // ---------------------------------------------------------------------
  // The default sort order
  // ---------------------------------------------------------------------

  /** `<` on strings, and the order `sort()` uses: by code unit. */
  predicate Before(a: JsString, b: JsString)
  {
    b != [] && (a == [] || a[0] < b[0] || (a[0] == b[0] && Before(a[1..], b[1..])))
  }

  lemma {:induction false} BeforeTransitive(a: JsString, b: JsString, c: JsString)
    requires Before(a, b) && Before(b, c)
    ensures Before(a, c)
  {
    if a != [] && a[0] == b[0] == c[0] {
      BeforeTransitive(a[1..], b[1..], c[1..]);
    }
  }

  lemma {:induction false} BeforeTotal(a: JsString, b: JsString)
    ensures Before(a, b) || a == b || Before(b, a)
    ensures !(Before(a, b) && Before(b, a))
  {
    if a != [] && b != [] {
      assert a == [a[0]] + a[1..] && b == [b[0]] + b[1..];
      BeforeTotal(a[1..], b[1..]);
    }
  }

  predicate Sorted(s: seq<JsString>)
  {
    forall i, j | 0 <= i < j < |s| :: Before(s[i], s[j])
  }

  /** A strictly sorted list is determined by its members. */
  lemma {:induction false} SortedUnique(s: seq<JsString>, t: seq<JsString>)
    requires Sorted(s) && Sorted(t) && (forall x :: x in s <==> x in t)
    ensures s == t
  {
    assert (s != [] ==> s[0] in s) && (t != [] ==> t[0] in t);
    if s != [] && t != [] {
      BeforeTotal(s[0], t[0]);
      assert s[0] == t[0];
      forall x ensures x in s[1..] <==> x in t[1..] {
        BeforeTotal(s[0], s[0]);
        if x in s[1..] {
          assert x in s && x != s[0];
        }
        if x in t[1..] {
          assert x in t && x != t[0];
        }
      }
      SortedUnique(s[1..], t[1..]);
      assert s == [s[0]] + s[1..] && t == [t[0]] + t[1..];
    }
  }

  method Insert(s: seq<JsString>, x: JsString) returns (r: seq<JsString>)
    requires Sorted(s) && x !in s
    ensures Sorted(r) && |r| == |s| + 1 && forall y :: y in r <==> y == x || y in s
  {
    var i := 0;
    while i < |s| && Before(s[i], x)
      invariant 0 <= i <= |s|
      invariant forall j | 0 <= j < i :: Before(s[j], x)
    {
      i := i + 1;
    }
    r := s[..i] + [x] + s[i..];
    forall j | i <= j < |s| ensures Before(x, s[j]) {
      BeforeTotal(s[i], x);
      if i < j {
        BeforeTransitive(x, s[i], s[j]);
      }
    }
    forall y ensures y in r <==> y == x || y in s {
      assert s == s[..i] + s[i..];
    }
  }

  /** `[...keys].sort()` on the keys of a map. */
  method SortKeys(keys: set<JsString>) returns (r: seq<JsString>)
    ensures Sorted(r) && forall x :: x in r <==> x in keys
  {
    var rest := keys;
    r := [];
    while rest != {}
      invariant Sorted(r) && rest <= keys
      invariant forall x :: x in r <==> x in keys - rest
      decreases |rest|
    {
      var x :| x in rest;
      r := Insert(r, x);
      rest := rest - {x};
    }
  }
}
