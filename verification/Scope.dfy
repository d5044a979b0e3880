/**
 Grant scopes (packages/crypto/src/scope.ts): canonical names, and the order
 "is this name or a subdomain of it". The code compares strings; the meaning is
 about label lists, and this module proves the two agree.
 */
module Scope {
  import opened Text

  const DOT: Unit := 46
  const HYPHEN: Unit := 45
  const MAX_NAME_LENGTH := 253

  predicate IsAlnum(u: Unit) { 97 <= u <= 122 || 48 <= u <= 57 }

  /** Lowercase LDH label of 1 to 63 units, not beginning or ending with a hyphen. */
  predicate IsLabel(l: JsString)
  {
    && 1 <= |l| <= 63
    && IsAlnum(l[0]) && IsAlnum(l[|l| - 1])
    && forall i | 0 <= i < |l| :: IsAlnum(l[i]) || l[i] == HYPHEN
  }

  function Labels(name: JsString): (r: seq<JsString>)
  {
    Split(name, DOT)
  }

  predicate IsValidScope(value: JsString)
  {
    0 < |value| <= MAX_NAME_LENGTH && forall l | l in Labels(value) :: IsLabel(l)
  }

  predicate EndsWith<T(==)>(s: seq<T>, t: seq<T>)
  {
    |t| <= |s| && s[|s| - |t|..] == t
  }

  predicate ScopeCovers(outer: JsString, inner: JsString)
  {
    && IsValidScope(outer) && IsValidScope(inner)
    && (inner == outer || EndsWith(inner, [DOT] + outer))
  }

  lemma {:induction false} JoinConcat<T>(p: seq<seq<T>>, q: seq<seq<T>>, sep: T)
    requires p != [] && q != []
    ensures Join(p + q, sep) == Join(p, sep) + [sep] + Join(q, sep)
  {
    if |p| == 1 {
      assert (p + q)[1..] == q;
    } else {
      JoinConcat(p[1..], q, sep);
      assert (p + q)[1..] == p[1..] + q;
    }
  }

  lemma DotSuffixIsLabelSuffix(outer: JsString, inner: JsString)
    requires EndsWith(inner, [DOT] + outer)
    ensures EndsWith(Labels(inner), Labels(outer))
  {
    hide Split;
    var p := inner[..|inner| - |outer| - 1];
    assert inner == p + ([DOT] + outer) == p + [DOT] + outer;
    SplitAppend(p, outer, DOT);
  }

  lemma LabelSuffixIsDotSuffix(outer: JsString, inner: JsString)
    requires EndsWith(Labels(inner), Labels(outer))
    ensures inner == outer || EndsWith(inner, [DOT] + outer)
  {
    hide Split, Join;
    var k := |Labels(inner)| - |Labels(outer)|;
    var p := Labels(inner)[..k];
    assert Labels(inner) == p + Labels(outer);
    JoinSplit(inner, DOT);
    JoinSplit(outer, DOT);
    if k > 0 {
      JoinConcat(p, Labels(outer), DOT);
      assert inner == Join(p, DOT) + ([DOT] + outer);
    } else {
      assert Labels(inner) == Labels(outer);
    }
  }

  /** The string test is the suffix order on label lists: a boundary is always a dot. */
  lemma CoversIffLabelSuffix(outer: JsString, inner: JsString)
    requires IsValidScope(outer) && IsValidScope(inner)
    ensures ScopeCovers(outer, inner) <==> EndsWith(Labels(inner), Labels(outer))
  {
    hide EndsWith, Labels, IsValidScope;
    if EndsWith(inner, [DOT] + outer) {
      DotSuffixIsLabelSuffix(outer, inner);
    }
    if inner == outer {
      SuffixReflexive(Labels(outer));
    }
    if EndsWith(Labels(inner), Labels(outer)) {
      LabelSuffixIsDotSuffix(outer, inner);
    }
  }

  lemma SuffixReflexive<T>(s: seq<T>)
    ensures EndsWith(s, s)
  {
    assert s[0..] == s;
  }

  lemma SuffixTransitive<T>(a: seq<T>, b: seq<T>, c: seq<T>)
    requires EndsWith(b, a) && EndsWith(c, b)
    ensures EndsWith(c, a)
  {
    assert c[|c| - |a|..] == c[|c| - |b|..][|b| - |a|..];
  }

  lemma SuffixForest<T>(a: seq<T>, b: seq<T>, c: seq<T>)
    requires EndsWith(c, a) && EndsWith(c, b) && |a| <= |b|
    ensures EndsWith(b, a)
  {
    assert c[|c| - |a|..] == c[|c| - |b|..][|b| - |a|..];
  }

  lemma CoversTransitive(a: JsString, b: JsString, c: JsString)
    requires ScopeCovers(a, b) && ScopeCovers(b, c)
    ensures ScopeCovers(a, c)
  {
    hide EndsWith, Labels;
    CoversIffLabelSuffix(a, b);
    CoversIffLabelSuffix(b, c);
    CoversIffLabelSuffix(a, c);
    SuffixTransitive(Labels(a), Labels(b), Labels(c));
  }

  /** Two names that both cover a third are comparable: scopes form a forest. */
  lemma CoversForest(a: JsString, b: JsString, c: JsString)
    requires ScopeCovers(a, c) && ScopeCovers(b, c)
    ensures ScopeCovers(a, b) || ScopeCovers(b, a)
  {
    hide EndsWith, Labels;
    CoversIffLabelSuffix(a, c);
    CoversIffLabelSuffix(b, c);
    CoversIffLabelSuffix(a, b);
    CoversIffLabelSuffix(b, a);
    if |Labels(a)| <= |Labels(b)| {
      SuffixForest(Labels(a), Labels(b), Labels(c));
    } else {
      SuffixForest(Labels(b), Labels(a), Labels(c));
    }
  }

  lemma {:induction false} JoinAscii(parts: seq<JsString>, sep: Unit)
    requires sep < 0x80 && forall p | p in parts :: IsAscii(p)
    ensures IsAscii(Join(parts, sep))
  {
    if parts != [] {
      assert IsAscii(parts[0]);
      JoinAscii(parts[1..], sep);
    }
  }

  /** Every canonical name is ASCII, so its UTF-8 is its own units. */
  lemma ScopeAscii(s: JsString)
    requires IsValidScope(s)
    ensures IsAscii(s)
  {
    JoinSplit(s, DOT);
    JoinAscii(Labels(s), DOT);
  }
}
