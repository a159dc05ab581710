/**
 * The string operations the query translator relies on: the longest prefix
 * a regular-expression character class matches, Python's `str.strip()`, and
 * the whitespace normalisation the rebuilder performs.
 */
module Strings {
  import opened CharClasses

  /** Length of the longest prefix of `s` whose characters all satisfy `p`:
      what a greedy `[...]*` matches. */
  function Span(s: string, p: char -> bool): (n: nat)
    ensures n <= |s|
    ensures forall i :: 0 <= i < n ==> p(s[i])
    ensures n < |s| ==> !p(s[n])
  {
    if s != [] && p(s[0]) then 1 + Span(s[1..], p) else 0
  }

  /** The three properties in Span's contract determine it. */
  lemma SpanIs(s: string, p: char -> bool, n: nat)
    requires n <= |s|
    requires forall i :: 0 <= i < n ==> p(s[i])
    requires n < |s| ==> !p(s[n])
    ensures Span(s, p) == n
  {
  }

  lemma SpanAfter(a: string, b: string, p: char -> bool)
    requires forall i :: 0 <= i < |a| ==> p(a[i])
    ensures Span(a + b, p) == |a| + Span(b, p)
  {
    var n := Span(b, p);
    assert forall i :: 0 <= i < |a| + n ==> (a + b)[i] == if i < |a| then a[i] else b[i - |a|];
    SpanIs(a + b, p, |a| + n);
  }

  predicate NoSpace(s: string) {
    forall i :: 0 <= i < |s| ==> !IsSpace(s[i])
  }

  lemma NoSpaceAppend(a: string, b: string)
    requires NoSpace(a) && NoSpace(b)
    ensures NoSpace(a + b)
  {
    assert forall i :: 0 <= i < |a + b| ==> (a + b)[i] == if i < |a| then a[i] else b[i - |a|];
  }

  /** Non-empty, and neither starts nor ends with whitespace. */
  predicate SolidEnds(s: string) {
    s != [] && !IsSpace(s[0]) && !IsSpace(s[|s| - 1])
  }

  /** What the `whitespace` rule `\s+` matches. */
  predicate IsSpaceRun(s: string) {
    |s| > 0 && forall i :: 0 <= i < |s| ==> IsSpace(s[i])
  }

  /** `s.lstrip()`. */
  function StripLeft(s: string): (r: string)
    ensures |r| <= |s| && r == s[|s| - |r|..]
    ensures forall i :: 0 <= i < |s| - |r| ==> IsSpace(s[i])
    ensures r == [] || !IsSpace(r[0])
  {
    s[Span(s, IsSpace)..]
  }

  /** `s.rstrip()`. */
  function StripRight(s: string): (r: string)
    ensures |r| <= |s| && r == s[..|r|]
    ensures forall i :: |r| <= i < |s| ==> IsSpace(s[i])
    ensures r == [] || !IsSpace(r[|r| - 1])
  {
    if s != [] && IsSpace(s[|s| - 1]) then StripRight(s[..|s| - 1]) else s
  }

  /** `r` is the slice of `s` from `i` on, with nothing but whitespace
      before it and after it. */
  predicate TrimmedAt(s: string, r: string, i: nat) {
    && i + |r| <= |s| && r == s[i..i + |r|]
    && (forall k :: 0 <= k < i ==> IsSpace(s[k]))
    && (forall k :: i + |r| <= k < |s| ==> IsSpace(s[k]))
  }

  /** `s.strip()`: the input with its leading and trailing whitespace removed. */
  function Strip(s: string): (r: string)
    ensures exists i :: TrimmedAt(s, r, i)
    ensures r == [] || (!IsSpace(r[0]) && !IsSpace(r[|r| - 1]))
    ensures (s == [] || (!IsSpace(s[0]) && !IsSpace(s[|s| - 1]))) ==> r == s
  {
    var l := StripLeft(s);
    var r := StripRight(l);
    var i := |s| - |l|;
    assert l == s[i..];
    assert r == l[..|r|] && r == s[i..i + |r|];
    assert forall k :: i + |r| <= k < |s| ==> IsSpace(s[k]) by {
      forall k | i + |r| <= k < |s| ensures IsSpace(s[k]) {
        assert s[k] == l[k - i];
      }
    }
    assert TrimmedAt(s, r, i);
    r
  }

  lemma {:induction false} StripIdempotent(s: string)
    ensures Strip(Strip(s)) == Strip(s)
  {
  }

  /** Every maximal run of whitespace in `s` replaced by one space, every
      other character kept. */
  function Collapse(s: string): (r: string)
    ensures |r| <= |s|
    ensures r == [] <==> s == []
    ensures s != [] ==> r[0] == if IsSpace(s[0]) then ' ' else s[0]
    ensures s != [] ==> r[|r| - 1] == if IsSpace(s[|s| - 1]) then ' ' else s[|s| - 1]
    decreases |s|
  {
    if s == [] then []
    else if IsSpace(s[0]) then [' '] + Collapse(s[Span(s, IsSpace)..])
    else [s[0]] + Collapse(s[1..])
  }

  /** Collapsing distributes over a concatenation whose seam is not inside
      a whitespace run. */
  lemma {:induction false} CollapseAppend(a: string, b: string)
    requires a == [] || b == [] || !IsSpace(a[|a| - 1]) || !IsSpace(b[0])
    ensures Collapse(a + b) == Collapse(a) + Collapse(b)
    decreases |a|, 1
  {
    if a == [] {
      assert a + b == b;
    } else if !IsSpace(a[0]) {
      CollapseAppendWord(a, b);
    } else if Span(a, IsSpace) < |a| {
      CollapseAppendSpace(a, b);
    } else if b != [] {
      CollapseAllSpace(a, b);
    } else {
      assert a + b == a;
    }
  }

  lemma {:induction false} CollapseAppendWord(a: string, b: string)
    requires a != [] && !IsSpace(a[0])
    requires b == [] || !IsSpace(a[|a| - 1]) || !IsSpace(b[0])
    ensures Collapse(a + b) == Collapse(a) + Collapse(b)
    decreases |a|, 0
  {
    var t := a[1..];
    calc {
      Collapse(a + b);
    == { assert (a + b)[0] == a[0] && (a + b)[1..] == t + b; CollapseHead(a + b); }
      [a[0]] + Collapse(t + b);
    == { assert t == [] || b == [] || !IsSpace(t[|t| - 1]) || !IsSpace(b[0]); CollapseAppend(t, b); }
      [a[0]] + (Collapse(t) + Collapse(b));
    == { AppendAssoc([a[0]], Collapse(t), Collapse(b)); }
      ([a[0]] + Collapse(t)) + Collapse(b);
    == { CollapseHead(a); }
      Collapse(a) + Collapse(b);
    }
  }

  lemma {:induction false} CollapseAppendSpace(a: string, b: string)
    requires a != [] && IsSpace(a[0]) && Span(a, IsSpace) < |a|
    requires b == [] || !IsSpace(a[|a| - 1]) || !IsSpace(b[0])
    ensures Collapse(a + b) == Collapse(a) + Collapse(b)
    decreases |a|, 0
  {
    var t := a[Span(a, IsSpace)..];
    CollapseSpaceStep(a, b);
    assert t[|t| - 1] == a[|a| - 1];
    CollapseAppend(t, b);
    AppendAssoc([' '], Collapse(t), Collapse(b));
  }

  lemma AppendAssoc(x: string, u: string, v: string)
    ensures x + (u + v) == (x + u) + v
  {
  }

  lemma CollapseHead(s: string)
    requires s != [] && !IsSpace(s[0])
    ensures Collapse(s) == [s[0]] + Collapse(s[1..])
  {
  }

  lemma CollapseSpaceStep(a: string, b: string)
    requires a != [] && IsSpace(a[0]) && Span(a, IsSpace) < |a|
    ensures Collapse(a + b) == [' '] + Collapse(a[Span(a, IsSpace)..] + b)
    ensures Collapse(a) == [' '] + Collapse(a[Span(a, IsSpace)..])
  {
    var n := Span(a, IsSpace);
    assert forall i :: 0 <= i <= n ==> (a + b)[i] == a[i];
    SpanIs(a + b, IsSpace, n);
    assert (a + b)[n..] == a[n..] + b;
  }

  lemma CollapseAllSpace(a: string, b: string)
    requires a != [] && Span(a, IsSpace) == |a|
    requires b != [] && !IsSpace(b[0])
    ensures Collapse(a + b) == Collapse(a) + Collapse(b)
  {
    SpanAfter(a, b, IsSpace);
    assert (a + b)[|a|..] == b;
    assert a[|a|..] == [];
    assert Collapse(a) == [' '];
  }

  lemma CollapseNoSpace(s: string)
    requires NoSpace(s)
    ensures Collapse(s) == s
    decreases |s|
  {
    if s != [] {
      CollapseNoSpace(s[1..]);
    }
  }

  /** Text with solid ends between two space-free strings collapses on its own. */
  lemma CollapseBetween(a: string, w: string, b: string)
    requires NoSpace(a) && NoSpace(b) && SolidEnds(w)
    ensures Collapse(a + w + b) == a + Collapse(w) + b
  {
    AppendAssoc(a, w, b);
    CollapsePrefix(a, w + b);
    CollapseAppend(w, b);
    CollapseNoSpace(b);
    AppendAssoc(a, Collapse(w), b);
  }

  /** A prefix without whitespace is kept as it is. */
  lemma CollapsePrefix(p: string, r: string)
    requires NoSpace(p)
    ensures Collapse(p + r) == p + Collapse(r)
  {
    CollapseAppend(p, r);
    CollapseNoSpace(p);
  }

  /** A whitespace run followed by the end or by a non-space character
      becomes one space. */
  lemma CollapseSpaceRun(w: string, r: string)
    requires IsSpaceRun(w)
    requires r == [] || !IsSpace(r[0])
    ensures Collapse(w + r) == [' '] + Collapse(r)
  {
    var s := w + r;
    assert Span(s, IsSpace) == |w| by {
      assert forall i :: 0 <= i < |w| ==> s[i] == w[i];
      assert |w| < |s| ==> s[|w|] == r[0];
      SpanIs(s, IsSpace, |w|);
    }
    assert s[|w|..] == r;
    assert s != [] && IsSpace(s[0]);
  }

  lemma {:induction false} CollapseIdempotent(s: string)
    ensures Collapse(Collapse(s)) == Collapse(s)
    decreases |s|
  {
    if s == [] {
    } else if !IsSpace(s[0]) {
      CollapseIdempotent(s[1..]);
      CollapsePrefix([s[0]], Collapse(s[1..]));
    } else {
      var rest := s[Span(s, IsSpace)..];
      CollapseIdempotent(rest);
      CollapseSpaceRun([' '], Collapse(rest));
    }
  }

  /** The collapsed string has no two whitespace characters in a row and
      no whitespace character other than the plain space. */
  lemma {:induction false} CollapseShape(s: string)
    ensures forall i :: 0 <= i < |Collapse(s)| && IsSpace(Collapse(s)[i]) ==> Collapse(s)[i] == ' '
    ensures forall i :: 0 <= i < |Collapse(s)| - 1 ==> !(IsSpace(Collapse(s)[i]) && IsSpace(Collapse(s)[i + 1]))
    decreases |s|
  {
    if s == [] {
    } else if !IsSpace(s[0]) {
      CollapseShape(s[1..]);
    } else {
      CollapseShape(s[Span(s, IsSpace)..]);
    }
  }

  /** A class of non-space characters sees the same longest prefix in the
      collapsed string, and what follows it is the collapsed remainder. */
  lemma CollapseSpan(s: string, p: char -> bool)
    requires forall c :: p(c) ==> !IsSpace(c)
    ensures Span(Collapse(s), p) == Span(s, p)
    ensures Collapse(s) == s[..Span(s, p)] + Collapse(s[Span(s, p)..])
  {
    var n := Span(s, p);
    assert s == s[..n] + s[n..];
    CollapsePrefix(s[..n], s[n..]);
    SpanAfter(s[..n], Collapse(s[n..]), p);
    if s[n..] != [] {
      assert !p(Collapse(s[n..])[0]);
    }
  }
}
