/** Python's string primitives that the transcriber relies on, with their properties. */
module Strings {

  /** `u` is a prefix of `t`. */
  predicate IsPrefix(u: string, t: string) {
    |u| <= |t| && t[..|u|] == u
  }

  /** `p` occurs somewhere in `s` as a contiguous substring. */
  predicate Occurs(p: string, s: string)
    decreases |s|
  {
    IsPrefix(p, s) || (|s| > 0 && Occurs(p, s[1..]))
  }

  /** Python's `s.replace(pat, rep)` for a non-empty `pat`: the scan goes left to right,
      replaces the leftmost occurrence and resumes after it, so matches never overlap. */
  function Replace(s: string, pat: string, rep: string): string
    requires |pat| > 0
    decreases |s|
  {
    if |s| < |pat| then s
    else if s[..|pat|] == pat then rep + Replace(s[|pat|..], pat, rep)
    else [s[0]] + Replace(s[1..], pat, rep)
  }

  /** Reference definition for a one-character pattern: every `c` becomes `rep`,
      every other character is kept, in order. */
  function Subst(s: string, c: char, rep: string): string
  {
    if s == [] then [] else (if s[0] == c then rep else [s[0]]) + Subst(s[1..], c, rep)
  }

  /** Number of occurrences of `c` in `s`. */
  function Count(c: char, s: string): nat
  {
    if s == [] then 0 else (if s[0] == c then 1 else 0) + Count(c, s[1..])
  }

  /** Python's `s.find(c)` for a single character: the first index of `c`, or -1. */
  function Find(s: string, c: char): (r: int)
    ensures -1 <= r < |s|
    ensures r == -1 <==> c !in s
    ensures r >= 0 ==> s[r] == c && c !in s[..r]
  {
    if s == [] then -1
    else if s[0] == c then 0
    else
      var k := Find(s[1..], c);
      assert s == [s[0]] + s[1..];
      if k == -1 then -1 else k + 1
  }

  /** Python's `''.join(parts)`. */
  function Concat(parts: seq<string>): string
  {
    if parts == [] then [] else Concat(parts[..|parts| - 1]) + parts[|parts| - 1]
  }

  // ---------------------------------------------------------------------------
  // Replacing one character

  /** With a one-character pattern, `Replace` is the per-character substitution. */
  lemma {:induction false} ReplaceSingle(s: string, c: char, rep: string)
    ensures Replace(s, [c], rep) == Subst(s, c, rep)
    decreases |s|
  {
    if s != [] {
      ReplaceSingle(s[1..], c, rep);
      assert s[..1] == [s[0]];
    }
  }

  lemma {:induction false} SubstConcat(a: string, b: string, c: char, rep: string)
    ensures Subst(a + b, c, rep) == Subst(a, c, rep) + Subst(b, c, rep)
    decreases |a|
  {
    if a != [] {
      assert (a + b)[1..] == a[1..] + b;
      SubstConcat(a[1..], b, c, rep);
    } else {
      assert a + b == b;
    }
  }

  /** Each `c` grows into `|rep|` characters; nothing else changes length. */
  lemma {:induction false} SubstLength(s: string, c: char, rep: string)
    ensures |Subst(s, c, rep)| == |s| - Count(c, s) + Count(c, s) * |rep|
    decreases |s|
  {
    if s != [] {
      SubstLength(s[1..], c, rep);
    }
  }

  /** Every character of the result is an original character other than `c`, or comes from `rep`. */
  lemma {:induction false} SubstChars(s: string, c: char, rep: string, x: char)
    requires x in Subst(s, c, rep)
    ensures (x in s && x != c) || x in rep
    decreases |s|
  {
    if s != [] {
      assert Subst(s, c, rep) == (if s[0] == c then rep else [s[0]]) + Subst(s[1..], c, rep);
      if x !in (if s[0] == c then rep else [s[0]]) {
        SubstChars(s[1..], c, rep, x);
      }
    }
  }

  /** Substitution leaves no `c` behind, unless `rep` itself holds one. */
  lemma SubstRemoves(s: string, c: char, rep: string)
    requires c !in rep
    ensures c !in Subst(s, c, rep)
  {
    if c in Subst(s, c, rep) {
      SubstChars(s, c, rep, c);
    }
  }

  /** Substituting one character for one character is a position-by-position map. */
  lemma {:induction false} SubstOneAt(s: string, c: char, a: char, i: nat)
    requires i < |s|
    ensures |Subst(s, c, [a])| == |s|
    ensures Subst(s, c, [a])[i] == if s[i] == c then a else s[i]
    decreases |s|
  {
    SubstLength(s, c, [a]);
    if i > 0 {
      SubstOneAt(s[1..], c, a, i - 1);
    }
  }

  /** A string without `c` is left as it is. */
  lemma {:induction false} SubstAbsent(s: string, c: char, rep: string)
    requires c !in s
    ensures Subst(s, c, rep) == s
    decreases |s|
  {
    if s != [] {
      assert c !in s[1..];
      SubstAbsent(s[1..], c, rep);
    }
  }

  // ---------------------------------------------------------------------------
  // Replacing a pattern by one code character

  /** Replacing by at most one character never lengthens the string. */
  lemma {:induction false} ReplaceNotLonger(s: string, pat: string, rep: string)
    requires |pat| > 0 && |rep| <= 1
    ensures |Replace(s, pat, rep)| <= |s|
    decreases |s|
  {
    if |s| >= |pat| {
      if s[..|pat|] == pat {
        ReplaceNotLonger(s[|pat|..], pat, rep);
      } else {
        ReplaceNotLonger(s[1..], pat, rep);
      }
    }
  }

  /** Every character of the result was in `s` or comes from `rep`. */
  lemma {:induction false} ReplaceChars(s: string, pat: string, rep: string, x: char)
    requires |pat| > 0
    requires x in Replace(s, pat, rep)
    ensures x in s || x in rep
    decreases |s|
  {
    if |s| >= |pat| {
      if s[..|pat|] == pat {
        if x !in rep {
          ReplaceChars(s[|pat|..], pat, rep, x);
          assert s == s[..|pat|] + s[|pat|..];
        }
      } else if x != s[0] {
        ReplaceChars(s[1..], pat, rep, x);
        assert s == [s[0]] + s[1..];
      }
    }
  }

  /** An occurrence needs at least as many characters as the pattern has. */
  lemma {:induction false} OccursNeedsRoom(p: string, s: string)
    ensures Occurs(p, s) ==> |p| <= |s|
    decreases |s|
  {
    if |s| > 0 {
      OccursNeedsRoom(p, s[1..]);
    }
  }

  /** An occurrence inside a suffix is an occurrence in the whole string. */
  lemma {:induction false} OccursInSuffix(p: string, s: string, k: nat)
    requires k <= |s|
    ensures Occurs(p, s[k..]) ==> Occurs(p, s)
    decreases k
  {
    if k > 0 {
      assert s[1..][k - 1..] == s[k..];
      OccursInSuffix(p, s[1..], k - 1);
    }
  }

  /** The second part of a prefix `p + e` of `t` sits in `t` right after the first. */
  lemma PrefixSlice(p: string, e: string, t: string)
    requires IsPrefix(p + e, t)
    ensures |p| + |e| <= |t| && t[|p|..|p| + |e|] == e
  {
    assert t[|p|..|p| + |e|] == (p + e)[|p|..];
  }

  /** The first two characters of a slice are those of the whole at its offset. */
  lemma SliceHead(t: string, o: nat, e: string)
    requires 0 < |e| && o + |e| <= |t| && t[o..o + |e|] == e
    ensures t[o] == e[0] && (|e| >= 2 ==> t[o + 1] == e[1])
  {
    assert t[o..o + |e|][0] == t[o];
  }

  /** A non-empty prefix is its first character followed by a prefix of the rest. */
  lemma PrefixCons(u: string, t: string)
    requires |u| > 0 && |t| > 0
    ensures IsPrefix(u, t) <==> u[0] == t[0] && IsPrefix(u[1..], t[1..])
  {
    if |u| <= |t| {
      assert t[..|u|] == [t[0]] + t[1..][..|u| - 1];
      assert u == [u[0]] + u[1..];
    }
  }

  /** A prefix of the result free of the code character `c` is a prefix of the input:
      the scan copies characters verbatim up to its first replacement. */
  lemma {:induction false} CodeFreePrefix(u: string, t: string, pat: string, c: char)
    requires |pat| > 0
    ensures c !in u && IsPrefix(u, Replace(t, pat, [c])) ==> IsPrefix(u, t)
    decreases |t|
  {
    if u != [] && |t| >= |pat| {
      var r := Replace(t, pat, [c]);
      if t[..|pat|] == pat {
        assert r[0] == c;
      } else {
        CodeFreePrefix(u[1..], t[1..], pat, c);
        assert r == [t[0]] + Replace(t[1..], pat, [c]);
        PrefixCons(u, r);
        PrefixCons(u, t);
      }
    }
  }

  /** One rule uses up its pattern: after replacing every occurrence of `pat` by a code
      character that is not in `pat`, no occurrence of `pat` is left. */
  lemma {:induction false} ReplaceRemovesPattern(s: string, pat: string, c: char)
    requires |pat| > 0 && c !in pat
    ensures !Occurs(pat, Replace(s, pat, [c]))
    decreases |s|
  {
    var r := Replace(s, pat, [c]);
    if |s| < |pat| {
      OccursNeedsRoom(pat, s);
    } else {
      assert c !in pat[1..] by { assert forall x :: x in pat[1..] ==> x in pat; }
      if s[..|pat|] == pat {
        var rest := Replace(s[|pat|..], pat, [c]);
        ReplaceRemovesPattern(s[|pat|..], pat, c);
        assert r == [c] + rest;
        assert r[1..] == rest;
        PrefixCons(pat, r);
      } else {
        var rest := Replace(s[1..], pat, [c]);
        ReplaceRemovesPattern(s[1..], pat, c);
        assert r == [s[0]] + rest;
        assert r[1..] == rest;
        PrefixCons(pat, r);
        PrefixCons(pat, s);
        CodeFreePrefix(pat[1..], s[1..], pat, c);
      }
    }
  }

  /** Later rules never create an earlier rule's pattern: if `p` does not occur in `s` and
      the code character `c` is not in `p`, then `p` does not occur after any replacement by `c`. */
  lemma {:induction false} ReplaceKeepsAbsent(s: string, pat: string, c: char, p: string)
    requires |pat| > 0 && |p| > 0 && c !in p
    ensures !Occurs(p, s) ==> !Occurs(p, Replace(s, pat, [c]))
    decreases |s|
  {
    var r := Replace(s, pat, [c]);
    if |s| >= |pat| {
      assert c !in p[1..] by { assert forall x :: x in p[1..] ==> x in p; }
      if s[..|pat|] == pat {
        var rest := Replace(s[|pat|..], pat, [c]);
        OccursInSuffix(p, s, |pat|);
        ReplaceKeepsAbsent(s[|pat|..], pat, c, p);
        assert r == [c] + rest;
        assert r[1..] == rest;
        PrefixCons(p, r);
      } else {
        var rest := Replace(s[1..], pat, [c]);
        ReplaceKeepsAbsent(s[1..], pat, c, p);
        assert r == [s[0]] + rest;
        assert r[1..] == rest;
        PrefixCons(p, r);
        PrefixCons(p, s);
        CodeFreePrefix(p[1..], s[1..], pat, c);
      }
    }
  }

  /** A character of `s` is a one-letter occurrence in `s`. */
  lemma {:induction false} CharOccurs(x: char, s: string)
    ensures x in s ==> Occurs([x], s)
    decreases |s|
  {
    if s != [] && s[0] != x {
      CharOccurs(x, s[1..]);
    }
  }

  // ---------------------------------------------------------------------------
  // Patterns that are not there

  /** A pattern holding a character the string lacks does not occur in it. */
  lemma {:induction false} MissingCharNotOccurs(p: string, s: string, c: char)
    requires c in p && c !in s
    ensures !Occurs(p, s)
    decreases |s|
  {
    if |s| > 0 {
      assert c !in s[1..] by { assert forall x :: x in s[1..] ==> x in s; }
      MissingCharNotOccurs(p, s[1..], c);
    }
    if |p| <= |s| {
      var i :| 0 <= i < |p| && p[i] == c;
      assert s[..|p|][i] == s[i];
    }
  }

  /** Replacing a pattern that does not occur changes nothing. */
  lemma {:induction false} ReplaceNoOccurrence(s: string, pat: string, rep: string)
    requires |pat| > 0 && !Occurs(pat, s)
    ensures Replace(s, pat, rep) == s
    decreases |s|
  {
    if |s| >= |pat| {
      ReplaceNoOccurrence(s[1..], pat, rep);
      assert s == [s[0]] + s[1..];
    }
  }

  /** A pair `ab` whose `a` is not in the pattern, and whose `b` cannot start it, is never
      touched by a match, so it is still in the result. */
  lemma {:induction false} ReplaceKeepsPair(s: string, pat: string, rep: string, a: char, b: char)
    requires |pat| > 0 && a !in pat && pat[0] != b
    requires Occurs([a, b], s)
    ensures Occurs([a, b], Replace(s, pat, rep))
    decreases |s|
  {
    var r := Replace(s, pat, rep);
    if |s| >= |pat| && s[..|pat|] == pat {
      assert s[0] == pat[0] by { assert s[..|pat|][0] == s[0]; }
      var rest := s[|pat|..];
      assert Occurs([a, b], rest) by {
        OccursFrom([a, b], s, pat);
      }
      ReplaceKeepsPair(rest, pat, rep, a, b);
      OccursInSuffix([a, b], r, |rep|);
      assert r[|rep|..] == Replace(rest, pat, rep);
    } else if IsPrefix([a, b], s) {
      var tail := Replace(s[1..], pat, rep);
      assert |s[1..]| > 0 && s[1..][0] == b;
      ReplaceKeepsHead(s[1..], pat, rep);
      assert r == [s[0]] + tail;
      assert r[..2] == [a, b];
    } else {
      ReplaceKeepsPair(s[1..], pat, rep, a, b);
      OccursInSuffix([a, b], r, 1);
      assert r[1..] == Replace(s[1..], pat, rep);
    }
  }

  /** An occurrence that cannot start inside the prefix `pat` lies in the rest. */
  lemma {:induction false} OccursFrom(u: string, s: string, pat: string)
    requires |pat| <= |s| && s[..|pat|] == pat && |u| > 0 && u[0] !in pat
    requires Occurs(u, s)
    ensures Occurs(u, s[|pat|..])
    decreases |pat|
  {
    if |pat| > 0 {
      assert s[0] == pat[0] by { assert s[..|pat|][0] == s[0]; }
      assert s[1..][..|pat| - 1] == pat[1..];
      assert u[0] !in pat[1..] by { assert forall x :: x in pat[1..] ==> x in pat; }
      OccursFrom(u, s[1..], pat[1..]);
      assert s[1..][|pat| - 1..] == s[|pat|..];
    }
  }

  /** A replacement whose pattern starts with another character keeps the first character. */
  lemma ReplaceKeepsHead(s: string, pat: string, rep: string)
    requires |pat| > 0 && |s| > 0 && s[0] != pat[0]
    ensures |Replace(s, pat, rep)| > 0 && Replace(s, pat, rep)[0] == s[0]
  {
    if |s| >= |pat| {
      assert s[..|pat|][0] != pat[0];
    }
  }

  /** Every character of an occurrence is a character of the string. */
  lemma {:induction false} OccursChars(u: string, s: string, x: char)
    requires Occurs(u, s) && x in u
    ensures x in s
    decreases |s|
  {
    if IsPrefix(u, s) {
      var i :| 0 <= i < |u| && u[i] == x;
      assert s[..|u|][i] == s[i];
    } else {
      OccursChars(u, s[1..], x);
      assert x in s[1..];
      var j :| 0 <= j < |s| - 1 && s[1..][j] == x;
      assert s[j + 1] == x;
    }
  }

  /** Joining one more part appends it. */
  lemma ConcatSnoc(parts: seq<string>, p: string)
    ensures Concat(parts + [p]) == Concat(parts) + p
  {
    assert (parts + [p])[..|parts|] == parts;
  }

  /** A pattern whose first two characters never stand side by side does not occur. */
  lemma {:induction false} NoPairNotOccurs(p: string, s: string)
    requires |p| >= 2
    requires forall i :: 0 <= i < |s| - 1 ==> s[i] != p[0] || s[i + 1] != p[1]
    ensures !Occurs(p, s)
    decreases |s|
  {
    if |s| > 0 {
      NoPairNotOccurs(p, s[1..]);
    }
    if |p| <= |s| {
      assert s[..|p|][0] == s[0] && s[..|p|][1] == s[1];
    }
  }

  // ---------------------------------------------------------------------------
  // Patterns that cannot overlap

  /** Two different patterns of one length that end in the same character, found nowhere
      else in either: an occurrence of one can neither coincide with nor overlap an
      occurrence of the other. */
  predicate NoOverlap(p: string, q: string) {
    && |p| == |q| > 0 && p != q
    && p[|p| - 1] == q[|q| - 1]
    && p[|p| - 1] !in p[..|p| - 1] && q[|q| - 1] !in q[..|q| - 1]
  }

  /** Where `p` starts, no occurrence of `q` starts at any of the positions `p` covers. */
  lemma NoMatchInside(s: string, p: string, q: string)
    requires NoOverlap(p, q) && IsPrefix(p, s)
    ensures forall d :: 0 <= d < |p| ==> !IsPrefix(q, s[d..])
  {
    forall d | 0 <= d < |p|
      ensures !IsPrefix(q, s[d..])
    {
      if d == 0 {
        assert s[d..] == s;
      } else if |q| <= |s| - d {
        var o := |p| - 1 - d;
        assert s[d..][..|q|][o] == s[|p| - 1] == s[..|p|][|p| - 1];
        assert q[..|q| - 1][o] == q[o];
      }
    }
  }

  /** An occurrence that starts at none of the first `m` positions lies in `s[m..]`. */
  lemma {:induction false} OccursAfter(p: string, s: string, m: nat)
    requires m <= |s| && Occurs(p, s)
    requires forall d :: 0 <= d < m ==> !IsPrefix(p, s[d..])
    ensures Occurs(p, s[m..])
    decreases m
  {
    if m > 0 {
      assert s[0..] == s;
      forall d | 0 <= d < m - 1
        ensures !IsPrefix(p, s[1..][d..])
      {
        assert s[1..][d..] == s[d + 1..];
      }
      OccursAfter(p, s[1..], m - 1);
      assert s[1..][m - 1..] == s[m..];
    }
  }

  /** A prefix inside which no match of `pat` starts is copied to the result unchanged. */
  lemma {:induction false} ReplaceKeepsPrefix(s: string, pat: string, rep: string, u: string)
    requires |pat| > 0 && IsPrefix(u, s)
    requires forall d :: 0 <= d < |u| ==> !IsPrefix(pat, s[d..])
    ensures IsPrefix(u, Replace(s, pat, rep))
    decreases |u|
  {
    if |u| > 0 && |s| >= |pat| {
      assert s[0..] == s;
      var r := Replace(s, pat, rep);
      assert r == [s[0]] + Replace(s[1..], pat, rep);
      forall d | 0 <= d < |u| - 1
        ensures !IsPrefix(pat, s[1..][d..])
      {
        assert s[1..][d..] == s[d + 1..];
      }
      PrefixCons(u, s);
      ReplaceKeepsPrefix(s[1..], pat, rep, u[1..]);
      PrefixCons(u, r);
    }
  }

  /** Replacing `pat` keeps every occurrence of a pattern it cannot overlap. */
  lemma {:induction false} ReplaceKeepsOccurrence(s: string, pat: string, rep: string, p: string)
    requires NoOverlap(p, pat) && Occurs(p, s)
    ensures Occurs(p, Replace(s, pat, rep))
    decreases |s|
  {
    var r := Replace(s, pat, rep);
    if IsPrefix(p, s) {
      NoMatchInside(s, p, pat);
      ReplaceKeepsPrefix(s, pat, rep, p);
    } else if |s| >= |pat| && s[..|pat|] == pat {
      NoMatchInside(s, pat, p);
      OccursAfter(p, s, |pat|);
      ReplaceKeepsOccurrence(s[|pat|..], pat, rep, p);
      assert r[|rep|..] == Replace(s[|pat|..], pat, rep);
      OccursInSuffix(p, r, |rep|);
    } else {
      OccursNeedsRoom(p, s);
      ReplaceKeepsOccurrence(s[1..], pat, rep, p);
      assert r[1..] == Replace(s[1..], pat, rep);
      OccursInSuffix(p, r, 1);
    }
  }

  /** Where `pat` occurs, its replacement `c` appears in the result. */
  lemma {:induction false} ReplaceInserts(s: string, pat: string, c: char)
    requires |pat| > 0 && Occurs(pat, s)
    ensures c in Replace(s, pat, [c])
    decreases |s|
  {
    OccursNeedsRoom(pat, s);
    if s[..|pat|] != pat {
      ReplaceInserts(s[1..], pat, c);
    }
  }

  /** A character outside `pat` survives the replacement. */
  lemma {:induction false} ReplaceKeepsChar(s: string, pat: string, rep: string, c: char)
    requires |pat| > 0 && c in s && c !in pat
    ensures c in Replace(s, pat, rep)
    decreases |s|
  {
    if |s| >= |pat| {
      if s[..|pat|] == pat {
        assert s == pat + s[|pat|..];
        ReplaceKeepsChar(s[|pat|..], pat, rep, c);
      } else if s[0] != c {
        assert s == [s[0]] + s[1..];
        ReplaceKeepsChar(s[1..], pat, rep, c);
      }
    }
  }
}
