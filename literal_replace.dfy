/** Global replacement of a literal pattern, as `Pattern.compile(p, Pattern.LITERAL)`
    followed by `Matcher.replaceAll` performs it: the string is scanned from left to
    right and every occurrence found is replaced, the scan resuming after it, so that
    the occurrences replaced never overlap. */
module LiteralReplace {
  import opened CodeUnits

  /** `p` occurs in `s` starting at index `i`. */
  predicate MatchAt(s: seq<CodeUnit>, p: seq<CodeUnit>, i: int) {
    0 <= i && i + |p| <= |s| && s[i..i + |p|] == p
  }

  /** `p` occurs somewhere in `s`. */
  predicate Occurs(s: seq<CodeUnit>, p: seq<CodeUnit>) {
    exists i | 0 <= i <= |s| :: MatchAt(s, p, i)
  }

  /** No proper suffix of `p` is also a prefix of `p`, so two occurrences of `p`
      can never overlap. */
  predicate NoSelfOverlap(p: seq<CodeUnit>) {
    forall k :: 0 < k < |p| ==> p[k..] != p[..|p| - k]
  }

  /** `s` with every occurrence of `p` found by a left-to-right scan replaced by `r`. */
  function ReplaceAll(s: seq<CodeUnit>, p: seq<CodeUnit>, r: CodeUnit): (res: seq<CodeUnit>)
    requires p != []
    ensures |res| <= |s|
    ensures AllAscii(s) && r <= 0x7F ==> AllAscii(res)
    decreases |s|
  {
    if |s| < |p| then s
    else if s[..|p|] == p then [r] + ReplaceAll(s[|p|..], p, r)
    else [s[0]] + ReplaceAll(s[1..], p, r)
  }

  /** The number of indices at which `p` occurs in `s` (overlapping ones included). */
  function Count(s: seq<CodeUnit>, p: seq<CodeUnit>): nat
    requires p != []
    decreases |s|
  {
    if |s| < |p| then 0 else (if s[..|p|] == p then 1 else 0) + Count(s[1..], p)
  }

  /** Every occurrence of `r` in `t` put back as `p`: the reverse of a replacement. */
  function Expand(t: seq<CodeUnit>, r: CodeUnit, p: seq<CodeUnit>): seq<CodeUnit>
  {
    if t == [] then [] else (if t[0] == r then p else [t[0]]) + Expand(t[1..], r, p)
  }

  // ---------------------------------------------------------------------------
  // Unfolding steps

  lemma MatchShift(s: seq<CodeUnit>, p: seq<CodeUnit>, k: int, i: int)
    requires 0 <= k <= |s| && 0 <= i
    ensures MatchAt(s[k..], p, i) <==> MatchAt(s, p, i + k)
  {
    if i + |p| <= |s| - k {
      assert s[k..][i..i + |p|] == s[i + k..i + k + |p|];
    }
  }

  /** Where no occurrence starts at the front, the first code unit is kept. */
  lemma ReplaceAllSkip(s: seq<CodeUnit>, p: seq<CodeUnit>, r: CodeUnit)
    requires p != [] && s != [] && !MatchAt(s, p, 0)
    ensures ReplaceAll(s, p, r) == [s[0]] + ReplaceAll(s[1..], p, r)
  {
    if |s| >= |p| {
      assert s[..|p|] == s[0..|p|];
    }
  }

  /** An occurrence at the front becomes `r`. */
  lemma ReplaceAllMatch(p: seq<CodeUnit>, t: seq<CodeUnit>, r: CodeUnit)
    requires p != []
    ensures ReplaceAll(p + t, p, r) == [r] + ReplaceAll(t, p, r)
  {
    assert (p + t)[..|p|] == p;
    assert (p + t)[|p|..] == t;
  }

  /** A prefix free of the pattern's first code unit passes through unchanged. */
  lemma {:induction false} ReplaceAllPrefix(u: seq<CodeUnit>, t: seq<CodeUnit>, p: seq<CodeUnit>, r: CodeUnit)
    requires p != [] && p[0] !in u
    ensures ReplaceAll(u + t, p, r) == u + ReplaceAll(t, p, r)
  {
    if u != [] {
      var rest := ReplaceAll(t, p, r);
      assert (u + t)[0] == u[0] && u[0] in u;
      ReplaceAllSkip(u + t, p, r);
      assert (u + t)[1..] == u[1..] + t;
      ReplaceAllPrefix(u[1..], t, p, r);
      assert ReplaceAll(u + t, p, r) == [u[0]] + (u[1..] + rest);
      assert [u[0]] + (u[1..] + rest) == u + rest;
    } else {
      assert u + t == t;
    }
  }

  // ---------------------------------------------------------------------------
  // Properties of a single replacement

  lemma {:induction false} NoOccurrenceUnchanged(s: seq<CodeUnit>, p: seq<CodeUnit>, r: CodeUnit)
    requires p != [] && !Occurs(s, p)
    ensures ReplaceAll(s, p, r) == s
  {
    if s != [] {
      assert !MatchAt(s, p, 0);
      forall i ensures !MatchAt(s[1..], p, i) {
        if i >= 0 { MatchShift(s, p, 1, i); }
      }
      ReplaceAllSkip(s, p, r);
      NoOccurrenceUnchanged(s[1..], p, r);
    }
  }

  lemma {:induction false} OccurrenceShortens(s: seq<CodeUnit>, p: seq<CodeUnit>, r: CodeUnit)
    requires |p| >= 2 && Occurs(s, p)
    ensures |ReplaceAll(s, p, r)| < |s|
  {
    var i :| 0 <= i <= |s| && MatchAt(s, p, i);
    if !MatchAt(s, p, 0) {
      assert i >= 1;
      MatchShift(s, p, 1, i - 1);
      ReplaceAllSkip(s, p, r);
      OccurrenceShortens(s[1..], p, r);
    } else {
      assert s[..|p|] == s[0..|p|];
    }
  }

  /** A replacement changes the string exactly when the pattern (of two or more code
      units) occurs in it. */
  lemma ReplaceAllIdentity(s: seq<CodeUnit>, p: seq<CodeUnit>, r: CodeUnit)
    requires |p| >= 2
    ensures ReplaceAll(s, p, r) == s <==> !Occurs(s, p)
  {
    if Occurs(s, p) {
      OccurrenceShortens(s, p, r);
    } else {
      NoOccurrenceUnchanged(s, p, r);
    }
  }

  /** If the result begins with `q` and `q` does not contain `r`, the input began with
      `q` too: the replacement joins nothing that was not already adjacent. */
  lemma {:induction false} PrefixPreserved(t: seq<CodeUnit>, p: seq<CodeUnit>, r: CodeUnit, q: seq<CodeUnit>)
    requires p != []
    ensures |q| <= |ReplaceAll(t, p, r)| && ReplaceAll(t, p, r)[..|q|] == q ==>
              r in q || (|q| <= |t| && t[..|q|] == q)
  {
    var res := ReplaceAll(t, p, r);
    if |t| >= |p| && q != [] {
      if t[..|p|] == p {
        assert res[0] == r;
      } else {
        var rest := ReplaceAll(t[1..], p, r);
        assert res == [t[0]] + rest;
        PrefixPreserved(t[1..], p, r, q[1..]);
        if |q| <= |res| && res[..|q|] == q {
          assert rest[..|q| - 1] == q[1..];
          assert r in q[1..] ==> r in q;
          assert |q| <= |t| ==> t[..|q|] == [t[0]] + t[1..][..|q| - 1];
        }
      }
    }
  }

  /** After a replacement the pattern no longer occurs, provided the replacement code
      unit is not itself part of the pattern. */
  lemma {:induction false} ReplaceAllRemovesAll(s: seq<CodeUnit>, p: seq<CodeUnit>, r: CodeUnit)
    requires p != [] && r !in p
    ensures !Occurs(ReplaceAll(s, p, r), p)
  {
    var res := ReplaceAll(s, p, r);
    if |s| >= |p| {
      if s[..|p|] == p {
        var rest := ReplaceAll(s[|p|..], p, r);
        assert res == [r] + rest;
        ReplaceAllRemovesAll(s[|p|..], p, r);
        forall i ensures !MatchAt(res, p, i) {
          if i >= 1 {
            MatchShift(res, p, 1, i - 1);
            assert res[1..] == rest;
          } else if i == 0 && |p| <= |res| {
            assert res[..|p|][0] == r;
          }
        }
      } else {
        var rest := ReplaceAll(s[1..], p, r);
        assert res == [s[0]] + rest;
        ReplaceAllRemovesAll(s[1..], p, r);
        PrefixPreserved(s[1..], p, r, p[1..]);
        forall i ensures !MatchAt(res, p, i) {
          if i >= 1 {
            MatchShift(res, p, 1, i - 1);
            assert res[1..] == rest;
          } else if i == 0 && |p| <= |res| {
            assert res[..|p|] == [s[0]] + rest[..|p| - 1];
            assert r in p[1..] ==> r in p;
            assert |p| - 1 <= |s[1..]| ==> s[..|p|] == [s[0]] + s[1..][..|p| - 1];
          }
        }
      }
    }
  }

  /** A replacement whose code unit `r` is not part of `q` creates no new occurrence
      of `q`. */
  lemma {:induction false} ReplaceAllKeepsAbsent(s: seq<CodeUnit>, p: seq<CodeUnit>, r: CodeUnit, q: seq<CodeUnit>)
    requires p != [] && q != [] && r !in q && !Occurs(s, q)
    ensures !Occurs(ReplaceAll(s, p, r), q)
  {
    var res := ReplaceAll(s, p, r);
    if |s| >= |p| {
      if s[..|p|] == p {
        var rest := ReplaceAll(s[|p|..], p, r);
        assert res == [r] + rest;
        forall j ensures !MatchAt(s[|p|..], q, j) {
          if j >= 0 { MatchShift(s, q, |p|, j); }
        }
        ReplaceAllKeepsAbsent(s[|p|..], p, r, q);
        forall i ensures !MatchAt(res, q, i) {
          if i >= 1 {
            MatchShift(res, q, 1, i - 1);
            assert res[1..] == rest;
          } else if i == 0 && |q| <= |res| {
            assert res[..|q|][0] == r;
          }
        }
      } else {
        var rest := ReplaceAll(s[1..], p, r);
        assert res == [s[0]] + rest;
        forall j ensures !MatchAt(s[1..], q, j) {
          if j >= 0 { MatchShift(s, q, 1, j); }
        }
        ReplaceAllKeepsAbsent(s[1..], p, r, q);
        PrefixPreserved(s[1..], p, r, q[1..]);
        assert !MatchAt(s, q, 0);
        forall i ensures !MatchAt(res, q, i) {
          if i >= 1 {
            MatchShift(res, q, 1, i - 1);
            assert res[1..] == rest;
          } else if i == 0 && |q| <= |res| {
            assert res[..|q|] == [s[0]] + rest[..|q| - 1];
            assert r in q[1..] ==> r in q;
            assert |q| - 1 <= |s[1..]| ==> s[..|q|] == [s[0]] + s[1..][..|q| - 1];
          }
        }
      }
    }
  }

  /** Putting `p` back for every `r` restores the input, when `r` did not occur in it:
      only the occurrences found were touched, each became exactly one `r`, and every
      other code unit is unchanged and in place. */
  lemma {:induction false} ExpandReplaceAll(s: seq<CodeUnit>, p: seq<CodeUnit>, r: CodeUnit)
    requires p != [] && r !in s
    ensures Expand(ReplaceAll(s, p, r), r, p) == s
  {
    if s != [] {
      if |s| >= |p| && s[..|p|] == p {
        var rest := ReplaceAll(s[|p|..], p, r);
        ExpandReplaceAll(s[|p|..], p, r);
        assert ([r] + rest)[1..] == rest;
        assert s == s[..|p|] + s[|p|..];
      } else {
        var rest := ReplaceAll(s[1..], p, r);
        ReplaceAllSkip(s, p, r);
        ExpandReplaceAll(s[1..], p, r);
        assert ([s[0]] + rest)[1..] == rest;
        assert s == [s[0]] + s[1..];
      }
    }
  }

  /** Once an occurrence of a pattern without self-overlap starts at the front, none
      starts at the next |p| - 1 indices. */
  lemma NoMatchInsideMatch(s: seq<CodeUnit>, p: seq<CodeUnit>, m: int)
    requires NoSelfOverlap(p) && MatchAt(s, p, 0) && 0 < m < |p|
    ensures !MatchAt(s, p, m)
  {
    assert p[m..] == s[m..|p|];
    if m + |p| <= |s| {
      assert s[m..m + |p|][..|p| - m] == s[m..|p|];
    }
  }

  lemma {:induction false} CountSkip(t: seq<CodeUnit>, p: seq<CodeUnit>, k: int)
    requires p != [] && 0 <= k <= |t|
    requires forall j :: 0 <= j < k ==> !MatchAt(t, p, j)
    ensures Count(t, p) == Count(t[k..], p)
  {
    if k > 0 {
      assert !MatchAt(t, p, 0);
      if |t| >= |p| {
        assert t[..|p|] == t[0..|p|];
      }
      forall j | 0 <= j < k - 1 ensures !MatchAt(t[1..], p, j) {
        MatchShift(t, p, 1, j);
      }
      CountSkip(t[1..], p, k - 1);
      assert t[1..][k - 1..] == t[k..];
    }
  }

  /** Counting from an occurrence of a pattern without self-overlap resumes after it. */
  lemma CountAfterMatch(s: seq<CodeUnit>, p: seq<CodeUnit>)
    requires NoSelfOverlap(p) && p != [] && MatchAt(s, p, 0)
    ensures Count(s, p) == 1 + Count(s[|p|..], p)
  {
    assert s[..|p|] == s[0..|p|];
    forall j | 0 <= j < |p| - 1 ensures !MatchAt(s[1..], p, j) {
      MatchShift(s, p, 1, j);
      NoMatchInsideMatch(s, p, j + 1);
    }
    CountSkip(s[1..], p, |p| - 1);
    assert s[1..][|p| - 1..] == s[|p|..];
  }

  /** For a three-unit pattern without self-overlap, every occurrence is replaced by a
      single code unit: the result is shorter by two code units per occurrence. */
  lemma {:induction false} ReplaceAllLength(s: seq<CodeUnit>, p: seq<CodeUnit>, r: CodeUnit)
    requires |p| == 3 && NoSelfOverlap(p)
    ensures |ReplaceAll(s, p, r)| == |s| - 2 * Count(s, p)
  {
    if |s| < |p| {
      assert Count(s, p) == 0;
    } else if s[..|p|] == p {
      CountAfterMatch(s, p);
      ReplaceAllLength(s[|p|..], p, r);
    } else {
      ReplaceAllLength(s[1..], p, r);
      assert Count(s, p) == Count(s[1..], p);
    }
  }
}
